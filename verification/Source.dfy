/** The readers that the buffered packages read from: an arbitrary sequence of answers. */
module Source {
  import opened Arrays
  import opened Wrappers
  import opened Utf8

  const MAX_EMPTY_READS := 100

  datatype Err =
    | EOF | ErrNoProgress | ErrTooLong | ErrBadReadCount | ErrNegativeAdvance | ErrAdvanceTooFar | ErrFinalToken
    | ErrBufferFull | ErrNegativeCount | ErrInvalidUnreadByte | ErrInvalidUnreadRune | ErrShortWrite | Other(code: nat)

  /** What one call of Read would do with room to spare. BadCount breaks the io.Reader contract. */
  datatype Answer = Answer(data: seq<byte>, err: Option<Err>) | BadCount

  /** All the data of a script. */
  function Data(script: seq<Answer>): seq<byte> {
    if script == [] then [] else (if script[0].Answer? then script[0].data else []) + Data(script[1..])
  }

  /** The reader keeps the io.Reader contract. */
  predicate Obeys(script: seq<Answer>) {
    forall i :: 0 <= i < |script| ==> script[i].Answer?
  }

  /** Well behaved after k empty answers in a row: never a bad count, never more than limit empty
      answers in a row, and no error but the final one, at the end. */
  predicate Lively(script: seq<Answer>, k: nat, limit: nat, final: Err) {
    script == []
    || (script[0].Answer?
        && if script[0].err.Some? then script[0].err == Some(final) && script[1..] == []
           else if script[0].data == [] then k < limit && Lively(script[1..], k + 1, limit, final)
           else Lively(script[1..], 0, limit, final))
  }

  /** Reads left before the script is used up, at most. */
  function Work(script: seq<Answer>): nat {
    if script == [] then 0 else (if script[0].Answer? then |script[0].data| else 0) + 1 + Work(script[1..])
  }

  datatype Reply = Reply(n: int, data: seq<byte>, err: Option<Err>, rest: seq<Answer>)

  /** What Read with room for that many bytes answers. Data that does not fit stays for later, and
      after the last answer the final error repeats for ever. */
  function Answered(script: seq<Answer>, room: nat, final: Err): (r: Reply)
    ensures |r.data| <= room && (r.n < 0 || r.n == |r.data|)
  {
    if script == [] then Reply(0, [], Some(final), [])
    else if script[0].BadCount? then Reply(-1, [], None, script[1..])
    else if |script[0].data| <= room then Reply(|script[0].data|, script[0].data, script[0].err, script[1..])
    else Reply(room, script[0].data[..room], None, [Answer(script[0].data[room..], script[0].err)] + script[1..])
  }

  /** Reading in pieces does not change what is delivered. */
  lemma AnsweredDelivers(script: seq<Answer>, room: nat, final: Err)
    requires Obeys(script)
    ensures var r := Answered(script, room, final);
      r.n == |r.data| && Data(script) == r.data + Data(r.rest) && Obeys(r.rest)
  {
    if script != [] && |script[0].data| > room {
      var rest := Answered(script, room, final).rest;
      assert rest[1..] == script[1..];
      var a, b := script[0].data[..room], script[0].data[room..];
      assert a + b == script[0].data;
      assert Data(script) == a + (b + Data(script[1..]));
    }
  }

  lemma {:induction false} LivelyObeys(script: seq<Answer>, k: nat, limit: nat, final: Err)
    requires Lively(script, k, limit, final)
    ensures Obeys(script)
  {
    if script == [] {
    } else {
      if script[0].err.None? { LivelyObeys(script[1..], if script[0].data == [] then k + 1 else 0, limit, final); }
      forall i | 0 <= i < |script| ensures script[i].Answer? { if i > 0 { assert script[i] == script[1..][i - 1]; } }
    }
  }

  /** Fewer empty answers so far leave more patience. */
  lemma {:induction false} LivelyLess(script: seq<Answer>, k: nat, j: nat, limit: nat, final: Err)
    requires Lively(script, k, limit, final) && j <= k
    ensures Lively(script, j, limit, final)
  {
    if script == [] || script[0].err.Some? || script[0].data != [] {
    } else {
      LivelyLess(script[1..], k + 1, j + 1, limit, final);
    }
  }

  /** The rest of a well-behaved script; an error comes only at its end. */
  lemma AnsweredLively(script: seq<Answer>, room: nat, k: nat, limit: nat, final: Err)
    requires Lively(script, k, limit, final) && room > 0
    ensures var r := Answered(script, room, final);
      && (r.err.Some? ==> r.err == Some(final) && r.rest == [] && Data(r.rest) == [])
      && (r.err.None? && r.data != [] ==> Lively(r.rest, 0, limit, final))
      && (r.err.None? && r.data == [] ==> k < limit && Lively(r.rest, k + 1, limit, final))
  {
    if script != [] && |script[0].data| > room {
      assert Answered(script, room, final).rest[1..] == script[1..];
    }
  }

  /** The data before a reader that fills a buffer meets an error or gives up: it gives up after
      100 empty answers in a row, k of which have been had. */
  function Reachable(script: seq<Answer>, k: nat): seq<byte> {
    if script == [] || script[0].BadCount? then []
    else if script[0].err.Some? then script[0].data
    else if script[0].data == [] then (if k + 1 >= MAX_EMPTY_READS then [] else Reachable(script[1..], k + 1))
    else script[0].data + Reachable(script[1..], 0)
  }

  /** What remains reachable after one answer. */
  function ReachableAfter(r: Reply, k: nat): seq<byte> {
    if r.err.Some? then []
    else if r.data != [] then Reachable(r.rest, 0)
    else if k + 1 >= MAX_EMPTY_READS then []
    else Reachable(r.rest, k + 1)
  }

  /** Reading in pieces does not change what is reachable. */
  lemma AnsweredReaches(script: seq<Answer>, room: nat, k: nat, final: Err)
    requires Obeys(script) && room > 0
    ensures var r := Answered(script, room, final); Reachable(script, k) == r.data + ReachableAfter(r, k)
  {
    if script == [] {
    } else if |script[0].data| > room {
      CutReaches(script, room, k, final);
    } else {
      assert script[0].data + [] == script[0].data;
      if script[0].data == [] { assert [] + ReachableAfter(Answered(script, room, final), k) == ReachableAfter(Answered(script, room, final), k); }
    }
  }

  lemma CutReaches(script: seq<Answer>, room: nat, k: nat, final: Err)
    requires script != [] && script[0].Answer? && |script[0].data| > room > 0
    ensures var r := Answered(script, room, final);
      r.data != [] && r.err.None? && Reachable(script, k) == r.data + Reachable(r.rest, 0)
  {
    var rest := Answered(script, room, final).rest;
    var a, b := script[0].data[..room], script[0].data[room..];
    var more := if script[0].err.Some? then [] else Reachable(script[1..], 0);
    assert rest[1..] == script[1..] && rest[0] == Answer(b, script[0].err);
    assert a + b == script[0].data && b + [] == b && script[0].data + [] == script[0].data;
    assert a + (b + more) == script[0].data + more;
    assert Reachable(rest, 0) == b + more;
    hide Reachable, Obeys;
  }

  /** What is reachable comes first. */
  lemma {:induction false} ReachableFirst(script: seq<Answer>, k: nat)
    requires Obeys(script)
    ensures Reachable(script, k) <= Data(script)
  {
    if script == [] || script[0].err.Some? {
    } else {
      ReachableFirst(script[1..], if script[0].data == [] then k + 1 else 0);
    }
  }

  /** With one final error and enough patience everything is reachable. */
  lemma {:induction false} LivelyReaches(script: seq<Answer>, k: nat, limit: nat, final: Err)
    requires Lively(script, k, limit, final) && limit < MAX_EMPTY_READS
    ensures Reachable(script, k) == Data(script)
  {
    if script == [] {
    } else {
      if script[0].err.None? { LivelyReaches(script[1..], if script[0].data == [] then k + 1 else 0, limit, final); }
      assert script[0].data + [] == script[0].data;
    }
  }

  /** No error but the final one, at the end, and never a bad count. */
  predicate Ending(script: seq<Answer>, final: Err) {
    script == []
    || (script[0].Answer?
        && if script[0].err.Some? then script[0].err == Some(final) && script[1..] == [] else Ending(script[1..], final))
  }

  lemma {:induction false} EndingObeys(script: seq<Answer>, final: Err)
    requires Ending(script, final)
    ensures Obeys(script)
  {
    if script == [] {
    } else {
      if script[0].err.None? { EndingObeys(script[1..], final); }
      forall i | 0 <= i < |script| ensures script[i].Answer? { if i > 0 { assert script[i] == script[1..][i - 1]; } }
    }
  }

  lemma AnsweredEnding(script: seq<Answer>, room: nat, final: Err)
    requires Ending(script, final) && room > 0
    ensures var r := Answered(script, room, final);
      && (r.err.Some? ==> r.err == Some(final) && r.rest == [] && Data(r.rest) == [])
      && (r.err.None? ==> Ending(r.rest, final))
  {
    if script != [] && |script[0].data| > room {
      assert Answered(script, room, final).rest[1..] == script[1..];
    }
  }

  lemma AnsweredWorks(script: seq<Answer>, room: nat, final: Err)
    requires room > 0
    ensures var r := Answered(script, room, final);
      Work(r.rest) < Work(script) || (script == [] == r.rest && r.err == Some(final))
  {
    if script != [] && script[0].Answer? && |script[0].data| > room {
      assert Answered(script, room, final).rest[1..] == script[1..];
    }
  }

  /** From script on, rest is what is left just after an answer that reported the end. */
  ghost predicate Ended(script: seq<Answer>, rest: seq<Answer>, final: Err) {
    if script == [] then rest == [] && final == EOF
    else (rest == script[1..] && script[0].Answer? && script[0].err == Some(EOF)) || Ended(script[1..], rest, final)
  }

  /** Reading in pieces does not change where the end is. */
  lemma AnsweredEnded(script: seq<Answer>, room: nat, rest: seq<Answer>, final: Err)
    ensures var r := Answered(script, room, final);
      && (r.err == Some(EOF) ==> Ended(script, r.rest, final))
      && (Ended(r.rest, rest, final) ==> Ended(script, rest, final))
  {
    if script != [] && script[0].Answer? && |script[0].data| > room {
      assert Answered(script, room, final).rest[1..] == script[1..];
    }
  }

  class Reader {
    var script: seq<Answer>
    const final: Err

    constructor (answers: seq<Answer>, last: Err)
      ensures script == answers && final == last
    {
      script, final := answers, last;
    }

    /** r.Read(p[from:to]), which appends to what p already holds from lo on. */
    method Read(p: array<byte>, from: nat, to: nat, ghost lo: nat) returns (n: int, err: Option<Err>)
      requires lo <= from <= to <= p.Length
      modifies this, p
      ensures var r := Answered(old(script), to - from, final);
        && n == r.n && err == r.err && script == r.rest
        && p[lo..from + |r.data|] == old(p[lo..from]) + r.data
      ensures p[lo..from] == old(p[lo..from])
    {
      var r := Answered(script, to - from, final);
      script := r.rest;
      ghost var before := p[lo..from];
      forall k | 0 <= k < |r.data| { p[from + k] := r.data[k]; }
      forall k | lo <= k < from ensures p[k] == old(p[k]) {}
      forall k | from <= k < from + |r.data| ensures p[k] == r.data[k - from] {}
      assert p[lo..from] == before && p[from..from + |r.data|] == r.data;
      CutSlice(p, lo, from, from + |r.data|);
      return r.n, r.err;
    }
  }
}
