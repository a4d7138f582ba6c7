/** The Writer of go/src/bufio/bufio.go: whatever the underlying writer does, the bytes it was
    given followed by the buffered ones are exactly those reported as accepted. */
module BufWriter {
  import opened Arrays
  import opened Wrappers
  import opened Utf8
  import opened Source

  const DEFAULT_BUF_SIZE := 4096

  /** How a call of the underlying Write goes: at most limit bytes are taken. */
  datatype Grant = Grant(limit: nat, err: Option<Err>)

  /** An arbitrary io.Writer that takes a prefix of what it is given. After the last grant it
      takes everything. */
  class Sink {
    var grants: seq<Grant>
    var received: seq<byte>

    constructor (g: seq<Grant>)
      ensures grants == g && received == []
    {
      grants, received := g, [];
    }

    method Write(p: seq<byte>) returns (n: nat, err: Option<Err>)
      modifies this
      ensures n <= |p| && received == old(received) + p[..n]
      ensures old(grants) == [] ==> n == |p| && err.None? && grants == []
      ensures old(grants) != [] ==>
        grants == old(grants)[1..] && err == old(grants)[0].err && n == if old(grants)[0].limit < |p| then old(grants)[0].limit else |p|
    {
      n, err := |p|, None;
      if grants != [] {
        if grants[0].limit < n { n := grants[0].limit; }
        err := grants[0].err;
        grants := grants[1..];
      }
      received := received + p[..n];
    }
  }

  class Writer {
    var err: Option<Err>
    const buf: array<byte>
    var n: nat
    var wr: Sink

    predicate Valid()
      reads `n
    {
      n <= buf.Length && buf.Length > 0
    }

    /** Everything accepted so far: forwarded, then buffered. */
    ghost function Out(): seq<byte>
      requires Valid()
      reads `n, `wr, buf, wr`received
    {
      wr.received + buf[..n]
    }

    /** NewWriterSize(w, size). */
    constructor (w: Sink, size: int)
      ensures Valid() && wr == w && err.None? && n == 0 && fresh(buf) && Out() == w.received
      ensures buf.Length == if size <= 0 then 4096 else size
    {
      var room := if size <= 0 then DEFAULT_BUF_SIZE else size;
      buf := new byte[room](_ => 0);
      err, n, wr := None, 0, w;
      new;
      assert buf[..0] == [];
    }

    /** Reset(w): unflushed data and the error are gone. */
    method Reset(w: Sink)
      requires Valid()
      modifies `err, `n, `wr
      ensures Valid() && err.None? && n == 0 && wr == w && Out() == w.received
    {
      err, n, wr := None, 0, w;
      assert buf[..0] == [];
    }

    /** Nothing more is accepted or forwarded. */
    twostate predicate Stuck()
      requires Valid() && old(Valid())
      reads this, buf, wr
    {
      err == old(err) && n == old(n) && wr == old(wr) && wr.received == old(wr.received) && Out() == old(Out())
    }

    /** Flush. */
    method Flush() returns (e: Option<Err>)
      requires Valid()
      modifies `err, `n, buf, wr
      ensures Valid() && e == err && Out() == old(Out())
      ensures if old(err).Some? then Stuck() else e.None? ==> n == 0
      ensures |wr.grants| <= |old(wr.grants)|
      ensures e == if old(err).Some? then old(err) else if old(n) == 0 || old(wr.grants) == [] then None
                   else if old(wr.grants)[0].err.Some? then old(wr.grants)[0].err
                   else if old(wr.grants)[0].limit < old(n) then Some(ErrShortWrite) else None
    {
      if err.Some? { return err; }
      if n == 0 { return None; }
      ghost var got, all := wr.received, buf[..n];
      assert buf[0..n] == all;
      var k, er := wr.Write(buf[0..n]);
      if k < n && er.None? { er := Some(ErrShortWrite); }
      assert all == all[..k] + all[k..];
      Assoc(got, all[..k], all[k..]);
      Forget(k, er.Some?);
      if er.Some? {
        err := er;
        return err;
      }
      return None;
    }

    /** b.n -= k, what is left moved to the front. */
    method Forget(k: nat, failed: bool)
      requires Valid() && k <= n && (!failed ==> k == n)
      modifies `n, buf
      ensures Valid() && n == old(n) - k && buf[..n] == old(buf[..n])[k..]
    {
      if failed {
        if 0 < k < n {
          assert buf[k..k + (n - k)] == buf[..n][k..];
          CopyWithin(buf, 0, k, n - k);
          assert buf[..n - k] == buf[0..n - k];
        }
        n := n - k;
      } else {
        n := 0;
      }
    }

    /** copy(b.buf[b.n:], p), as much as there is room for. */
    method Take(p: seq<byte>) returns (k: nat)
      requires Valid()
      modifies `n, buf
      ensures Valid() && k == (if |p| < buf.Length - old(n) then |p| else buf.Length - old(n))
      ensures n == old(n) + k && Out() == old(Out()) + p[..k]
    {
      k := if |p| < buf.Length - n then |p| else buf.Length - n;
      var m := Put(buf, n, p[..k]);
      n := n + m;
    }

    /** One round of the loop of Write (direct: as Write does it, not WriteString). */
    method Forward(p: seq<byte>, direct: bool) returns (k: nat)
      requires Valid() && err.None? && |p| > buf.Length - n
      modifies `err, `n, buf, wr
      ensures Valid() && k <= |p| && Out() == old(Out()) + p[..k]
      ensures |wr.grants| <= |old(wr.grants)|
      ensures k > 0 || err.Some? || |wr.grants| < |old(wr.grants)| || n < old(n)
    {
      if n == 0 && direct {
        assert buf[..n] == [];
        k, err := wr.Write(p);
      } else {
        k := Take(p);
        var e := Flush();
      }
    }

    /** Write and, without the StringWriter path, WriteString: the bytes p[:nn] are accepted. */
    method WriteAll(p0: seq<byte>, direct: bool) returns (nn: nat, e: Option<Err>)
      requires Valid()
      modifies `err, `n, buf, wr
      ensures Valid() && nn <= |p0| && Out() == old(Out()) + p0[..nn]
      ensures e == err && (e.None? ==> nn == |p0|)
      ensures old(err).Some? ==> nn == 0 && Stuck()
      ensures old(err).None? && |p0| <= buf.Length - old(n) ==> e.None? && wr.received == old(wr.received)
    {
      nn := 0;
      var p := p0;
      assert p0[..0] == [] && Out() + [] == Out();
      while |p| > buf.Length - n && err.None?
        invariant Valid() && nn <= |p0| && p == p0[nn..] && Out() == old(Out()) + p0[..nn]
        invariant old(err).Some? ==> nn == 0 && Stuck()
        invariant old(err).None? && |p0| <= buf.Length - old(n) ==> nn == 0 && err.None? && n == old(n) && wr.received == old(wr.received)
        decreases err.None?, |p| + |wr.grants|, n
      {
        var k := Forward(p, direct);
        assert p0[..nn + k] == p0[..nn] + p[..k];
        nn := nn + k;
        p := p[k..];
      }
      if err.Some? { return nn, err; }
      var k := Take(p);
      assert p0 == p0[..nn] + p && p[..k] == p;
      nn := nn + k;
      return nn, None;
    }

    method Write(p: seq<byte>) returns (nn: nat, e: Option<Err>)
      requires Valid()
      modifies `err, `n, buf, wr
      ensures Valid() && nn <= |p| && Out() == old(Out()) + p[..nn]
      ensures e == err && (e.None? ==> nn == |p|)
      ensures old(err).Some? ==> nn == 0 && Stuck()
      ensures old(err).None? && |p| <= buf.Length - old(n) ==> e.None? && wr.received == old(wr.received)
    {
      nn, e := WriteAll(p, true);
    }

    method WriteString(s: seq<byte>) returns (nn: nat, e: Option<Err>)
      requires Valid()
      modifies `err, `n, buf, wr
      ensures Valid() && nn <= |s| && Out() == old(Out()) + s[..nn]
      ensures e == err && (e.None? ==> nn == |s|)
      ensures old(err).Some? ==> nn == 0 && Stuck()
      ensures old(err).None? && |s| <= buf.Length - old(n) ==> e.None? && wr.received == old(wr.received)
    {
      nn, e := WriteAll(s, false);
    }

    method WriteByte(c: byte) returns (e: Option<Err>)
      requires Valid()
      modifies `err, `n, buf, wr
      ensures Valid() && e == err && Out() == if e.None? then old(Out()) + [c] else old(Out())
      ensures old(err).Some? ==> Stuck()
      ensures old(err).None? && old(n) < buf.Length ==> e.None? && wr.received == old(wr.received)
    {
      if err.Some? { return err; }
      if buf.Length - n <= 0 {
        e := Flush();
        if e.Some? { return err; }
      }
      var k := Take([c]);
      assert [c][..k] == [c];
      return None;
    }

    method WriteRune(r: int) returns (size: nat, e: Option<Err>)
      requires Valid()
      modifies `err, `n, buf, wr
      ensures Valid() && e == err && size <= |EncodeRune(r)| && Out() == old(Out()) + EncodeRune(r)[..size]
      ensures e.None? ==> size == |EncodeRune(r)|
      ensures old(err).Some? ==> size == 0 && Stuck()
    {
      var text := EncodeRune(r);
      assert text[..0] == [] && Out() + [] == Out();
      if 0 <= r < RUNE_SELF {
        e := WriteByte(r);
        assert text == [r] && text[..1] == text;
        if e.Some? { return 0, e; }
        return 1, None;
      }
      hide EncodeRune;
      if err.Some? { return 0, err; }
      if buf.Length - n < UTF_MAX {
        var f := Flush();
        if err.Some? { return 0, err; }
        if buf.Length - n < UTF_MAX {
          size, e := WriteString(text);
          return;
        }
      }
      size := Take(text);
      return size, None;
    }

    /** Bytes have gone from the reader to the end of what was accepted, m of them. */
    twostate predicate Moved(r: Reader, m: nat)
      requires Valid() && old(Valid())
      reads this, buf, wr, r
    {
      && old(Out()) <= Out() && |Out()| == |old(Out())| + m
      && Out() + Data(r.script) == old(Out()) + Data(old(r.script))
    }

    /** Wherever r reports its end from now on, it does so from what it was before. */
    twostate predicate Onward(r: Reader)
      reads r
    {
      forall x :: Ended(r.script, x, r.final) ==> Ended(old(r.script), x, r.final)
    }

    /** r.Read(b.buf[b.n:]), and b.n += m. */
    method ReadOnce(r: Reader) returns (m: nat, e: Option<Err>)
      requires Valid() && Obeys(r.script) && n < buf.Length
      modifies `n, buf, r
      ensures Valid() && Obeys(r.script) && n == old(n) + m && Moved(r, m)
      ensures Work(r.script) < old(Work(r.script)) || e.Some?
      ensures m == 0 ==> Out() == old(Out()) && Data(r.script) == old(Data(r.script))
      ensures Onward(r) && (e == Some(EOF) ==> Ended(old(r.script), r.script, r.final))
    {
      hide Data, Work, Obeys, Answered, Ended;
      ghost var script, room := r.script, buf.Length - n;
      ghost var reply := Answered(script, room, r.final);
      AnsweredDelivers(script, room, r.final);
      AnsweredWorks(script, room, r.final);
      forall x { AnsweredEnded(script, room, x, r.final); }
      ghost var held, got := buf[..n], wr.received;
      assert held == buf[0..n];
      var k;
      k, e := r.Read(buf, n, buf.Length, 0);
      m := k;
      n := n + m;
      assert buf[..n] == buf[0..n] == held + reply.data;
      assert got + (held + reply.data) == (got + held) + reply.data;
      assert ((got + held) + reply.data) + Data(reply.rest) == (got + held) + (reply.data + Data(reply.rest));
      if m == 0 { assert reply.data == [] && [] + Data(reply.rest) == Data(reply.rest) && held + [] == held; }
    }

    /** The reads of ReadFrom: up to 100 of them, until one brings data or an error. */
    method ReadSome(r: Reader) returns (m: nat, nr: nat, e: Option<Err>)
      requires Valid() && Obeys(r.script) && n < buf.Length
      modifies `n, buf, r
      ensures Valid() && Obeys(r.script) && Moved(r, m)
      ensures nr <= MAX_EMPTY_READS && (nr == MAX_EMPTY_READS ==> m == 0)
      ensures nr < MAX_EMPTY_READS ==> m > 0 || e.Some?
      ensures Work(r.script) < old(Work(r.script)) || e.Some?
      ensures Onward(r) && (e == Some(EOF) ==> Ended(old(r.script), r.script, r.final))
    {
      hide Data, Work, Obeys, Ended;
      m, nr, e := 0, 0, None;
      while nr < MAX_EMPTY_READS
        invariant Valid() && Obeys(r.script) && n == old(n) && m == 0 && e.None? && nr <= MAX_EMPTY_READS
        invariant Out() == old(Out()) && Data(r.script) == old(Data(r.script)) && Onward(r)
        invariant Work(r.script) < old(Work(r.script)) || (nr == 0 && Work(r.script) == old(Work(r.script)))
      {
        m, e := ReadOnce(r);
        if m != 0 || e.Some? { return; }
        nr := nr + 1;
      }
    }

    /** ReadFrom, without the ReaderFrom path: what is taken from r is accepted, and without an
        error that is all up to where r reports its end. */
    method ReadFrom(r: Reader) returns (total: nat, e: Option<Err>)
      requires Valid() && Obeys(r.script)
      modifies `err, `n, buf, wr, r
      ensures Valid() && Obeys(r.script) && Moved(r, total)
      ensures old(err).Some? ==> total == 0 && e == err && Stuck() && r.script == old(r.script)
      ensures err.Some? ==> e.Some?
      ensures e.None? ==> Ended(old(r.script), r.script, r.final)
    {
      hide Data, Work, Obeys, Ended;
      if err.Some? { return 0, err; }
      total := 0;
      while true
        invariant Valid() && Obeys(r.script) && err.None? && Onward(r)
        invariant old(Out()) <= Out() && |Out()| == |old(Out())| + total
        invariant Out() + Data(r.script) == old(Out()) + Data(old(r.script))
        decreases Work(r.script)
      {
        if buf.Length - n == 0 {
          var err1 := Flush();
          if err1.Some? { return total, err1; }
        }
        var m, nr;
        m, nr, e := ReadSome(r);
        if nr == MAX_EMPTY_READS { return total, Some(ErrNoProgress); }
        total := total + m;
        if e.Some? { break; }
      }
      if e == Some(EOF) {
        e := None;
        if buf.Length - n == 0 { e := Flush(); }
      }
    }
  }

  datatype Op =
    | WriteOp(p: seq<byte>) | StringOp(p: seq<byte>) | ByteOp(c: byte) | RuneOp(r: int) | FlushOp
    | ReadFromOp(script: seq<Answer>, final: Err)
    | ResetOp(grants: seq<Grant>)

  predicate Resets(ops: seq<Op>) {
    exists i :: 0 <= i < |ops| && ops[i].ResetOp?
  }

  /** Any run of calls: what the underlying writer received, followed by the buffer, is what the
      calls since the last Reset reported as accepted, in order. In a run that starts after an
      error, nothing is accepted or received up to the next Reset. */
  method Run(w: Writer, ops: seq<Op>) returns (accepted: seq<byte>)
    requires w.Valid() && forall i :: 0 <= i < |ops| && ops[i].ReadFromOp? ==> Obeys(ops[i].script)
    modifies w, w.buf, w.wr
    ensures w.Valid() && w.wr.received + w.buf[..w.n] == (if Resets(ops) then [] else old(w.Out())) + accepted
    ensures !Resets(ops) ==> w.wr == old(w.wr)
    ensures !Resets(ops) && old(w.err).Some? ==>
      accepted == [] && w.err == old(w.err) && w.wr.received == old(w.wr.received)
  {
    accepted := [];
    assert w.Out() + [] == w.Out();
    ghost var base := w.Out();
    var i := 0;
    while i < |ops|
      invariant 0 <= i <= |ops| && w.Valid() && (w.wr == old(w.wr) || fresh(w.wr)) && w.Out() == base + accepted
      invariant base == if Resets(ops[..i]) then [] else old(w.Out())
      invariant !Resets(ops[..i]) ==> w.wr == old(w.wr)
      invariant !Resets(ops[..i]) && old(w.err).Some? ==>
        accepted == [] && w.err == old(w.err) && w.wr.received == old(w.wr.received)
    {
      ResetsNext(ops, i);
      var more := RunOne(w, ops[i]);
      if ops[i].ResetOp? {
        accepted, base := [], [];
      } else {
        assert (base + accepted) + more == base + (accepted + more);
        accepted := accepted + more;
      }
      i := i + 1;
    }
    assert ops[..i] == ops;
  }

  lemma ResetsNext(ops: seq<Op>, i: nat)
    requires i < |ops|
    ensures Resets(ops[..i + 1]) <==> Resets(ops[..i]) || ops[i].ResetOp?
  {
    assert ops[..i + 1] == ops[..i] + [ops[i]];
    assert ops[..i + 1][i] == ops[i];
    if Resets(ops[..i]) {
      var k :| 0 <= k < i && ops[..i][k].ResetOp?;
      assert ops[..i + 1][k].ResetOp?;
    }
  }

  /** What has been taken off the front of some data. */
  lemma TakenFirst(had: seq<byte>, now: seq<byte>, all: seq<byte>, rest: seq<byte>)
    requires had <= now && now + rest == had + all
    ensures |now| - |had| <= |all| && now == had + all[..|now| - |had|]
  {
    assert now == (now + rest)[..|now|] && (had + all)[..|now|] == had + all[..|now| - |had|];
  }

  /** One call. A Reset to a new writer accepts nothing and leaves the old writer alone. */
  method RunOne(w: Writer, op: Op) returns (more: seq<byte>)
    requires w.Valid() && (op.ReadFromOp? ==> Obeys(op.script))
    modifies w`err, w`n, w`wr, w.buf, w.wr
    ensures w.Valid() && if op.ResetOp? then w.Out() == more == [] && w.err.None? else w.Out() == old(w.Out()) + more
    ensures if op.ResetOp? then fresh(w.wr) && old(w.wr).received == old(w.wr.received) else w.wr == old(w.wr)
    ensures old(w.err).Some? && !op.ResetOp? ==>
      more == [] && w.err == old(w.err) && w.wr.received == old(w.wr.received)
  {
    hide EncodeRune, Data, Obeys, Ended;
    more := [];
    match op
    case WriteOp(p) =>
      var nn, e := w.Write(p);
      more := p[..nn];
    case StringOp(p) =>
      var nn, e := w.WriteString(p);
      more := p[..nn];
    case ByteOp(c) =>
      var e := w.WriteByte(c);
      if e.None? { more := [c]; }
    case RuneOp(r) =>
      var size, e := w.WriteRune(r);
      more := EncodeRune(r)[..size];
    case FlushOp =>
      var e := w.Flush();
    case ReadFromOp(script, final) =>
      ghost var had := w.Out();
      var r := new Reader(script, final);
      var total, e := w.ReadFrom(r);
      more := Data(script)[..total];
      TakenFirst(had, w.Out(), Data(script), Data(r.script));
    case ResetOp(grants) =>
      var to := new Sink(grants);
      w.Reset(to);
  }
}
