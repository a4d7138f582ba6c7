/** The Reader of go/src/bufio/bufio.go: a sliding buffer that must behave as the plain stream of
    the bytes it holds followed by what its source has left. */
module BufReader {
  import opened Arrays
  import opened Wrappers
  import opened Utf8
  import Source
  import opened Split

  type Err = Source.Err

  const MIN_READ_BUFFER_SIZE := 16
  /** fill gives up at its 100th read without data. */
  const PATIENCE := 99

  function Max(a: int, b: int): int { if a < b then b else a }

  /** A call that found the stream all took data from its front and left rest. */
  ghost predicate Took(all: seq<byte>, data: seq<byte>, rest: seq<byte>) {
    all == data + rest
  }

  lemma TookNone(all: seq<byte>)
    ensures Took(all, [], all)
  {
  }

  lemma TookNothing(all: seq<byte>, data: seq<byte>, rest: seq<byte>)
    requires Took(all, data, rest) && data == []
    ensures all == rest
  {
  }

  lemma TookTwice(all: seq<byte>, first: seq<byte>, mid: seq<byte>, second: seq<byte>, rest: seq<byte>)
    requires Took(all, first, mid) && Took(mid, second, rest)
    ensures Took(all, first + second, rest)
  {
  }

  /** The last byte read, or -1. */
  type LastByte = x: int | -1 <= x < 256

  class BufReader {
    const buf: array<byte>
    const rd: Source.Reader
    var r: nat
    var w: nat
    var err: Option<Err>
    var lastByte: LastByte
    var lastRuneSize: int

    /** The source keeps the io.Reader contract (a negative count is a panic). */
    predicate Valid()
      reads `r, `w, rd
    {
      r <= w <= buf.Length && buf.Length >= MIN_READ_BUFFER_SIZE && Source.Obeys(rd.script)
    }

    ghost function Buffer(): (b: seq<byte>)
      requires Valid()
      reads `r, `w, buf, rd
      ensures |b| == w - r
    {
      buf[r..w]
    }

    /** The plain stream: the buffered bytes, then everything the source has left. */
    ghost function Rest(): seq<byte>
      requires Valid()
      reads `r, `w, buf, rd
    {
      Buffer() + Source.Data(rd.script)
    }

    /** The source has one final error, which repeats, and never makes fill give up. */
    ghost predicate Steady()
      reads `err, rd
    {
      Source.Lively(rd.script, 0, PATIENCE, rd.final) && (err.None? || (err == Some(rd.final) && rd.script == []))
    }

    /** The part of the stream before the next error: the buffered bytes and, unless an error is
        pending, what filling can reach. */
    ghost function Front(): seq<byte>
      requires Valid()
      reads `r, `w, `err, buf, rd
    {
      Buffer() + if err.Some? then [] else Source.Reachable(rd.script, 0)
    }

    /** NewReaderSize(rd, size). */
    constructor (source: Source.Reader, size: int)
      requires Source.Obeys(source.script)
      ensures Valid() && rd == source && fresh(buf) && buf.Length == (if size < 16 then 16 else size)
      ensures Rest() == Source.Data(source.script) && Front() == Source.Reachable(source.script, 0)
      ensures err.None? && lastByte < 0 && lastRuneSize < 0
    {
      rd, r, w, err, lastByte, lastRuneSize := source, 0, 0, None, -1, -1;
      var room := Max(size, MIN_READ_BUFFER_SIZE);
      buf := new byte[room](_ => 0);
      new;
      assert [] + Source.Data(source.script) == Source.Data(source.script);
      assert [] + Source.Reachable(source.script, 0) == Source.Reachable(source.script, 0);
    }

    method Slide()
      requires Valid()
      modifies `r, `w, buf
      ensures Valid() && r == 0 && Buffer() == old(Buffer())
    {
      if r > 0 {
        CopyWithin(buf, 0, r, w - r);
        w := w - r;
        r := 0;
      }
    }

    /** One Read behind the buffered bytes. */
    method ReadOnce(ghost k: nat) returns (n: int, e: Option<Err>)
      requires Valid() && w < buf.Length
      modifies `w, buf, rd
      ensures Valid() && n >= 0 && old(Buffer()) <= Buffer() && w == old(w) + n && Rest() == old(Rest())
      ensures Source.Work(rd.script) < old(Source.Work(rd.script)) || (e == Some(rd.final) && Source.Work(rd.script) == old(Source.Work(rd.script)))
      ensures Buffer() + Ahead(n, e, k) == old(Buffer() + Source.Reachable(rd.script, k))
      ensures old(Source.Lively(rd.script, k, PATIENCE, rd.final)) ==>
        && (e.Some? ==> e == Some(rd.final) && rd.script == [])
        && (e.None? && n > 0 ==> Source.Lively(rd.script, 0, PATIENCE, rd.final))
        && (e.None? && n == 0 ==> k < PATIENCE && Source.Lively(rd.script, k + 1, PATIENCE, rd.final))
    {
      hide Source.Answered, Source.Work, Source.Lively, Source.Data, Source.Obeys, Source.Reachable;
      ghost var script, room, d := rd.script, buf.Length - w, Buffer();
      ghost var reply := Source.Answered(script, room, rd.final);
      Source.AnsweredWorks(script, room, rd.final);
      Source.AnsweredDelivers(script, room, rd.final);
      Source.AnsweredReaches(script, room, k, rd.final);
      if Source.Lively(script, k, PATIENCE, rd.final) { Source.AnsweredLively(script, room, k, PATIENCE, rd.final); }
      n, e := rd.Read(buf, w, buf.Length, r);
      w := w + n;
      Assoc(d, reply.data, Source.Data(reply.rest));
      Assoc(d, reply.data, Source.ReachableAfter(reply, k));
    }

    /** What filling can still reach after a Read that answered n and e. */
    ghost function Ahead(n: int, e: Option<Err>, k: nat): seq<byte>
      reads rd
    {
      if e.Some? then []
      else if n > 0 then Source.Reachable(rd.script, 0)
      else if k + 1 >= Source.MAX_EMPTY_READS then []
      else Source.Reachable(rd.script, k + 1)
    }

    /** fill: read a new chunk into the buffer; a full buffer is a panic. */
    method Fill()
      requires Valid() && w - r < buf.Length
      modifies `r, `w, `err, buf, rd
      ensures Valid() && r == 0 && old(Buffer()) <= Buffer() && Rest() == old(Rest())
      ensures err.Some? || |Buffer()| > old(|Buffer()|)
      ensures old(err).Some? ==> err.Some?
      ensures old(err).None? ==> Front() == old(Front()) && Worked(old(Source.Work(rd.script)))
      ensures old(Steady()) ==> Steady()
    {
      hide Source.Lively, Source.Data, Source.Obeys, Source.Reachable;
      Slide();
      FillLoop();
    }

    /** Reads have been made since there was that much work left, or the final error was met. */
    ghost predicate Worked(before: nat)
      reads `err, rd
    {
      Source.Work(rd.script) < before || (err == Some(rd.final) && Source.Work(rd.script) == before)
    }

    /** The loop of fill: try a limited number of times. */
    method FillLoop()
      requires Valid() && r == 0 && w < buf.Length
      modifies `w, `err, buf, rd
      ensures Valid() && old(Buffer()) <= Buffer() && Rest() == old(Rest())
      ensures err.Some? || |Buffer()| > old(|Buffer()|)
      ensures old(err).Some? ==> err.Some?
      ensures old(err).None? ==> Front() == old(Front()) && Worked(old(Source.Work(rd.script)))
      ensures old(Steady()) ==> Steady()
    {
      hide Source.Lively, Source.Data, Source.Obeys, Source.Reachable;
      var i := Source.MAX_EMPTY_READS;
      while i > 0
        invariant Valid() && 0 <= i <= Source.MAX_EMPTY_READS && w == old(w) && err == old(err)
        invariant Buffer() == old(Buffer()) && Rest() == old(Rest())
        invariant old(err).None? ==> old(Front()) == Buffer() + if i > 0 then Source.Reachable(rd.script, Source.MAX_EMPTY_READS - i) else []
        invariant Source.Work(rd.script) < old(Source.Work(rd.script)) || (i == Source.MAX_EMPTY_READS && rd.script == old(rd.script))
        invariant old(Steady()) ==>
          i > 0 && Source.Lively(rd.script, Source.MAX_EMPTY_READS - i, PATIENCE, rd.final) && (err.None? || rd.script == [])
      {
        var n, e := ReadOnce(Source.MAX_EMPTY_READS - i);
        if e.Some? {
          err := e;
          Exhausted();
          return;
        }
        if n > 0 { return; }
        i := i - 1;
      }
      err := Some(Source.ErrNoProgress);
    }

    lemma Exhausted()
      ensures Source.Lively([], 0, PATIENCE, rd.final)
    {
    }

    method ReadErr() returns (e: Option<Err>)
      modifies `err
      ensures e == old(err) && err.None? && (old(Steady()) ==> Steady())
    {
      e := err;
      err := None;
    }

    /** The stream has ended with the source's final error. */
    ghost predicate Ended(e: Option<Err>)
      requires Valid()
      reads `r, `w, buf, rd
    {
      e == Some(rd.final) && Rest() == []
    }

    /** With its error pending, a steady source has nothing left. */
    lemma AllBuffered()
      requires Valid() && Steady() && err.Some?
      ensures Rest() == Buffer() && err == Some(rd.final) && Source.Lively(rd.script, 0, PATIENCE, rd.final)
    {
      assert Buffer() + [] == Buffer();
    }

    /** Peek: a prefix of the stream, none of it consumed. */
    method Peek(n: int) returns (p: seq<byte>, e: Option<Err>)
      requires Valid()
      modifies `r, `w, `err, `lastByte, `lastRuneSize, buf, rd
      ensures Valid() && Rest() == old(Rest()) && p <= Rest()
      ensures if n < 0 then p == [] && e == Some(Source.ErrNegativeCount) else |p| <= n && (e.None? <==> |p| == n)
      ensures n > buf.Length ==> e == Some(Source.ErrBufferFull)
      ensures old(Steady()) ==> Steady() && (0 <= n <= buf.Length && e.Some? ==> e == Some(rd.final) && p == Rest())
    {
      hide Source.Lively, Source.Data, Source.Obeys, Source.Work, Source.Reachable, Rest, Buffer, Steady, Front;
      if n < 0 {
        BufferPrefix(0);
        return [], Some(Source.ErrNegativeCount);
      }
      lastByte, lastRuneSize := -1, -1;
      FillUpTo(n);
      p, e := Part(n);
    }

    /** The end of Peek: as much of the n bytes as there is. */
    method Part(n: nat) returns (p: seq<byte>, e: Option<Err>)
      requires Valid() && (w - r >= n || w - r == buf.Length || err.Some?)
      modifies `err
      ensures Valid() && Rest() == old(Rest()) && p <= Rest() && |p| <= n && (e.None? <==> |p| == n)
      ensures n > buf.Length ==> e == Some(Source.ErrBufferFull)
      ensures old(Steady()) ==> Steady() && (n <= buf.Length && e.Some? ==> e == Some(rd.final) && p == Rest())
    {
      hide Source.Lively, Source.Data, Source.Obeys, Rest, Buffer, Steady;
      if Steady() && err.Some? { AllBuffered(); }
      var m := n;
      e := None;
      if n > buf.Length {
        m, e := w - r, Some(Source.ErrBufferFull);
      } else if w - r < n {
        m := w - r;
        e := ReadErr();
        if e.None? { e := Some(Source.ErrBufferFull); }
      }
      p := buf[r..r + m];
      BufferPrefix(m);
    }

    /** The loop of Peek. */
    method FillUpTo(n: nat)
      requires Valid()
      modifies `r, `w, `err, buf, rd
      ensures Valid() && Rest() == old(Rest()) && (w - r >= n || w - r == buf.Length || err.Some?)
      ensures old(Steady()) ==> Steady()
    {
      hide Source.Lively, Source.Data, Source.Obeys, Source.Reachable, Rest, Buffer, Steady, Front, Worked;
      while w - r < n && w - r < buf.Length && err.None?
        invariant Valid() && Rest() == old(Rest()) && (old(Steady()) ==> Steady())
        decreases buf.Length - (w - r), err.None?
      {
        Fill();
      }
    }

    lemma BufferPrefix(m: nat)
      requires Valid() && m <= w - r
      ensures buf[r..r + m] <= Rest() && [] <= Rest() && (m == w - r ==> buf[r..r + m] == Buffer())
    {
      hide Source.Data, Source.Obeys;
      CutSlice(buf, r, r + m, w);
    }

    /** b.r += k, over buffered bytes. */
    method Consume(k: nat) returns (data: seq<byte>)
      requires Valid() && k <= w - r
      modifies `r
      ensures Valid() && r == old(r) + k && |data| == k && data == buf[r - k..r] == buf[old(r)..old(r) + k]
      ensures Took(old(Rest()), data, Rest())
    {
      hide Source.Data, Source.Obeys;
      data := buf[r..r + k];
      r := r + k;
      assert old(Buffer()) == buf[r - k..r] + Buffer();
    }

    /** With its error pending and nothing buffered, a steady source has ended. */
    lemma AllRead()
      requires Valid() && Steady() && err.Some? && r == w
      ensures Rest() == [] && err == Some(rd.final)
    {
    }

    /** The part of Discard that is repeated: skip what is buffered, filling an empty buffer first. */
    method Skip(remain: nat) returns (skip: nat, ghost gone: seq<byte>)
      requires Valid() && remain > 0
      modifies `r, `w, `err, buf, rd
      ensures Valid() && skip == |gone| <= remain && Took(old(Rest()), gone, Rest())
      ensures skip > 0 || err.Some?
      ensures old(Steady()) ==> Steady() && (skip < remain && err.Some? ==> Ended(err))
    {
      hide Source.Lively, Source.Data, Source.Obeys, Rest, Took;
      skip := w - r;
      if skip == 0 {
        Fill();
        skip := w - r;
      }
      if skip > remain { skip := remain; }
      gone := Consume(skip);
      if Steady() && err.Some? && r == w { AllRead(); }
    }

    /** Discard. */
    method Discard(n: int) returns (discarded: nat, e: Option<Err>, ghost gone: seq<byte>)
      requires Valid()
      modifies `r, `w, `err, `lastByte, `lastRuneSize, buf, rd
      ensures Valid() && discarded == |gone| && Took(old(Rest()), gone, Rest())
      ensures if n < 0 then discarded == 0 && e == Some(Source.ErrNegativeCount) else discarded <= n && (e.None? <==> discarded == n)
      ensures old(Steady()) ==> Steady() && (n >= 0 && e.Some? ==> Ended(e))
    {
      hide Source.Lively, Source.Data, Source.Obeys, Rest, Steady, Took;
      gone := [];
      TookNone(Rest());
      if n < 0 { return 0, Some(Source.ErrNegativeCount), gone; }
      if n == 0 { return 0, None, gone; }
      lastByte, lastRuneSize := -1, -1;
      var remain: nat := n;
      while true
        invariant Valid() && 0 < remain <= n && |gone| == n - remain && Took(old(Rest()), gone, Rest())
        invariant old(Steady()) ==> Steady()
        decreases remain
      {
        ghost var mid := Rest();
        var skip, more := Skip(remain);
        TookTwice(old(Rest()), gone, mid, more, Rest());
        gone := gone + more;
        remain := remain - skip;
        if remain == 0 { return n, None, gone; }
        if err.Some? {
          e := ReadErr();
          return n - remain, e, gone;
        }
      }
    }

    /** ReadByte: the next byte of the stream, or none of it. */
    method ReadByte() returns (c: byte, e: Option<Err>)
      requires Valid()
      modifies `r, `w, `err, `lastByte, `lastRuneSize, buf, rd
      ensures Valid()
      ensures if e.None? then Took(old(Rest()), [c], Rest()) && r > 0 && lastByte == c else Rest() == old(Rest())
      ensures old(Steady()) ==> Steady() && (e.Some? ==> Ended(e))
    {
      hide Source.Lively, Source.Data, Source.Obeys, Rest, Took;
      lastRuneSize := -1;
      while r == w
        invariant Valid() && Rest() == old(Rest()) && (old(Steady()) ==> Steady())
        decreases r == w, err.None?
      {
        if err.Some? {
          if Steady() { AllRead(); }
          e := ReadErr();
          return 0, e;
        }
        Fill();
      }
      c, e := buf[r], None;
      var data := Consume(1);
      assert data == [c];
      lastByte := c;
    }

    /** UnreadByte: on success the last byte is the next one again. */
    method UnreadByte() returns (e: Option<Err>)
      requires Valid()
      modifies `r, `w, `lastByte, `lastRuneSize, buf
      ensures Valid() && (e.None? <==> old(lastByte >= 0 && !(r == 0 && w > 0)))
      ensures e.Some? ==> e == Some(Source.ErrInvalidUnreadByte) && Rest() == old(Rest())
      ensures e.None? ==> Took(Rest(), [old(lastByte)], old(Rest()))
      ensures old(Steady()) ==> Steady()
    {
      hide Source.Lively, Source.Data, Source.Obeys;
      if lastByte < 0 || (r == 0 && w > 0) { return Some(Source.ErrInvalidUnreadByte); }
      ghost var d := Buffer();
      if r > 0 { r := r - 1; } else { w := 1; }
      buf[r] := lastByte;
      assert buf[r..w] == [lastByte] + d;
      lastByte, lastRuneSize := -1, -1;
      return None;
    }

    /** The case of Read that bypasses the buffer. */
    method ReadDirect(p: array<byte>) returns (n: nat, e: Option<Err>)
      requires Valid() && p != buf && r == w && err.None? && p.Length > 0
      modifies `err, `lastByte, `lastRuneSize, p, rd
      ensures Valid() && n <= p.Length && Took(old(Rest()), p[..n], Rest())
      ensures n > 0 ==> lastByte == p[n - 1] && lastRuneSize == -1
      ensures err.None? && (old(Steady()) ==> Steady() && (e.Some? ==> Ended(e)))
      ensures e.Some? || Source.Work(rd.script) < old(Source.Work(rd.script))
    {
      hide Source.Lively, Source.Data, Source.Obeys, Source.Answered;
      Source.AnsweredWorks(rd.script, p.Length, rd.final);
      ghost var script, all := rd.script, Rest();
      ghost var reply := Source.Answered(script, p.Length, rd.final);
      Source.AnsweredDelivers(script, p.Length, rd.final);
      if Steady() { Source.AnsweredLively(script, p.Length, 0, PATIENCE, rd.final); }
      n, err := rd.Read(p, 0, p.Length, 0);
      assert p[..n] == p[0..n] == [] + reply.data == reply.data;
      assert all == reply.data + Source.Data(reply.rest) by { assert Buffer() == []; }
      assert Rest() == Source.Data(rd.script) by { assert Buffer() == []; }
      if Source.Lively(script, 0, PATIENCE, rd.final) { StillSteady(reply.rest, reply.err, n); }
      if n > 0 { lastByte, lastRuneSize := p[n - 1], -1; }
      e := ReadErr();
    }

    lemma StillSteady(rest: seq<Source.Answer>, e: Option<Err>, n: nat)
      requires e.Some? ==> rest == []
      requires e.None? && n > 0 ==> Source.Lively(rest, 0, PATIENCE, rd.final)
      requires e.None? && n == 0 ==> Source.Lively(rest, 1, PATIENCE, rd.final)
      ensures Source.Lively(rest, 0, PATIENCE, rd.final)
    {
      if e.Some? { Exhausted(); } else if n == 0 { Source.LivelyLess(rest, 1, 0, PATIENCE, rd.final); }
      hide Source.Lively;
    }

    /** The case of Read that refills an empty buffer with one Read. */
    method Refill() returns (n: nat)
      requires Valid() && r == w && err.None?
      modifies `r, `w, `err, buf, rd
      ensures Valid() && r == 0 && w == n && Rest() == old(Rest())
      ensures err.Some? || Source.Work(rd.script) < old(Source.Work(rd.script))
      ensures old(Steady()) ==> Steady()
    {
      hide Source.Lively, Source.Data, Source.Obeys;
      ghost var steady := Steady();
      assert Rest() == Source.Data(rd.script) by { assert Buffer() == []; }
      r, w := 0, 0;
      assert Rest() == Source.Data(rd.script) by { assert Buffer() == []; }
      n, err := ReadOnce(0);
      if steady { StillSteady(rd.script, err, n); }
    }

    /** Read: the next bytes of the stream into p. */
    method Read(p: array<byte>) returns (n: nat, e: Option<Err>)
      requires Valid() && p != buf
      modifies `r, `w, `err, `lastByte, `lastRuneSize, p, buf, rd
      ensures Valid() && n <= p.Length && Took(old(Rest()), p[..n], Rest())
      ensures n > 0 ==> lastByte == p[n - 1] && lastRuneSize == -1 && (r > 0 || w == 0)
      ensures p.Length > 0 && old(w - r) > 0 ==>
        e.None? && rd.script == old(rd.script) && n == if p.Length < old(w - r) then p.Length else old(w - r)
      ensures p.Length > 0 ==> n > 0 || e.Some? || Source.Work(rd.script) < old(Source.Work(rd.script))
      ensures old(Steady()) ==> Steady() && (p.Length > 0 && e.Some? ==> Ended(e))
    {
      hide Source.Lively, Source.Data, Source.Obeys, Source.Work, Rest, Steady, Took;
      TookNone(Rest());
      assert p[..0] == [];
      if p.Length == 0 {
        if w - r > 0 { return 0, None; }
        if err.Some? { SteadyWithout(); }
        e := ReadErr();
        return 0, e;
      }
      if r == w {
        if err.Some? {
          SteadyWithout();
          e := ReadErr();
          return 0, e;
        }
        if p.Length >= buf.Length {
          n, e := ReadDirect(p);
          return;
        }
        n := Refill();
        if n == 0 {
          if err.Some? { SteadyWithout(); }
          e := ReadErr();
          return 0, e;
        }
      }
      n := TakeBuffered(p);
      return n, None;
    }

    /** The end of Read: copy as much as the buffer holds and p has room for. */
    method TakeBuffered(p: array<byte>) returns (n: nat)
      requires Valid() && p != buf && p.Length > 0 && r < w
      modifies `r, `lastByte, `lastRuneSize, p
      ensures Valid() && n == (if p.Length < old(w - r) then p.Length else old(w - r)) && Took(old(Rest()), p[..n], Rest())
      ensures n > 0 && lastByte == p[n - 1] && lastRuneSize == -1 && r > 0
    {
      hide Source.Lively, Source.Data, Source.Obeys, Rest, Took;
      n := if p.Length < w - r then p.Length else w - r;
      CopyBetween(p, 0, buf, r, n);
      assert p[..n] == p[0..n];
      var data := Consume(n);
      lastByte, lastRuneSize := buf[r - 1], -1;
      assert p[..n] == data && p[n - 1] == data[n - 1] == buf[r - 1];
    }

    /** A steady source stays steady when its error has been handed out. */
    lemma SteadyWithout()
      requires Valid() && err.Some?
      ensures Steady() ==> err == Some(rd.final) && Source.Lively(rd.script, 0, PATIENCE, rd.final) && (r == w ==> Rest() == [])
    {
    }

    /** ReadRune: the first rune of the stream before the next error. It is the first one of the
        whole stream unless that error cuts it short; on a steady source it always is. */
    method ReadRune() returns (rune: int, size: nat, e: Option<Err>)
      requires Valid()
      modifies `r, `w, `err, `lastByte, `lastRuneSize, buf, rd
      ensures Valid() && (e.None? <==> size > 0)
      ensures size > 0 ==> r >= size && Took(old(Rest()), buf[r - size..r], Rest()) && lastRuneSize == size && lastByte == buf[r - 1]
      ensures e.Some? ==> Rest() == old(Rest()) && lastRuneSize == -1
      ensures if e.Some? then old(Front()) == [] else old(Front()) != [] && DecodeRune(old(Front())) == Decoded(rune, size)
      ensures e.None? ==>
        (DecodeRune(old(Rest())) == Decoded(rune, size)
         <==> FullRune(old(Front())) || DecodeRune(old(Rest())) == Decoded(RUNE_ERROR, 1))
      ensures old(Steady()) ==> Steady() && if e.Some? then Ended(e) else DecodeRune(old(Rest())) == Decoded(rune, size)
    {
      hide Source.Lively, Source.Data, Source.Obeys, Source.Reachable, Rest, Took, DecodeRune, FullRune, Front;
      ghost var front, all := Front(), Rest();
      FrontFirst();
      if Steady() { SteadyFront(); }
      FillRune();
      lastRuneSize := -1;
      if r == w {
        if Steady() && err.Some? { AllRead(); }
        NoRune();
        e := ReadErr();
        return 0, 0, e;
      }
      FirstRune();
      WholeRune(front, all);
      var d := DecodeRune(buf[r..w]);
      rune, size, e := d.r, d.w, None;
      var text := Consume(size);
      lastByte := buf[r - 1];
      lastRuneSize := size;
    }

    /** What comes before the next error comes first in the stream. */
    lemma FrontFirst()
      requires Valid()
      ensures Front() <= Rest()
    {
      Source.ReachableFirst(rd.script, 0);
      assert Buffer() + [] == Buffer();
      hide Source.Data, Source.Obeys, Source.Reachable;
    }

    /** A steady source meets no error before its end. */
    lemma SteadyFront()
      requires Valid() && Steady()
      ensures Front() == Rest()
    {
      Source.LivelyReaches(rd.script, 0, PATIENCE, rd.final);
      assert Buffer() + [] == Buffer();
      hide Source.Obeys, Source.Reachable, Source.Lively;
    }

    /** The loop of ReadRune: fill until a rune is complete or cannot be. */
    method FillRune()
      requires Valid()
      modifies `r, `w, `err, buf, rd
      ensures Valid() && Rest() == old(Rest()) && Front() == old(Front()) && (old(Steady()) ==> Steady())
      ensures r + UTF_MAX <= w || FullRune(buf[r..w]) || err.Some?
    {
      hide Source.Lively, Source.Data, Source.Obeys, Source.Reachable, Rest, FullRune, Steady, Front;
      while r + UTF_MAX > w && !FullRune(buf[r..w]) && err.None? && w - r < buf.Length
        invariant Valid() && Rest() == old(Rest()) && Front() == old(Front()) && (old(Steady()) ==> Steady())
        decreases buf.Length - (w - r), err.None?
      {
        Fill();
      }
    }

    /** An empty buffer holds no full rune, so the loop ended with an error pending. */
    lemma NoRune()
      requires Valid() && r == w
      ensures !FullRune(buf[r..w]) && (err.Some? ==> Front() == [])
    {
    }

    /** The first rune of the buffer is the first one before the next error. */
    lemma FirstRune()
      requires Valid() && r < w && (r + UTF_MAX <= w || FullRune(buf[r..w]) || err.Some?)
      ensures DecodeRune(Front()) == DecodeRune(buf[r..w]) && Front() != []
    {
      var d := buf[r..w];
      if r + UTF_MAX <= w || FullRune(d) {
        assert FullRune(d);
        hide Source.Reachable, Source.Obeys, FullRune, DecodeRune;
        DecodeStable(d, if err.Some? then [] else Source.Reachable(rd.script, 0));
      } else {
        assert d + [] == d;
      }
      hide Source.Reachable, Source.Obeys, FullRune, DecodeRune;
    }

    /** The first rune of a part of the stream is the first one of the whole exactly if it is
        complete, or the whole starts with a bad byte. */
    static lemma WholeRune(front: seq<byte>, all: seq<byte>)
      requires front != [] && front <= all
      ensures DecodeRune(all) == DecodeRune(front) <==> FullRune(front) || DecodeRune(all) == Decoded(RUNE_ERROR, 1)
    {
      assert all == front + all[|front|..] && front[0..] == front;
      if FullRune(front) { DecodeStable(front, all[|front|..]); } else { DecodePartial(front, 0); }
      hide FullRune, DecodeRune;
    }

    /** UnreadRune: on success the bytes of the last rune are the next ones again. */
    method UnreadRune() returns (e: Option<Err>)
      requires Valid()
      modifies `r, `lastByte, `lastRuneSize
      ensures Valid() && (e.None? <==> 0 <= old(lastRuneSize) <= old(r))
      ensures e.Some? ==> e == Some(Source.ErrInvalidUnreadRune) && Rest() == old(Rest())
      ensures e.None? ==> r == old(r) - old(lastRuneSize) && Took(Rest(), buf[r..old(r)], old(Rest()))
      ensures old(Steady()) ==> Steady()
    {
      hide Source.Lively, Source.Data, Source.Obeys;
      if lastRuneSize < 0 || r < lastRuneSize { return Some(Source.ErrInvalidUnreadRune); }
      r := r - lastRuneSize;
      assert buf[r..w] == buf[r..old(r)] + old(Buffer());
      lastByte, lastRuneSize := -1, -1;
      return None;
    }

    /** The line ends in delim and holds no other one. */
    static predicate EndsIn(line: seq<byte>, delim: byte) {
      line != [] && line[|line| - 1] == delim && delim !in line[..|line| - 1]
    }

    /** What ReadSlice may report instead of a delimiter. */
    ghost predicate NoDelim(line: seq<byte>, e: Option<Err>)
      requires Valid()
      reads `r, `w, buf, rd
    {
      Ended(e) || (e == Some(Source.ErrBufferFull) && |line| == buf.Length && r == buf.Length)
    }

    /** The error was pending, or reads have been made to meet it, or it is the final one. */
    ghost predicate Pended(e: Option<Err>, before: Option<Err>, work: nat)
      reads rd
    {
      (before.Some? && e == before) || e == Some(rd.final) || Source.Work(rd.script) < work
    }

    /** The search of ReadSlice: the buffered bytes that make up the line, and why it ends there. */
    method Search(delim: byte) returns (line: seq<byte>, e: Option<Err>)
      requires Valid()
      modifies `r, `w, `err, buf, rd
      ensures Valid() && Rest() == old(Rest()) && |line| <= w - r && line == buf[r..r + |line|]
      ensures if e.None? then EndsIn(line, delim) else |line| == w - r && delim !in line
      ensures e.Some? ==> (e == Some(Source.ErrBufferFull) && |line| == buf.Length)
                          || (err.None? && (old(Steady()) ==> e == Some(rd.final) && rd.script == []) && Pended(e, old(err), old(Source.Work(rd.script))))
      ensures Source.Work(rd.script) <= old(Source.Work(rd.script))
      ensures old(Steady()) ==> Steady()
    {
      hide Source.Lively, Source.Data, Source.Obeys, Source.Reachable, Rest, Find, Clear, Steady, EndsIn, Front;
      hide Buffer, Pended, Worked;
      var s: nat := 0;
      ClearNone(Buffer(), delim);
      StillPending();
      while true
        invariant Source.Work(rd.script) <= old(Source.Work(rd.script))
        invariant err.Some? ==> Pended(err, old(err), old(Source.Work(rd.script)))
        invariant Valid() && Rest() == old(Rest()) && (old(Steady()) ==> Steady()) && Clear(Buffer(), s, delim) && s <= w - r
        decreases buf.Length - (w - r), err.None?
      {
        ghost var t := Buffer();
        var found;
        line, found := FindDelim(s, delim);
        if found { return line, None; }
        if err.Some? {
          PendingIsFinal();
          e := ReadErr();
          return line, e;
        }
        if w - r >= buf.Length { return line, Some(Source.ErrBufferFull); }
        s := w - r;
        ghost var work := Source.Work(rd.script);
        Fill();
        FillPends(old(err), work, old(Source.Work(rd.script)));
        ClearMore(t, Buffer(), delim);
      }
    }

    lemma StillPending()
      ensures err.Some? ==> Pended(err, err, Source.Work(rd.script))
    {
    }

    lemma FillPends(before: Option<Err>, work: nat, first: nat)
      requires Worked(work) && work <= first
      ensures err.Some? ==> Pended(err, before, first)
      ensures Source.Work(rd.script) <= first
    {
    }

    /** bytes.IndexByte(b.buf[b.r+s:b.w], delim): the line up to it, or all that is buffered. */
    method FindDelim(s: nat, delim: byte) returns (line: seq<byte>, found: bool)
      requires Valid() && s <= w - r && Clear(Buffer(), s, delim)
      ensures |line| <= w - r && line == buf[r..r + |line|]
      ensures if found then EndsIn(line, delim) else line == Buffer() && |line| == w - r && delim !in line && Clear(line, |line|, delim)
    {
      hide Find, Clear, EndsIn;
      DelimAt(buf, r, s, w, delim);
      var i := Find(buf[r + s..w], delim);
      if i < w - (r + s) { return buf[r..r + (s + i + 1)], true; }
      return buf[r..w], false;
    }

    static lemma DelimAt(b: array<byte>, r: nat, s: nat, w: nat, delim: byte)
      requires r + s <= w <= b.Length && Clear(b[r..w], s, delim)
      ensures var i := Find(b[r + s..w], delim);
        if i < w - (r + s) then EndsIn(b[r..r + (s + i + 1)], delim) else delim !in b[r..w] && Clear(b[r..w], w - r, delim)
    {
      hide Find, Clear, EndsIn;
      CutSlice(b, r, r + s, w);
      FoundAt(b[r..w], s, delim);
      var i := Find(b[r + s..w], delim);
      if i < w - (r + s) { CutSlice(b, r, r + (s + i + 1), w); }
    }

    lemma PendingIsFinal()
      requires err.Some?
      ensures Steady() ==> err == Some(rd.final) && rd.script == []
    {
      hide Source.Lively;
    }

    /** None of the first n bytes is delim. */
    static ghost predicate Clear(t: seq<byte>, n: nat, delim: byte) {
      n <= |t| && forall j :: 0 <= j < n ==> t[j] != delim
    }

    static lemma ClearNone(t: seq<byte>, delim: byte)
      ensures Clear(t, 0, delim)
    {
    }

    static lemma ClearMore(t: seq<byte>, t': seq<byte>, delim: byte)
      requires Clear(t, |t|, delim) && t <= t'
      ensures Clear(t', |t|, delim)
    {
    }

    /** The search from s on finds the end of the line, or that there is none. */
    static lemma FoundAt(t: seq<byte>, s: nat, delim: byte)
      requires Clear(t, s, delim)
      ensures var i := Find(t[s..], delim);
        if i < |t| - s then EndsIn(t[..s + i + 1], delim) else Clear(t, |t|, delim) && delim !in t
    {
      var i := Find(t[s..], delim);
      assert forall j :: s <= j < s + i ==> t[j] == t[s..][j - s];
      hide Find;
      if i < |t| - s {
        var line := t[..s + i + 1];
        assert line[..|line| - 1] == t[..s + i] && t[s + i] == t[s..][i];
      }
    }

    /** ReadSlice: up to the first delim, or to the end of the buffer or of the stream. */
    method ReadSlice(delim: byte) returns (line: seq<byte>, e: Option<Err>)
      requires Valid()
      modifies `r, `w, `err, `lastByte, `lastRuneSize, buf, rd
      ensures Valid() && Took(old(Rest()), line, Rest())
      ensures if e.None? then EndsIn(line, delim) else delim !in line
      ensures line != [] ==> lastByte == line[|line| - 1] && r >= |line| && buf[r - |line|..r] == line
      ensures e.Some? ==> (e == Some(Source.ErrBufferFull) && line != []) || (err.None? && Pended(e, old(err), old(Source.Work(rd.script))))
      ensures Source.Work(rd.script) <= old(Source.Work(rd.script))
      ensures old(Steady()) ==> Steady() && (e.Some? ==> NoDelim(line, e))
    {
      hide Source.Lively, Source.Data, Source.Obeys, Source.Work, Rest, Took, EndsIn, Steady, Buffer, Pended, Find, Clear;
      line, e := Search(delim);
      TakeLine(line);
      if r == w && rd.script == [] { Nothing(); }
    }

    /** The end of ReadSlice: the line is consumed, and its last byte noted. */
    method TakeLine(line: seq<byte>)
      requires Valid() && |line| <= w - r && line == buf[r..r + |line|]
      modifies `r, `lastByte, `lastRuneSize
      ensures Valid() && r == old(r) + |line| && buf[r - |line|..r] == line && Took(old(Rest()), line, Rest())
      ensures line != [] ==> lastByte == line[|line| - 1]
    {
      hide Source.Data, Source.Obeys, Rest, Took, Buffer;
      var data := Consume(|line|);
      if |line| > 0 { lastByte, lastRuneSize := line[|line| - 1], -1; }
    }

    lemma Nothing()
      requires Valid() && r == w && rd.script == []
      ensures Rest() == []
    {
    }

    /** ReadLine. gone is what it consumed, line endings included. */
    method ReadLine() returns (line: seq<byte>, isPrefix: bool, e: Option<Err>, ghost gone: seq<byte>)
      requires Valid()
      modifies `r, `w, `err, `lastByte, `lastRuneSize, buf, rd
      ensures Valid() && Took(old(Rest()), gone, Rest())
      ensures old(Steady()) && rd.final != Source.ErrBufferFull ==>
        && Steady()
        && if e.Some? then Ended(e) && gone == line == [] && !isPrefix
           else if isPrefix then Fragment(line, gone, Rest()) && buf.Length - 1 <= |line| <= buf.Length
           else LineRead(line, gone, Rest())
    {
      hide Source.Lively, Source.Data, Source.Obeys, Source.Work, Rest, Took, Fragment, LineRead, Steady, Buffer, Pended;
      line, e := ReadSlice(NL);
      gone := line;
      if e == Some(Source.ErrBufferFull) {
        if line != [] { line, gone := KeepFragment(line, old(Rest())); }
        return line, true, None, gone;
      }
      if line == [] { return line, false, e, gone; }
      line := EndLine(line);
      EndRead(gone, e, line, Rest());
      return line, false, None, gone;
    }

    /** The case of a full buffer: a '
' at the end of it may belong to a line end. */
    method KeepFragment(full: seq<byte>, ghost all: seq<byte>) returns (line: seq<byte>, ghost gone: seq<byte>)
      requires Valid() && full != [] && r >= |full| && buf[r - |full|..r] == full && Took(all, full, Rest()) && NL !in full
      modifies `r
      ensures Valid() && |full| - 1 <= |line| <= |full| && Took(all, gone, Rest())
      ensures |full| > 1 ==> Fragment(line, gone, Rest())
      ensures Steady() == old(Steady())
    {
      hide Source.Lively, Source.Data, Source.Obeys, Rest, Took, Fragment, Steady, Buffer;
      line, gone := full, full;
      if full[|full| - 1] == CR {
        // b.r == 0 would be a panic here
        line, gone := PutBack(full, all);
      } else {
        PlainFragment(full, Rest());
      }
    }

    /** The end of ReadLine: full is a whole line, or the last one without its newline. */
    method EndLine(full: seq<byte>) returns (line: seq<byte>)
      requires full != []
      ensures line == if full[|full| - 1] == NL then Chomp(full) else full
    {
      hide Chomp;
      line := full;
      if line[|line| - 1] == NL { line := DropEnd(line); }
    }

    static lemma EndRead(full: seq<byte>, e: Option<Err>, line: seq<byte>, rest: seq<byte>)
      requires full != [] && (if e.None? then EndsIn(full, NL) else NL !in full)
      requires line == if full[|full| - 1] == NL then Chomp(full) else full
      ensures e.None? || rest == [] ==> LineRead(line, full, rest)
    {
      hide Chomp;
    }

    /** Drop "\n" or "\r\n". */
    method DropEnd(full: seq<byte>) returns (line: seq<byte>)
      requires full != []
      ensures line == Chomp(full)
    {
      var drop := 1;
      if |full| > 1 && full[|full| - 2] == CR { drop := 2; }
      line := full[..|full| - drop];
      assert full[..|full| - 1][..|full| - drop] == line;
    }

    /** Put the '\r' back on buf and drop it from line. */
    method PutBack(full: seq<byte>, ghost all: seq<byte>) returns (line: seq<byte>, ghost gone: seq<byte>)
      requires Valid() && full != [] && full[|full| - 1] == CR && r >= |full| && buf[r - |full|..r] == full && Took(all, full, Rest())
      modifies `r
      ensures Valid() && line == gone == full[..|full| - 1] && Took(all, gone, Rest())
      ensures NL !in full && |full| > 1 ==> Fragment(line, gone, Rest())
      ensures Steady() == old(Steady())
    {
      hide Source.Lively, Source.Data, Source.Obeys;
      r := r - 1;
      line := full[..|full| - 1];
      gone := line;
      assert buf[r] == CR by { assert buf[r] == buf[r + 1 - |full|..r + 1][|full| - 1]; }
      assert Buffer() == [CR] + old(Buffer());
      assert full == line + [CR];
      assert Rest() == [CR] + old(Rest());
      hide Rest;
    }
  }

  /** The fragment is a part of a line that goes on; a '\r' at its end does not belong to a line end. */
  ghost predicate Fragment(line: seq<byte>, gone: seq<byte>, rest: seq<byte>) {
    gone == line != [] && NL !in line && (line[|line| - 1] == CR ==> rest != [] && rest[0] == CR)
  }

  lemma PlainFragment(line: seq<byte>, rest: seq<byte>)
    requires line != [] && line[|line| - 1] != CR && NL !in line
    ensures Fragment(line, line, rest)
  {
  }

  /** A line without its "\n" or "\r\n". */
  function Chomp(s: seq<byte>): seq<byte>
    requires s != []
  {
    DropCR(s[..|s| - 1])
  }

  /** The rest of a line, and how its end was found. */
  ghost predicate LineRead(line: seq<byte>, gone: seq<byte>, rest: seq<byte>) {
    gone != [] && if gone[|gone| - 1] == NL then BufReader.EndsIn(gone, NL) && line == Chomp(gone)
    else NL !in gone && line == gone && rest == []
  }

  // ---- whole lines ----

  /** The first line of s without its end; an unterminated one as it is. */
  function TextLine(s: seq<byte>): seq<byte> {
    var i := Find(s, NL);
    if i < |s| then DropCR(s[..i]) else s
  }

  /** The lines of a text, each without one trailing "\r\n" or "\n". */
  function TextLines(s: seq<byte>): seq<seq<byte>>
    decreases |s|
  {
    if s == [] then [] else [TextLine(s)] + TextLines(AfterLine(s))
  }

  lemma WholeLine(all: seq<byte>, line: seq<byte>, gone: seq<byte>, rest: seq<byte>)
    requires Took(all, gone, rest) && LineRead(line, gone, rest)
    ensures TextLine(all) == line && AfterLine(all) == rest
  {
    if gone[|gone| - 1] == NL {
      var i := |gone| - 1;
      assert all[i] == NL && forall j :: 0 <= j < i ==> all[j] == gone[..i][j];
      FindAt(all, NL, i);
      assert all[..i] == gone[..i];
    } else {
      assert all == gone;
      FindAt(all, NL, |all|);
    }
    hide Find, DropCR;
  }

  lemma PartLine(all: seq<byte>, line: seq<byte>, rest: seq<byte>)
    requires Took(all, line, rest) && Fragment(line, line, rest)
    ensures TextLine(all) == line + TextLine(rest) && AfterLine(all) == AfterLine(rest)
  {
    hide Find, DropCR;
    var k := Find(rest, NL);
    FindAcross(line, rest, NL);
    if k < |rest| {
      assert all[..|line| + k] == line + rest[..k];
      assert all[|line| + k + 1..] == rest[k + 1..];
      DropAcross(line, rest[..k]);
    }
  }

  lemma FindAcross(s: seq<byte>, t: seq<byte>, c: byte)
    requires c !in s
    ensures Find(s + t, c) == |s| + Find(t, c) && (Find(t, c) < |t| ==> t[Find(t, c)] == c)
  {
    hide Find;
    var all, n, k := s + t, |s|, Find(t, c);
    forall j | 0 <= j < n + k ensures all[j] != c {
      if j < n { assert all[j] == s[j]; } else { assert all[j] == t[j - n]; }
    }
    assert k < |t| ==> all[n + k] == t[k];
    FindAt(all, c, n + k);
  }

  lemma DropAcross(s: seq<byte>, t: seq<byte>)
    requires s != [] && (t != [] || s[|s| - 1] != CR)
    ensures DropCR(s + t) == s + DropCR(t)
  {
    if t != [] {
      assert (s + t)[..|s + t| - 1] == s + t[..|t| - 1];
    } else {
      assert s + t == s;
    }
  }

  /** Calling ReadLine until the end, the fragments of a line joined, reads the lines of the
      stream, whatever the buffer size and however the source cuts its data. */
  method ReadLines(b: BufReader) returns (lines: seq<seq<byte>>)
    requires b.Valid() && b.Steady() && b.rd.final != Source.ErrBufferFull
    modifies b, b.buf, b.rd
    ensures b.Valid() && lines == TextLines(old(b.Rest())) && b.Rest() == []
  {
    hide Source.Lively, Source.Data, Source.Obeys, BufReader.Rest, BufReader.Steady, Took;
    hide Ahead, TextLines, TextLine, AfterLine, LineRead, Fragment;
    lines := [];
    var cur, open := [], false;
    ghost var all := b.Rest();
    AtStart(all);
    while true
      invariant b.Valid() && b.Steady()
      invariant TextLines(all) == lines + Ahead(cur, open, b.Rest()) && (!open ==> cur == [])
      decreases |b.Rest()|
    {
      ghost var rest := b.Rest();
      var line, isPrefix, e, gone := b.ReadLine();
      if e.Some? { TookNothing(rest, gone, b.Rest()); }
      if e.Some? {
        NoLines();
        AtEnd(lines, cur, open, rest);
        if open { lines := lines + [cur]; }
        return;
      }
      if isPrefix {
        MoreAhead(cur, open, rest, line, gone, b.Rest());
      } else {
        LineAhead(cur, open, rest, line, gone, b.Rest());
        assert lines + ([cur + line] + Ahead([], false, b.Rest())) == (lines + [cur + line]) + Ahead([], false, b.Rest());
      }
      cur := cur + line;
      open := isPrefix;
      if !isPrefix { lines, cur := lines + [cur], []; }
    }
  }

  /** The lines still to come: the one that cur began, if it is open, and those of the rest. */
  function Ahead(cur: seq<byte>, open: bool, rest: seq<byte>): seq<seq<byte>> {
    if open then [cur + TextLine(rest)] + TextLines(AfterLine(rest)) else TextLines(rest)
  }

  lemma NoLines()
    ensures TextLine([]) == [] && AfterLine([]) == [] && TextLines([]) == []
  {
  }

  lemma AtStart(all: seq<byte>)
    ensures [] + Ahead([], false, all) == TextLines(all)
  {
  }

  lemma AtEnd(lines: seq<seq<byte>>, cur: seq<byte>, open: bool, rest: seq<byte>)
    requires rest == []
    ensures lines + Ahead(cur, open, rest) == if open then lines + [cur] else lines
  {
    NoLines();
    assert cur + [] == cur;
  }

  lemma MoreAhead(cur: seq<byte>, open: bool, rest: seq<byte>, line: seq<byte>, gone: seq<byte>, rest': seq<byte>)
    requires Took(rest, gone, rest') && Fragment(line, gone, rest') && (!open ==> cur == [])
    ensures Ahead(cur, open, rest) == Ahead(cur + line, true, rest') && |rest'| < |rest|
  {
    PartLine(rest, line, rest');
    assert cur + (line + TextLine(rest')) == (cur + line) + TextLine(rest');
    assert [] + TextLine(rest) == TextLine(rest);
    hide TextLine, AfterLine;
  }

  lemma LineAhead(cur: seq<byte>, open: bool, rest: seq<byte>, line: seq<byte>, gone: seq<byte>, rest': seq<byte>)
    requires Took(rest, gone, rest') && LineRead(line, gone, rest') && (!open ==> cur == [])
    ensures Ahead(cur, open, rest) == [cur + line] + Ahead([], false, rest') && |rest'| < |rest|
  {
    WholeLine(rest, line, gone, rest');
    assert [] + line == line;
    hide TextLine, AfterLine;
  }

  // ---- taking back ----

  /** UnreadByte right after a ReadByte gives the byte back. */
  method ReadUnreadByte(b: BufReader) returns (c: byte, e: Option<Err>)
    requires b.Valid()
    modifies b, b.buf, b.rd
    ensures b.Valid() && b.Rest() == old(b.Rest()) && (e.None? ==> b.Rest() != [] && c == b.Rest()[0])
  {
    hide Source.Data, Source.Obeys, BufReader.Rest;
    ghost var all := b.Rest();
    c, e := b.ReadByte();
    if e.None? {
      ghost var rest := b.Rest();
      var u := b.UnreadByte();
      assert u.None? && b.Rest() == [c] + rest == all;
    }
  }

  /** UnreadByte right after a Read gives the last byte back. */
  method ReadUnread(b: BufReader, p: array<byte>) returns (n: nat, e: Option<Err>)
    requires b.Valid() && p != b.buf
    modifies b, b.buf, b.rd, p
    ensures b.Valid() && n <= p.Length
    ensures Took(old(b.Rest()), if n > 0 then p[..n - 1] else [], b.Rest())
  {
    hide Source.Data, Source.Obeys, BufReader.Rest;
    ghost var all := b.Rest();
    n, e := b.Read(p);
    if n > 0 {
      ghost var rest := b.Rest();
      var u := b.UnreadByte();
      assert u.None? && b.Rest() == [p[n - 1]] + rest;
      assert p[..n] == p[..n - 1] + [p[n - 1]];
      assert p[..n - 1] + ([p[n - 1]] + rest) == p[..n] + rest;
    } else {
      assert p[..n] == [];
    }
  }

  /** UnreadRune right after a ReadRune gives the whole rune back. */
  method ReadUnreadRune(b: BufReader) returns (rune: int, size: nat, e: Option<Err>)
    requires b.Valid()
    modifies b, b.buf, b.rd
    ensures b.Valid() && b.Rest() == old(b.Rest())
    ensures old(b.Steady()) && e.None? ==> DecodeRune(b.Rest()) == Decoded(rune, size)
  {
    hide Source.Data, Source.Obeys, BufReader.Rest, DecodeRune, BufReader.Steady;
    ghost var all := b.Rest();
    rune, size, e := b.ReadRune();
    if e.None? {
      ghost var rest, end, text := b.Rest(), b.r, b.buf[b.r - size..b.r];
      var u := b.UnreadRune();
      assert u.None? && b.Rest() == text + rest == all;
    }
  }

  /** An error in the middle of a rune: the two reads of the source give the three bytes of U+4F60,
      with an error in between. */
  const CUT: seq<Source.Answer> :=
    [Source.Answer([0xE4], Some(Source.Other(1))), Source.Answer([0xBD, 0xA0], None)]

  /** ReadRune then returns U+FFFD, although the stream starts with U+4F60. */
  method ReadCutRune() returns (rune: int, size: nat, ghost all: seq<byte>)
    ensures all == Source.Data(CUT) && DecodeRune(all) == Decoded(0x4F60, 3)
    ensures rune == RUNE_ERROR && size == 1
  {
    CutStream();
    hide Source.Data, Source.Obeys, Source.Reachable, Source.Lively, BufReader.Rest, DecodeRune, FullRune;
    all := Source.Data(CUT);
    var rd := new Source.Reader(CUT, Source.EOF);
    var b := new BufReader(rd, MIN_READ_BUFFER_SIZE);
    assert b.Buffer() == [] && b.Front() == [] + Source.Reachable(CUT, 0) == [0xE4];
    var e;
    rune, size, e := b.ReadRune();
  }

  lemma CutStream()
    ensures Source.Obeys(CUT) && Source.Reachable(CUT, 0) == [0xE4] && Source.Data(CUT) == [0xE4, 0xBD, 0xA0]
    ensures DecodeRune([0xE4]) == Decoded(RUNE_ERROR, 1) && DecodeRune([0xE4, 0xBD, 0xA0]) == Decoded(0x4F60, 3)
  {
    assert CUT[1..] == [Source.Answer([0xBD, 0xA0], None)];
    assert Source.Data(CUT[1..]) == [0xBD, 0xA0] + Source.Data([]);
  }

  /** UnreadByte right after a ReadSlice gives the last byte of the line back. */
  method ReadUnreadSlice(b: BufReader, delim: byte) returns (line: seq<byte>, e: Option<Err>)
    requires b.Valid()
    modifies b, b.buf, b.rd
    ensures b.Valid() && Took(old(b.Rest()), if line != [] then line[..|line| - 1] else [], b.Rest())
  {
    hide Source.Data, Source.Obeys, BufReader.Rest, BufReader.Steady;
    ghost var all := b.Rest();
    line, e := b.ReadSlice(delim);
    if line != [] {
      ghost var rest := b.Rest();
      var u := b.UnreadByte();
      var init, last := line[..|line| - 1], line[|line| - 1];
      assert u.None? && b.Rest() == [last] + rest;
      assert line == init + [last];
      assert init + ([last] + rest) == line + rest;
    }
  }

  /** ReadBytes (by way of collectFragments): up to and including the first delim, or to the next
      error. A source that returns ErrBufferFull for ever would keep the loop going. */
  method ReadBytes(b: BufReader, delim: byte) returns (data: seq<byte>, e: Option<Err>)
    requires b.Valid() && b.rd.final != Source.ErrBufferFull
    modifies b, b.buf, b.rd
    ensures b.Valid() && Took(old(b.Rest()), data, b.Rest())
    ensures if e.None? then BufReader.EndsIn(data, delim) else delim !in data
    ensures old(b.Steady()) ==> b.Steady() && (e.Some? ==> b.Ended(e))
  {
    hide Source.Lively, Source.Data, Source.Obeys, BufReader.Rest, BufReader.Steady, Took;
    data := [];
    TookNone(b.Rest());
    while true
      invariant b.Valid() && (old(b.Steady()) ==> b.Steady()) && Took(old(b.Rest()), data, b.Rest()) && delim !in data
      decreases |b.Rest()|, Source.Work(b.rd.script), b.err.Some?
    {
      ghost var mid := b.Rest();
      var frag;
      frag, e := b.ReadSlice(delim);
      TookTwice(old(b.Rest()), data, mid, frag, b.Rest());
      ghost var before := data;
      data := data + frag;
      if e.None? {
        assert data[..|data| - 1] == before + frag[..|frag| - 1];
        return;
      }
      if e != Some(Source.ErrBufferFull) { return; }
      if frag != [] { TookSome(mid, frag, b.Rest()); } else { TookNothing(mid, frag, b.Rest()); }
    }
  }

  lemma TookSome(all: seq<byte>, data: seq<byte>, rest: seq<byte>)
    requires Took(all, data, rest) && data != []
    ensures |rest| < |all|
  {
  }
}
