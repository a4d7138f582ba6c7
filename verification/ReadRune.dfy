/** readRune of go/src/fmt/scan.go: decoding UTF-8 from a reader one byte at a time. */
module ReadRune {
  import opened Arrays
  import opened Wrappers
  import opened Utf8
  import opened BufReader
  import Source

  class RuneReader {
    const reader: Source.Reader
    const buf: array<byte>
    var pending: nat
    const pendBuf: array<byte>
    /** The next rune when not negative; otherwise the complement of the previous one. */
    var peekRune: int

    /** Bytes are pending only after bad UTF-8, and then all but the last continue a rune. */
    ghost predicate Valid()
      reads `pending, pendBuf, reader
    {
      buf.Length == pendBuf.Length == UTF_MAX && buf != pendBuf && pending < UTF_MAX
      && (forall i :: 0 <= i < pending - 1 ==> IsContinuation(pendBuf[i]))
      && reader.final == Source.EOF && Source.Ending(reader.script, Source.EOF)
    }

    /** The bytes still to be decoded. */
    ghost function Stream(): seq<byte>
      requires pending <= pendBuf.Length
      reads `pending, pendBuf, reader
    {
      pendBuf[..pending] + Source.Data(reader.script)
    }

    /** The runes still to be returned. */
    ghost function Ahead(): seq<int>
      requires pending <= pendBuf.Length
      reads this, pendBuf, reader
    {
      if peekRune >= 0 then [peekRune] + Runes(Stream()) else Runes(Stream())
    }

    constructor (r: Source.Reader)
      requires r.final == Source.EOF && Source.Ending(r.script, Source.EOF)
      ensures Valid() && reader == r && fresh(buf) && fresh(pendBuf) && peekRune == -1 && pending == 0
      ensures Stream() == Source.Data(r.script) && Ahead() == Runes(Source.Data(r.script))
    {
      reader, pending, peekRune := r, 0, -1;
      buf, pendBuf := new byte[UTF_MAX](_ => 0), new byte[UTF_MAX](_ => 0);
      new;
      assert [] + Source.Data(r.script) == Source.Data(r.script);
    }

    /** io.ReadFull(r.reader, r.pendBuf[:1]). */
    method ReadFull() returns (n: nat, err: Option<Source.Err>)
      requires Valid() && pending == 0
      modifies pendBuf, reader
      ensures Valid() && n <= 1 && (n == 1 <==> err.None?)
      ensures if n == 1 then Took(old(Stream()), [pendBuf[0]], Stream()) else err == Some(Source.EOF) && old(Stream()) == Stream() == []
    {
      hide Source.Ending, Source.Data, Source.Answered, Source.Work;
      n, err := 0, None;
      while n < 1 && err.None?
        invariant Valid() && n <= 1
        invariant if n == 1 then Took(old(Stream()), [pendBuf[0]], Stream())
          else if err.Some? then err == Some(Source.EOF) && old(Stream()) == Stream() == []
          else Stream() == old(Stream())
        decreases Source.Work(reader.script), err.None?
      {
        ghost var script := reader.script;
        ghost var reply := Source.Answered(script, 1, Source.EOF);
        Source.EndingObeys(script, Source.EOF);
        Source.AnsweredDelivers(script, 1, Source.EOF);
        Source.AnsweredEnding(script, 1, Source.EOF);
        Source.AnsweredWorks(script, 1, Source.EOF);
        if reply.err.Some? { NoEnding(); }
        var m, e := reader.Read(pendBuf, 0, 1, 0);
        n, err := m, e;
        assert pendBuf[..0] == [] && pendBuf[0..n] == [] + reply.data;
        if n == 1 { assert reply.data == [pendBuf[0]]; }
      }
      if n == 1 { err := None; }
    }

    lemma NoEnding()
      ensures Source.Ending([], Source.EOF)
    {
    }

    /** readByte: the next byte, pending ones first. */
    method ReadByte() returns (b: byte, err: Option<Source.Err>)
      requires Valid()
      modifies `pending, pendBuf, reader
      ensures Valid() && pending == if old(pending) > 0 then old(pending) - 1 else 0
      ensures if err.None? then Took(old(Stream()), [b], Stream()) else err == Some(Source.EOF) && old(Stream()) == Stream() == []
      ensures old(pending) > 0 ==> err.None? && b == old(pendBuf[0])
    {
      hide Source.Ending, Source.Data;
      if pending > 0 {
        b, err := pendBuf[0], None;
        ghost var p, d := pendBuf[..pending], Source.Data(reader.script);
        CopyWithin(pendBuf, 0, 1, pendBuf.Length - 1);
        pending := pending - 1;
        assert pendBuf[..pending] == pendBuf[0..pendBuf.Length - 1][..pending] == p[1..];
        assert p == [b] + p[1..] && forall i :: 0 <= i < pending ==> pendBuf[i] == p[1..][i];
        assert ([b] + p[1..]) + d == [b] + (p[1..] + d);
        return;
      }
      var n;
      n, err := ReadFull();
      if n != 1 { return 0, err; }
      return pendBuf[0], err;
    }

    /** ReadRune: the next rune, U+FFFD for a byte that starts none. */
    method ReadRune() returns (rr: int, size: nat, err: Option<Source.Err>)
      requires Valid()
      modifies this, buf, pendBuf, reader
      ensures Valid()
      ensures if err.None? then old(Ahead()) == [rr] + Ahead() && peekRune == -1 - rr && rr >= 0
              else err == Some(Source.EOF) && old(Ahead()) == Ahead() == []
      ensures err.None? ==> size == if old(peekRune) >= 0 then |EncodeRune(rr)| else DecodeRune(old(Stream())).w
    {
      hide Source.Ending, Source.Data, Runes, EncodeRune, Stream, DecodeRune, FullRune;
      if peekRune >= 0 {
        rr, err := peekRune, None;
        peekRune := -1 - peekRune;
        size := |EncodeRune(rr)|;
        return;
      }
      ghost var all := Stream();
      var c;
      c, err := ReadByte();
      if err.Some? {
        NoRunes();
        return 0, 0, err;
      }
      buf[0] := c;
      if buf[0] < RUNE_SELF {
        rr, size := buf[0], 1;
        peekRune := -1 - rr;
        AsciiRune(all, c, Stream());
        return;
      }
      var n;
      assert buf[..1] == [c];
      LeadByte(c);
      n, err := FillRune(all);
      var d := DecodeRune(buf[..n]);
      rr, size := d.r, d.w;
      RuneTaken(all, buf[..n], Stream());
      if size < n { PutBack(size, n, all); }
      NextRune(all, buf[..size], Stream());
      peekRune := -1 - rr;
    }

    /** The loop of ReadRune: one more byte until there is a full rune or the end. */
    method FillRune(ghost all: seq<byte>) returns (n: nat, err: Option<Source.Err>)
      requires Valid() && Took(all, buf[..1], Stream()) && (pending > 0 ==> FullRune(buf[..1]))
      modifies `pending, pendBuf, buf, reader
      ensures Valid() && 1 <= n <= UTF_MAX && err.None?
      ensures Took(all, buf[..n], Stream()) && (FullRune(buf[..n]) || Stream() == [])
      ensures n > 1 ==> pending == 0 && forall i :: 1 <= i < n - 1 ==> IsContinuation(buf[i])
    {
      hide Source.Ending, Source.Data, Stream, FullRune, Took, DecodeRune;
      n, err := 1, None;
      while !FullRune(buf[..n])
        invariant Valid() && 1 <= n <= UTF_MAX && err.None? && Took(all, buf[..n], Stream())
        invariant pending > 0 ==> n == 1 && FullRune(buf[..1])
        invariant forall i :: 1 <= i < n - 1 ==> IsContinuation(buf[i])
        decreases UTF_MAX - n
      {
        ghost var d := buf[..n];
        ghost var mid := Stream();
        assert n < UTF_MAX by { DecodePartial(d, 0); }
        if n > 1 { DecodePartial(d, n - 1); }
        var c;
        c, err := ReadByte();
        if err.Some? {
          if err == Some(Source.EOF) {
            err := None;
            break;
          }
          return;
        }
        buf[n] := c;
        assert buf[..n + 1] == d + [c];
        TookTwice(all, d, mid, [c], Stream());
        n := n + 1;
      }
    }

    /** Save the bytes after an error for the next read. */
    method PutBack(size: nat, n: nat, ghost all: seq<byte>)
      requires Valid() && 1 <= size < n <= UTF_MAX && pending == 0 && Took(all, buf[..n], Stream())
      requires forall i :: 1 <= i < n - 1 ==> IsContinuation(buf[i])
      modifies `pending, pendBuf
      ensures Valid() && Took(all, buf[..size], Stream())
    {
      hide Source.Ending, Source.Data;
      ghost var d := Source.Data(reader.script);
      assert Stream() == d by { assert pendBuf[..0] == []; }
      CopyBetween(pendBuf, pending, buf, size, n - size);
      pending := pending + (n - size);
      assert pendBuf[..pending] == pendBuf[0..pending] == buf[size..n];
      assert forall i :: 0 <= i < pending ==> pendBuf[i] == buf[size..n][i] == buf[size + i];
      assert buf[..n] == buf[..size] + buf[size..n];
      assert (buf[..size] + buf[size..n]) + d == buf[..size] + (buf[size..n] + d);
    }

    /** UnreadRune: the rune read last is the next one again. */
    method UnreadRune() returns (ok: bool)
      requires Valid()
      modifies `peekRune
      ensures Valid() && ok == (old(peekRune) < 0)
      ensures Ahead() == if ok then [-1 - old(peekRune)] + old(Ahead()) else old(Ahead())
    {
      hide Source.Ending, Source.Data, Stream, Runes;
      if peekRune >= 0 { return false; }
      peekRune := -1 - peekRune;
      return true;
    }
  }

  lemma NoRunes()
    ensures Runes([]) == []
  {
  }

  lemma LeadByte(c: byte)
    ensures IsContinuation(c) ==> FullRune([c])
  {
  }

  lemma AsciiRune(all: seq<byte>, c: byte, rest: seq<byte>)
    requires Took(all, [c], rest) && c < RUNE_SELF
    ensures Runes(all) == [c as int] + Runes(rest) && DecodeRune(all).w == 1
  {
    assert all[0] == c && all[1..] == rest;
    assert DecodeRune(all) == Decoded(c, 1);
    hide DecodeRune;
  }

  /** Enough has been read to know the first rune. */
  lemma RuneTaken(all: seq<byte>, d: seq<byte>, rest: seq<byte>)
    requires Took(all, d, rest) && d != [] && (FullRune(d) || rest == [])
    ensures DecodeRune(all) == DecodeRune(d) && all != []
  {
    hide FullRune, DecodeRune;
    if FullRune(d) { DecodeStable(d, rest); } else { assert d + [] == d; }
  }

  lemma NextRune(all: seq<byte>, d: seq<byte>, rest: seq<byte>)
    requires Took(all, d, rest) && all != [] && |d| == DecodeRune(all).w
    ensures Runes(all) == [DecodeRune(all).r] + Runes(rest)
  {
    hide DecodeRune;
    assert all[|d|..] == rest;
  }

  /** Reading to the end gives the runes of the whole input, one byte at a time or not. */
  method ReadRunes(script: seq<Source.Answer>) returns (runes: seq<int>)
    requires Source.Ending(script, Source.EOF)
    ensures runes == Runes(Source.Data(script))
  {
    hide Source.Ending, Source.Data, Runes, RuneReader.Stream, RuneReader.Ahead;
    var reader := new Source.Reader(script, Source.EOF);
    var r := new RuneReader(reader);
    runes := [];
    assert runes + r.Ahead() == r.Ahead();
    while true
      invariant r.Valid() && fresh(r) && fresh(r.buf) && fresh(r.pendBuf) && fresh(r.reader)
      invariant runes + r.Ahead() == Runes(Source.Data(script))
      decreases |r.Ahead()|
    {
      var rr, _, err := r.ReadRune();
      if err.Some? {
        assert runes + [] == runes;
        return;
      }
      assert runes + ([rr] + r.Ahead()) == (runes + [rr]) + r.Ahead();
      runes := runes + [rr];
    }
  }
}
