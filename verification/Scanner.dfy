/** The Scanner of go/src/bufio/scan.go: a sliding, growing buffer over an arbitrary reader. */
module Scanner {
  import Bits
  import opened Arrays
  import opened Wrappers
  import opened Utf8
  import opened Source
  import opened Split
  import opened SplitFits

  const MAX_SCAN_TOKEN_SIZE := 64 * 1024
  const START_BUF_SIZE := 4096

  /** The loops of ScanWords. */
  method ScanWordsLoop(data: seq<byte>, atEOF: bool) returns (advance: nat, token: Option<seq<byte>>)
    ensures Splitted(advance, token, None) == SplitWords(data, atEOF)
  {
    hide DecodeRune, IsSpace, Spaces, Word;
    var start := SkipSpaces(data);
    var i := start;
    ghost var rest := data[start..];
    assert rest[0..] == rest;
    while i < |data|
      invariant start <= i <= |data| && Word(rest) == i - start + Word(data[i..])
    {
      var d := DecodeRune(data[i..]);
      WordStep(data[i..]);
      if IsSpace(d.r) {
        assert rest[..i - start] == data[start..i] && rest[i - start..] == data[i..];
        return i + d.w, Some(data[start..i]);
      }
      DropTwice(data, i, d.w);
      i := i + d.w;
    }
    WordStep(data[i..]);
    if atEOF && |data| > start { return |data|, Some(data[start..]); }
    return start, None;
  }

  lemma WordStep(s: seq<byte>)
    ensures Word(s) == if s == [] || IsSpace(DecodeRune(s).r) then 0 else DecodeRune(s).w + Word(s[DecodeRune(s).w..])
  {
    hide DecodeRune, IsSpace;
  }

  /** The first of them. */
  method SkipSpaces(data: seq<byte>) returns (start: nat)
    ensures start == Spaces(data)
  {
    hide DecodeRune, IsSpace;
    start := 0;
    assert data[0..] == data;
    while start < |data|
      invariant start <= |data| && Spaces(data) == start + Spaces(data[start..])
    {
      var d := DecodeRune(data[start..]);
      if !IsSpace(d.r) { break; }
      DropTwice(data, start, d.w);
      start := start + d.w;
    }
  }

  class Scanner {
    const r: Reader
    var split: SplitFunc
    var maxTokenSize: int
    var token: Option<seq<byte>>
    var buf: array<byte>
    var start: nat
    var end: nat
    var err: Option<Err>
    var empties: nat
    var scanCalled: bool
    var done: bool

    predicate Valid()
      reads this, buf
    {
      start <= end <= buf.Length
    }

    /** The bytes read but not yet consumed. */
    ghost function Pending(): seq<byte>
      requires Valid()
      reads this, buf
    {
      buf[start..end]
    }

    /** All the input that is still to be scanned. */
    ghost function Stream(): seq<byte>
      requires Valid()
      reads this, buf, r
    {
      Pending() + if err.None? then Data(r.script) else []
    }

    /** The largest buffer that will be used. */
    ghost function MaxSize(): nat
      reads this, buf
    {
      if maxTokenSize > buf.Length then maxTokenSize else buf.Length
    }

    /** A scan with one of the package's split functions in which nothing has gone wrong and
        nothing will: the reader behaves, and the tokens fit. */
    ghost predicate Regular()
      reads this, buf, r
    {
      Valid() && !split.Custom? && !done && (err.None? || err == Some(EOF)) && maxTokenSize <= Bits.MAX_INT / 2 && r.final == EOF
      && (err.None? ==> Lively(r.script, 0, MAX_EMPTY_READS, EOF) && MaxSize() > 0 && Fits(split, Stream(), MaxSize()))
    }

    /** NewScanner(r). */
    constructor (reader: Reader)
      ensures r == reader && split == ScanLines && maxTokenSize == 65536 && buf.Length == 0 && fresh(buf)
      ensures Valid() && !done && !scanCalled && err.None? && Pending() == []
    {
      r, split, maxTokenSize := reader, ScanLines, MAX_SCAN_TOKEN_SIZE;
      token, buf, start, end, err, empties, scanCalled, done := None, new byte[0], 0, 0, None, 0, false, false;
    }

    /** Buffer(b, max); the panic after a Scan is the precondition. */
    method Buffer(b: array<byte>, max: int)
      requires Valid() && !scanCalled && start == end == 0
      modifies `buf, `maxTokenSize
      ensures Valid() && buf == b && maxTokenSize == max && Pending() == []
    {
      buf, maxTokenSize := b, max;
    }

    /** Split(f). */
    method Split(f: SplitFunc)
      requires !scanCalled
      modifies `split
      ensures split == f
    {
      split := f;
    }

    method SetErr(e: Err)
      modifies `err
      ensures err == if old(err).None? || old(err) == Some(EOF) then Some(e) else old(err)
    {
      if err.None? || err == Some(EOF) { err := Some(e); }
    }

    method Advance(n: int) returns (ok: bool)
      requires Valid()
      modifies `err, `start
      ensures Valid() && ok == (0 <= n <= end - old(start))
      ensures ok ==> start == old(start) + n && err == old(err)
      ensures !ok ==> start == old(start) && err.Some?
      ensures !ok && (old(err).None? || old(err) == Some(EOF)) ==> err == Some(if n < 0 then ErrNegativeAdvance else ErrAdvanceTooFar)
    {
      if n < 0 {
        SetErr(ErrNegativeAdvance);
        return false;
      }
      if n > end - start {
        SetErr(ErrAdvanceTooFar);
        return false;
      }
      start := start + n;
      return true;
    }

    /** What a scan step may say about the tokens: either the next one, or none in this data. */
    ghost predicate Found(before: seq<byte>)
      requires Valid() && !split.Custom?
      reads this, buf, r
    {
      token.Some? && Whole(split, before) == [token.value] + Whole(split, Stream())
    }

    /** The first part of the loop: see if the split function finds a token in the buffer.
        stop: Scan returns more (or panics). */
    method TrySplit() returns (stop: bool, more: bool, panics: bool)
      requires Valid() && !done && (end > start || err.Some?)
      modifies `start, `token, `err, `empties, `done
      ensures Valid() && (!stop ==> err == old(err) && !done)
      ensures stop && !more ==> done || err.Some? || panics
      ensures old(Regular()) ==> Regular() && err == old(err) && !panics
      ensures old(Regular()) && stop ==> more && Found(old(Stream()))
      ensures old(Regular()) && !stop ==> Whole(split, old(Stream())) == if err.None? then Whole(split, Stream()) else []
      ensures old(Regular()) && !stop && err.None? && start == 0 ==> end > 0 && SplitWith(split, Pending(), false).advance == 0
    {
      hide Whole, SplitWith, Fits, Lively, Data;
      stop, more, panics := false, false, false;
      var s := SplitWith(split, buf[start..end], err.Some?);
      ghost var d := Pending();
      if Regular() { SplitRegular(); }
      label before:
      if s.err.Some? {
        if s.err == Some(ErrFinalToken) {
          token, done := s.token, true;
          return true, token.Some?, false;
        }
        SetErr(s.err.value);
        return true, false, false;
      }
      var ok := Advance(s.advance);
      if !ok { return true, false, false; }
      token := s.token;
      if token.Some? {
        if err.None? || s.advance > 0 {
          empties := 0;
        } else {
          empties := empties + 1;
          if empties > MAX_EMPTY_READS { return true, false, true; }
        }
        return true, true, false;
      }
    }

    /** What SplitStable, SplitLast and FitsKept say about the next call of the split function. */
    lemma SplitRegular()
      requires Regular() && (end > start || err.Some?)
      ensures var s := SplitWith(split, Pending(), err.Some?);
        && s.err.None? && 0 <= s.advance <= end - start && (s.token.Some? ==> s.advance > 0)
        && var rest := buf[start + s.advance..end] + if err.None? then Data(r.script) else [];
           && (err.None? ==> Fits(split, rest, MaxSize()))
           && Whole(split, Stream()) ==
                if s.token.Some? then [s.token.value] + Whole(split, rest)
                else if err.None? then Whole(split, rest) else []
    {
      hide Whole, SplitWith, Fits, Lively, Data;
      var d := Pending();
      if err.None? {
        var e := Data(r.script);
        var a := SplitWith(split, d, false).advance;
        SplitStable(split, d, e);
        FitsKept(split, d, e, MaxSize());
        assert (d + e)[a..] == buf[start + a..end] + e;
      } else {
        SplitLast(split, d);
        var a := SplitWith(split, d, true).advance;
        assert d + [] == d && d[a..] == buf[start + a..end] && d[a..] + [] == d[a..];
      }
    }

    /** The split function needs more than a full buffer: see if it can be shifted or must grow. */
    method MakeRoom() returns (ok: bool)
      requires Valid() && err.None?
      modifies `start, `end, `buf, `err, buf
      ensures Valid() && (buf == old(buf) || fresh(buf)) && (if ok then err.None? else err == Some(ErrTooLong))
      ensures !ok <==> old(start == 0 && end == buf.Length && (buf.Length >= maxTokenSize || buf.Length > Bits.MAX_INT / 2))
      ensures ok ==> end < buf.Length && Pending() == old(Pending()) && MaxSize() == old(MaxSize())
      ensures (old(Regular()) && (old(start) == 0 && old(end) > 0 ==> SplitWith(split, old(Pending()), false).advance == 0)) ==> ok
    {
      hide SplitWith, Fits, Lively, Data, Whole;
      if Regular() && start == 0 && end == buf.Length >= maxTokenSize { FullFits(); }
      if start > 0 && (end == buf.Length || start > buf.Length / 2) { Shift(); }
      ok := true;
      if end == buf.Length {
        if buf.Length >= maxTokenSize || buf.Length > Bits.MAX_INT / 2 {
          SetErr(ErrTooLong);
          return false;
        }
        Grow();
      }
    }

    /** A buffer that is full of unconsumed bytes and cannot grow lets the split function get on. */
    lemma FullFits()
      requires Regular() && err.None? && start == 0 && end == buf.Length > 0 && buf.Length >= maxTokenSize
      ensures SplitWith(split, Pending(), false).advance > 0
    {
      var s := Stream();
      assert s[..end] == Pending();
      hide SplitWith, Lively, Data;
    }

    /** copy(s.buf, s.buf[s.start:s.end]). */
    method Shift()
      requires Valid()
      modifies `start, `end, buf
      ensures Valid() && start == 0 && end == old(end) - old(start) && Pending() == old(Pending())
    {
      CopyWithin(buf, 0, start, end - start);
      end := end - start;
      start := 0;
    }

    /** Double the buffer, to at most maxTokenSize. */
    method Grow()
      requires Valid() && buf.Length < maxTokenSize
      modifies `start, `end, `buf
      ensures Valid() && fresh(buf) && buf.Length > old(buf.Length) && end == old(end) - old(start)
      ensures Pending() == old(Pending()) && MaxSize() == old(MaxSize())
    {
      var newSize := buf.Length * 2;
      if newSize == 0 { newSize := START_BUF_SIZE; }
      if newSize > maxTokenSize { newSize := maxTokenSize; }
      var newBuf := new byte[newSize](k => 0);
      ghost var d := Pending();
      CopyBetween(newBuf, 0, buf, start, end - start);
      assert newBuf[0..end - start] == d;
      buf, end, start := newBuf, end - start, 0;
    }

    /** What one answer means to a scanner that holds d. */
    static lemma Replied(d: seq<byte>, script: seq<Answer>, room: nat, k: nat, final: Err)
      requires room > 0
      ensures var a := Answered(script, room, final);
        && (Work(a.rest) < Work(script) || a.err == Some(final))
        && (Lively(script, k, MAX_EMPTY_READS, EOF) && final == EOF ==>
              && a.n == |a.data| && (d + a.data) + Data(a.rest) == d + Data(script)
              && (a.err.Some? ==> a.err == Some(EOF) && Data(a.rest) == [])
              && (a.err.None? && a.n > 0 ==> Lively(a.rest, 0, MAX_EMPTY_READS, EOF))
              && (a.err.None? && a.n == 0 ==> k < MAX_EMPTY_READS && Lively(a.rest, k + 1, MAX_EMPTY_READS, EOF)))
    {
      hide Answered, Work, Lively, Data, Obeys;
      AnsweredWorks(script, room, final);
      if Lively(script, k, MAX_EMPTY_READS, EOF) && final == EOF {
        LivelyObeys(script, k, MAX_EMPTY_READS, EOF);
        AnsweredDelivers(script, room, EOF);
        AnsweredLively(script, room, k, MAX_EMPTY_READS, EOF);
        var a := Answered(script, room, final);
        assert (d + a.data) + Data(a.rest) == d + (a.data + Data(a.rest));
      }
    }

    /** One Read into the free part of the buffer; stop: the loop around it ends. */
    method ReadOnce(ghost k: nat) returns (stop: bool)
      requires Valid() && err.None? && end < buf.Length
      modifies `end, `err, `empties, buf, r
      ensures Valid() && (err.Some? ==> stop) && (!stop ==> Pending() == old(Pending()) && end == old(end))
      ensures var a := Answered(old(r.script), old(buf.Length - end), r.final);
        err == if a.n < 0 then Some(ErrBadReadCount) else a.err
      ensures err.Some? || Work(r.script) < old(Work(r.script))
      ensures old(Lively(r.script, k, MAX_EMPTY_READS, EOF)) && r.final == EOF ==>
        && Stream() == old(Stream()) && (err.None? || err == Some(EOF))
        && (err.None? ==> if stop then Lively(r.script, 0, MAX_EMPTY_READS, EOF) else k < MAX_EMPTY_READS && Lively(r.script, k + 1, MAX_EMPTY_READS, EOF))
    {
      hide Answered, Work, Lively, Data;
      Replied(Pending(), r.script, buf.Length - end, k, r.final);
      var n, e := r.Read(buf, end, buf.Length, start);
      if n < 0 || buf.Length - end < n {
        SetErr(ErrBadReadCount);
        return true;
      }
      end := end + n;
      if e.Some? {
        SetErr(e.value);
        return true;
      }
      if n > 0 { empties := 0; }
      return n > 0;
    }

    /** Read some input, giving up after too many reads without data. */
    method ReadMore()
      requires Valid() && err.None? && end < buf.Length
      modifies `end, `err, `empties, buf, r
      ensures Valid()
      ensures err.Some? || Work(r.script) < old(Work(r.script))
      ensures old(Lively(r.script, 0, MAX_EMPTY_READS, EOF)) && r.final == EOF ==>
        Stream() == old(Stream()) && (err.None? || err == Some(EOF)) && (err.None? ==> Lively(r.script, 0, MAX_EMPTY_READS, EOF))
    {
      hide Work, Lively, Data;
      var loop := 0;
      while true
        invariant Valid() && err.None? && end < buf.Length && 0 <= loop <= MAX_EMPTY_READS
        invariant Work(r.script) <= old(Work(r.script))
        invariant old(Lively(r.script, 0, MAX_EMPTY_READS, EOF)) && r.final == EOF ==> Lively(r.script, loop, MAX_EMPTY_READS, EOF) && Stream() == old(Stream())
        decreases Work(r.script)
      {
        var stop := ReadOnce(loop);
        if stop { break; }
        loop := loop + 1;
        if loop > MAX_EMPTY_READS {
          SetErr(ErrNoProgress);
          break;
        }
      }
    }

    /** The last part of the loop of Scan: make room, and read. */
    method MoreInput() returns (ok: bool)
      requires Valid() && err.None? && !done
      modifies `start, `end, `buf, `err, `empties, buf, r
      ensures Valid() && (buf == old(buf) || fresh(buf)) && (!ok ==> err.Some?)
      ensures ok ==> err.Some? || Work(r.script) < old(Work(r.script))
      ensures old(Regular()) && (old(start) == 0 && old(end) > 0 ==> SplitWith(split, old(Pending()), false).advance == 0) ==>
        ok && Regular() && Stream() == old(Stream())
    {
      hide Work, Lively, Data, Fits, SplitWith;
      ok := MakeRoom();
      if ok { ReadMore(); }
    }

    /** Scan: true with the next token, or false at the end of the input or on an error. */
    method Scan() returns (more: bool, panics: bool)
      requires Valid()
      modifies this, buf, r
      ensures Valid() && (buf == old(buf) || fresh(buf))
      ensures old(done) ==> !more
      ensures !more ==> done || err.Some? || panics
      ensures old(Regular()) ==>
        && Regular() && !panics && split == old(split)
        && if more then Found(old(Stream()))
           else Whole(split, old(Stream())) == [] && err == Some(EOF) && Stream() == []
    {
      hide Work, Lively, Data, Whole, Fits, SplitWith;
      panics := false;
      if done { return false, false; }
      scanCalled := true;
      while true
        invariant Valid() && (buf == old(buf) || fresh(buf)) && !done && split == old(split)
        invariant old(Regular()) ==> Regular() && Whole(split, Stream()) == Whole(split, old(Stream()))
        decreases if err.Some? then 0 else 1 + Work(r.script)
      {
        ghost var before := Stream();
        if end > start || err.Some? {
          var stop, found, bad := TrySplit();
          if stop { return found, bad; }
        }
        if err.Some? {
          start, end := 0, 0;
          return false, false;
        }
        var ok := MoreInput();
        if !ok { return false, false; }
      }
    }
  }

  /** for sc.Scan() { tokens = append(tokens, sc.Text()) }. */
  method ScanAll(sc: Scanner) returns (tokens: seq<seq<byte>>)
    requires sc.Regular()
    modifies sc, sc.buf, sc.r
    ensures tokens == Whole(old(sc.split), old(sc.Stream())) && sc.err == Some(EOF)
  {
    hide Whole;
    tokens := [];
    ghost var split, all := sc.split, Whole(sc.split, sc.Stream());
    while true
      invariant sc.Regular() && sc.split == split && (sc.buf == old(sc.buf) || fresh(sc.buf))
      invariant all == tokens + Whole(split, sc.Stream())
      decreases |Whole(split, sc.Stream())|
    {
      ghost var before := Whole(split, sc.Stream());
      var more, _ := sc.Scan();
      if !more {
        assert tokens + [] == tokens;
        return;
      }
      assert before[1..] == Whole(split, sc.Stream());
      tokens := tokens + [sc.token.value];
    }
  }

  /** A new Scanner over any reader yields the tokens of the whole input, however the reader cuts
      the input up. */
  method ScanInput(script: seq<Answer>, split: SplitFunc) returns (tokens: seq<seq<byte>>)
    requires !split.Custom? && Lively(script, 0, 100, EOF) && Fits(split, Data(script), 65536)
    ensures tokens == Whole(split, Data(script))
  {
    hide Whole, Fits, Lively, Data;
    var r := new Reader(script, EOF);
    var sc := new Scanner(r);
    sc.Split(split);
    assert [] + Data(script) == Data(script);
    tokens := ScanAll(sc);
  }
}
