/** What each call on a pipe was asked for, and what it answers, in every run. */
module PipeCalls {
  import opened Wrappers
  import opened Pipe
  import opened PipeProof
  import opened PipeTheorems

  /** The n-th step of the run is m. */
  ghost predicate Takes(run: seq<State>, n: nat, m: Move) {
    n + 1 < |run| && Can(run[n], m) && run[n + 1] == Step(run[n], m)
  }

  /** p is the call, perhaps on its way. A close without an error stores io.ErrClosedPipe for the
      read end and io.EOF for the write end. */
  predicate Serves(p: Proc, call: Call) {
    match call
    case ReadCall(size) => p.Reader? && p.size == size
    case WriteCall(data) => p.Writer? && p.data == data
    case CloseReadCall(err) => p.Closer? && p.readEnd && p.err == if err.Some? then err.value else ErrClosedPipe
    case CloseWriteCall(err) => p.Closer? && !p.readEnd && p.err == if err.Some? then err.value else EOF
  }

  lemma ServesStep(s: State, m: Move, t: Tid, call: Call)
    requires Can(s, m) && t < |s.procs| && Serves(s.procs[t], call)
    ensures t < |Step(s, m).procs| && Serves(Step(s, m).procs[t], call)
  {
  }

  lemma NewServes(s: State, m: Move, t: Tid) returns (call: Call)
    requires Can(s, m) && |s.procs| <= t < |Step(s, m).procs|
    ensures m == Start(call) && t == |s.procs| && Serves(Step(s, m).procs[t], call)
  {
    call := m.call;
  }

  /** Every call in progress was started, once, with the arguments it has. */
  lemma {:induction false} Started(run: seq<State>, n: nat, t: Tid) returns (m: nat, call: Call)
    requires Run(run) && n < |run| && t < |run[n].procs|
    ensures m < n && Takes(run, m, Start(call)) && |run[m].procs| == t && Serves(run[n].procs[t], call)
  {
    assert n > 0;
    var mv := LastMove(run, n);
    hide Run, Can, Step;
    if t < |run[n - 1].procs| {
      m, call := Started(run, n - 1, t);
      ServesStep(run[n - 1], mv, t, call);
    } else {
      m := n - 1;
      call := NewServes(run[n - 1], mv, t);
    }
  }

  /** The close call that a step stores the error of. */
  lemma StoredBy(s: State, m: Move) returns (t: Tid)
    requires Can(s, m) && (Step(s, m).rerr != s.rerr || Step(s, m).werr != s.werr)
    ensures t < |s.procs| && s.procs[t].Closer?
    ensures Step(s, m).werr != s.werr ==> s.werr.None? && !s.procs[t].readEnd && Step(s, m).werr == Some(s.procs[t].err)
    ensures Step(s, m).rerr != s.rerr ==> s.rerr.None? && s.procs[t].readEnd && Step(s, m).rerr == Some(s.procs[t].err)
  {
    t := m.t;
  }

  /** The write end's error is that of a CloseWithError on it, io.EOF if that was given none. */
  lemma {:induction false} WriteEndError(run: seq<State>, n: nat) returns (m: nat, err: Option<Err>)
    requires Run(run) && n < |run| && run[n].werr.Some?
    ensures m < n && Takes(run, m, Start(CloseWriteCall(err)))
    ensures run[n].werr == Some(if err.Some? then err.value else EOF)
  {
    assert n > 0;
    var mv := LastMove(run, n);
    hide Run, Can, Step;
    if run[n - 1].werr == run[n].werr {
      m, err := WriteEndError(run, n - 1);
    } else {
      var t := StoredBy(run[n - 1], mv);
      var call;
      m, call := Started(run, n - 1, t);
      err := call.err;
    }
  }

  /** The read end's error likewise, io.ErrClosedPipe if none was given. */
  lemma {:induction false} ReadEndError(run: seq<State>, n: nat) returns (m: nat, err: Option<Err>)
    requires Run(run) && n < |run| && run[n].rerr.Some?
    ensures m < n && Takes(run, m, Start(CloseReadCall(err)))
    ensures run[n].rerr == Some(if err.Some? then err.value else ErrClosedPipe)
  {
    assert n > 0;
    var mv := LastMove(run, n);
    hide Run, Can, Step;
    if run[n - 1].rerr == run[n].rerr {
      m, err := ReadEndError(run, n - 1);
    } else {
      var t := StoredBy(run[n - 1], mv);
      var call;
      m, call := Started(run, n - 1, t);
      err := call.err;
    }
  }

  /** By the time a close has returned, the pipe is closed and that end has an error. */
  lemma {:induction false} CloseReturned(run: seq<State>, n: nat, t: Tid)
    requires Run(run) && n < |run| && t < |run[n].procs| && run[n].procs[t].Closer?
    ensures run[n].procs[t].cpc.CReturned? ==> run[n].done
    ensures !run[n].procs[t].cpc.CStore? ==> if run[n].procs[t].readEnd then run[n].rerr.Some? else run[n].werr.Some?
  {
    assert n > 0;
    var mv := LastMove(run, n);
    if t < |run[n - 1].procs| && run[n - 1].procs[t].Closer? { CloseReturned(run, n - 1, t); }
    hide Run;
    CloseMoves(run[n - 1], mv, t);
  }

  lemma CloseMoves(s: State, m: Move, t: Tid)
    requires Can(s, m) && t < |Step(s, m).procs| && Step(s, m).procs[t].Closer?
    requires t < |s.procs| && s.procs[t].Closer? ==>
      && (s.procs[t].cpc.CReturned? ==> s.done)
      && (!s.procs[t].cpc.CStore? ==> if s.procs[t].readEnd then s.rerr.Some? else s.werr.Some?)
    ensures Step(s, m).procs[t].cpc.CReturned? ==> Step(s, m).done
    ensures !Step(s, m).procs[t].cpc.CStore? ==>
      if Step(s, m).procs[t].readEnd then Step(s, m).rerr.Some? else Step(s, m).werr.Some?
  {
  }

  // ---- which error a read or a write reports ----

  /** What readCloseError and writeCloseError make of the two errors they load: the other end's
      error, unless this end is closed too. */
  function Reported(mine: Option<Err>, other: Option<Err>): Err {
    if mine.None? && other.Some? then other.value else ErrClosedPipe
  }

  /** The moments k and l at which a read that reports an error loaded the errors of the two ends. */
  lemma {:induction false} ReadErrorIs(run: seq<State>, n: nat, r: Tid) returns (k: nat, l: nat)
    requires Run(run) && n < |run| && r < |run[n].procs| && run[n].procs[r].Reader?
    requires run[n].procs[r].rpc.RReturned? && run[n].procs[r].rpc.err.Some?
    ensures k < l < n && r < |run[k].procs|
    ensures run[n].procs[r].rpc == RReturned(0, Some(Reported(run[k].rerr, run[l].werr)))
  {
    assert n > 0;
    var mv := LastMove(run, n);
    hide Run;
    ReadErrorMoves(run[n - 1], mv, r);
    hide Can, Step;
    if run[n - 1].procs[r] == run[n].procs[r] {
      k, l := ReadErrorIs(run, n - 1, r);
    } else {
      l := n - 1;
      k := ReadLoad(run, n - 1, r);
    }
  }

  lemma ReadErrorMoves(s: State, m: Move, r: Tid)
    requires Can(s, m) && r < |Step(s, m).procs| && Step(s, m).procs[r].Reader?
    requires Step(s, m).procs[r].rpc.RReturned? && Step(s, m).procs[r].rpc.err.Some?
    ensures r < |s.procs| && s.procs[r].Reader?
    ensures s.procs[r] == Step(s, m).procs[r]
            || (s.procs[r].rpc.RLoadOther? && Step(s, m).procs[r].rpc == RReturned(0, Some(Reported(s.procs[r].rpc.rerr, s.werr))))
  {
  }

  lemma {:induction false} ReadLoad(run: seq<State>, n: nat, r: Tid) returns (k: nat)
    requires Run(run) && n < |run| && r < |run[n].procs| && run[n].procs[r].Reader? && run[n].procs[r].rpc.RLoadOther?
    ensures k < n && r < |run[k].procs| && run[n].procs[r].rpc == RLoadOther(run[k].rerr)
  {
    assert n > 0;
    var mv := LastMove(run, n);
    hide Run;
    ReadLoadMoves(run[n - 1], mv, r);
    hide Can, Step;
    if run[n - 1].procs[r] == run[n].procs[r] { k := ReadLoad(run, n - 1, r); } else { k := n - 1; }
  }

  lemma ReadLoadMoves(s: State, m: Move, r: Tid)
    requires Can(s, m) && r < |Step(s, m).procs| && Step(s, m).procs[r].Reader? && Step(s, m).procs[r].rpc.RLoadOther?
    ensures r < |s.procs| && s.procs[r].Reader?
    ensures s.procs[r] == Step(s, m).procs[r] || Step(s, m).procs[r].rpc == RLoadOther(s.rerr)
  {
  }

  /** A read that starts after the write end was closed returns no bytes and the error of the write
      end, unless the read end is closed too by the time it looks. */
  lemma ReadAfterClose(run: seq<State>, m: nat, n: nat, r: Tid)
    requires Run(run) && m <= n < |run| && run[m].done && run[m].werr.Some? && run[n].rerr.None?
    requires |run[m].procs| <= r < |run[n].procs| && run[n].procs[r].Reader? && run[n].procs[r].rpc.RReturned?
    ensures run[n].procs[r].rpc == RReturned(0, run[m].werr)
  {
    ClosedMovesNothing(run, m, n, r);
    var k, l := ReadErrorIs(run, n, r);
    hide Run;
    if k < m { FirstErrorStays(run, k, m); }
    FirstErrorStays(run, m, l);
    FirstErrorStays(run, k, n);
  }

  /** In particular io.EOF, if no close of the write end was given an error. */
  lemma EofAfterClose(run: seq<State>, m: nat, n: nat, r: Tid)
    requires Run(run) && m <= n < |run| && run[m].done && run[m].werr.Some? && run[n].rerr.None?
    requires |run[m].procs| <= r < |run[n].procs| && run[n].procs[r].Reader? && run[n].procs[r].rpc.RReturned?
    requires forall k, err | 0 <= k < m && Takes(run, k, Start(CloseWriteCall(err))) :: err.None?
    ensures run[n].procs[r].rpc == RReturned(0, Some(EOF))
  {
    ReadAfterClose(run, m, n, r);
    var k, err := WriteEndError(run, m);
    hide *;
  }

  /** The write has an error to return. */
  predicate Failing(p: Proc) {
    p.Writer? && (p.wpc.WUnlock? || p.wpc.WReturned?) && p.wpc.err.Some?
  }

  /** The moments at which a write that reports an error loaded the errors of the two ends. */
  lemma {:induction false} WriteErrorIs(run: seq<State>, n: nat, w: Tid) returns (k: nat, l: nat)
    requires Run(run) && n < |run| && w < |run[n].procs| && Failing(run[n].procs[w])
    ensures k < l < n && w < |run[k].procs|
    ensures run[n].procs[w].wpc.err == Some(Reported(run[k].werr, run[l].rerr))
  {
    assert n > 0;
    var mv := LastMove(run, n);
    hide Run;
    WriteErrorMoves(run[n - 1], mv, w);
    hide Can, Step;
    if Failing(run[n - 1].procs[w]) {
      k, l := WriteErrorIs(run, n - 1, w);
    } else {
      l := n - 1;
      k := WriteLoad(run, n - 1, w);
    }
  }

  lemma WriteErrorMoves(s: State, m: Move, w: Tid)
    requires Can(s, m) && w < |Step(s, m).procs| && Failing(Step(s, m).procs[w])
    ensures w < |s.procs| && s.procs[w].Writer?
    ensures var err := Step(s, m).procs[w].wpc.err;
      if Failing(s.procs[w]) then s.procs[w].wpc.err == err
      else s.procs[w].wpc.WLoadOther? && err == Some(Reported(s.procs[w].wpc.werr, s.rerr))
  {
  }

  lemma {:induction false} WriteLoad(run: seq<State>, n: nat, w: Tid) returns (k: nat)
    requires Run(run) && n < |run| && w < |run[n].procs| && run[n].procs[w].Writer? && run[n].procs[w].wpc.WLoadOther?
    ensures k < n && w < |run[k].procs| && run[n].procs[w].wpc.werr == run[k].werr
  {
    assert n > 0;
    var mv := LastMove(run, n);
    hide Run;
    WriteLoadMoves(run[n - 1], mv, w);
    hide Can, Step;
    if run[n - 1].procs[w] == run[n].procs[w] { k := WriteLoad(run, n - 1, w); } else { k := n - 1; }
  }

  lemma WriteLoadMoves(s: State, m: Move, w: Tid)
    requires Can(s, m) && w < |Step(s, m).procs| && Step(s, m).procs[w].Writer? && Step(s, m).procs[w].wpc.WLoadOther?
    ensures w < |s.procs| && s.procs[w].Writer?
    ensures s.procs[w] == Step(s, m).procs[w] || Step(s, m).procs[w].wpc.werr == s.werr
  {
  }

  /** A write that starts after the read end was closed consumes nothing and returns the error of the
      read end, unless the write end is closed too by the time it looks. */
  lemma WriteAfterClose(run: seq<State>, m: nat, n: nat, w: Tid)
    requires Run(run) && m <= n < |run| && run[m].done && run[m].rerr.Some? && run[n].werr.None?
    requires |run[m].procs| <= w < |run[n].procs| && run[n].procs[w].Writer? && run[n].procs[w].wpc.WReturned?
    ensures run[n].procs[w].n == 0 && run[n].procs[w].wpc.err == run[m].rerr
  {
    ClosedMovesNothing(run, m, n, w);
    var k, l := WriteErrorIs(run, n, w);
    hide Run;
    if k < m { FirstErrorStays(run, k, m); }
    FirstErrorStays(run, m, l);
    FirstErrorStays(run, k, n);
  }

  /** In particular io.ErrClosedPipe, if no close of the read end was given an error. */
  lemma ClosedPipeAfterClose(run: seq<State>, m: nat, n: nat, w: Tid)
    requires Run(run) && m <= n < |run| && run[m].done && run[m].rerr.Some? && run[n].werr.None?
    requires |run[m].procs| <= w < |run[n].procs| && run[n].procs[w].Writer? && run[n].procs[w].wpc.WReturned?
    requires forall k, err | 0 <= k < m && Takes(run, k, Start(CloseReadCall(err))) :: err.None?
    ensures run[n].procs[w].n == 0 && run[n].procs[w].wpc.err == Some(ErrClosedPipe)
  {
    WriteAfterClose(run, m, n, w);
    var k, err := ReadEndError(run, m);
    hide *;
  }

  // ---- which bytes a read got, and from whom ----

  /** got is as much of b as fits: all of it, or size bytes. */
  predicate AsMuch(got: seq<Byte>, size: nat, b: seq<Byte>) {
    got <= b && |got| <= size && (|got| == size || got == b)
  }

  /** A read that has received from wrCh. */
  predicate Received(p: Proc) {
    p.Reader? && (p.rpc.RCopy? || p.rpc.RReply? || (p.rpc.RReturned? && p.rpc.err.None?))
  }

  predicate GotFrom(p: Proc, b: seq<Byte>)
    requires Received(p)
  {
    (p.rpc.RCopy? ==> p.rpc.bw == b) && (!p.rpc.RCopy? ==> AsMuch(p.got, p.size, b))
    && (p.rpc.RReturned? ==> p.rpc.n == |p.got|)
  }

  /** A read without an error met one write, and copied what that write had left, or as much of it as
      its buffer holds. */
  lemma {:induction false} ReadFrom(run: seq<State>, n: nat, r: Tid) returns (k: nat, w: Tid)
    requires Run(run) && n < |run| && r < |run[n].procs| && Received(run[n].procs[r])
    ensures k < n && Takes(run, k, Send(w, r)) && w < |run[k].procs| && run[k].procs[w].Writer?
    ensures GotFrom(run[n].procs[r], run[k].procs[w].b)
  {
    assert n > 0;
    var mv := LastMove(run, n);
    hide Run, GotFrom;
    if r < |run[n - 1].procs| && Received(run[n - 1].procs[r]) {
      k, w := ReadFrom(run, n - 1, r);
      GotMoves(run[n - 1], mv, r, run[k].procs[w].b);
    } else {
      k := n - 1;
      w := Meeting(run[n - 1], mv, r);
    }
  }

  lemma GotMoves(s: State, m: Move, r: Tid, b: seq<Byte>)
    requires Can(s, m) && r < |s.procs| && Received(s.procs[r]) && GotFrom(s.procs[r], b)
    ensures r < |Step(s, m).procs| && Received(Step(s, m).procs[r]) && GotFrom(Step(s, m).procs[r], b)
  {
  }

  lemma Meeting(s: State, m: Move, r: Tid) returns (w: Tid)
    requires Can(s, m) && r < |Step(s, m).procs| && Received(Step(s, m).procs[r])
    requires !(r < |s.procs| && Received(s.procs[r]))
    ensures m == Send(w, r) && w < |s.procs| && s.procs[w].Writer? && GotFrom(Step(s, m).procs[r], s.procs[w].b)
  {
    w := m.w;
  }

  /** The write has been told by some read how much it took. */
  predicate Answered(p: Proc) {
    p.Writer? && ((p.wpc.WLoop? && !p.wpc.once) || ((p.wpc.WUnlock? || p.wpc.WReturned?) && p.wpc.err.None?))
  }

  /** A write without an error, even of no bytes at all, has met at least one read. */
  lemma {:induction false} WriteMet(run: seq<State>, n: nat, w: Tid) returns (k: nat, r: Tid)
    requires Run(run) && n < |run| && w < |run[n].procs| && Answered(run[n].procs[w])
    ensures k < n && Takes(run, k, Ack(r, w))
  {
    assert n > 0;
    var mv := LastMove(run, n);
    hide Run;
    if w < |run[n - 1].procs| && Answered(run[n - 1].procs[w]) {
      k, r := WriteMet(run, n - 1, w);
    } else {
      k := n - 1;
      r := Answering(run[n - 1], mv, w);
    }
  }

  lemma Answering(s: State, m: Move, w: Tid) returns (r: Tid)
    requires Can(s, m) && w < |Step(s, m).procs| && Answered(Step(s, m).procs[w])
    requires !(w < |s.procs| && Answered(s.procs[w]))
    ensures m == Ack(r, w)
  {
    r := m.r;
  }
}
