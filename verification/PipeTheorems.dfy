/** What the callers of a pipe may rely on, in every run with any number of calls. */
module PipeTheorems {
  import opened Wrappers
  import opened Pipe
  import opened PipeProof

  /** The bytes readers got, in rendezvous order, are the consumed prefixes of the writes, in the
      order they took wrMu, plus at most the bytes of one read whose answer is still to be taken. */
  lemma BytesInOrder(run: seq<State>, n: nat)
    requires Run(run) && n < |run|
    ensures var s := run[n];
      && Distinct(s.takes) && Distinct(s.locks)
      && Collect(Ledger(s.procs), s.takes) == Collect(Ledger(s.procs), s.locks) + InFlight(s)
      && ((forall r :: 0 <= r < |s.procs| ==> !Serving(s.procs[r])) ==> InFlight(s) == [])
  {
    RunInv(run, n);
    hide ProcOk, Collect, Ledger, Distinct, Run;
  }

  /** At most one read is between wrCh and rdCh, and it works on the rest of the one write that
      waits on rdCh, which holds wrMu. */
  lemma OneServed(run: seq<State>, n: nat, r: Tid, r2: Tid)
    requires Run(run) && n < |run| && r < |run[n].procs| && Serving(run[n].procs[r])
    requires r2 < |run[n].procs| && Serving(run[n].procs[r2])
    ensures r2 == r
    ensures var s := run[n];
      s.wrMu.Some? && s.wrMu.value < |s.procs| && s.procs[s.wrMu.value].Writer? && s.procs[s.wrMu.value].wpc.WWait?
      && Fits(s.procs[r], s.procs[s.wrMu.value])
      && forall w :: 0 <= w < |s.procs| && Holding(s.procs[w]) ==> w == s.wrMu.value
  {
    RunInv(run, n);
    var s := run[n];
    InvAt(s, r);
    InvAt(s, r2);
    hide Inv, Run, Conserved, LogsOk, Fits;
    forall w | 0 <= w < |s.procs| && Holding(s.procs[w]) ensures w == s.wrMu.value { Holder(s, w); }
  }

  lemma Holder(s: State, w: Tid)
    requires Inv(s) && w < |s.procs| && Holding(s.procs[w])
    ensures s.wrMu == Some(w)
  {
    InvAt(s, w);
  }

  /** What a write returns: no error exactly when all of its bytes were consumed (for empty data an
      error is also possible), never an out-of-range slice, and an error only after a close. */
  lemma WriteResult(run: seq<State>, n: nat, w: Tid)
    requires Run(run) && n < |run| && w < |run[n].procs| && run[n].procs[w].Writer?
    ensures var s := run[n]; var p := s.procs[w];
      && !p.wpc.WPanic? && p.n <= |p.data|
      && (p.wpc.WReturned? && p.wpc.err.None? ==> p.n == |p.data| && w in s.locks)
      && (p.wpc.WReturned? && p.wpc.err.Some? ==>
            (p.n < |p.data| || p.data == []) && Reportable(s, s.werr, s.rerr, p.wpc.err.value))
  {
    RunInv(run, n);
    InvAt(run[n], w);
    hide Inv, LogsOk, Conserved, Reportable;
  }

  /** What a read returns: the count of the bytes it got, fewer than it asked for only because the
      write had no more, or no bytes and an error after a close. */
  lemma ReadResult(run: seq<State>, n: nat, r: Tid)
    requires Run(run) && n < |run| && r < |run[n].procs| && run[n].procs[r].Reader? && run[n].procs[r].rpc.RReturned?
    ensures var s := run[n]; var p := s.procs[r];
      && p.rpc.n == |p.got| <= p.size
      && (p.rpc.err.None? <==> r in s.takes)
      && (p.rpc.err.Some? ==> p.rpc.n == 0 && Reportable(s, s.rerr, s.werr, p.rpc.err.value))
  {
    RunInv(run, n);
    InvAt(run[n], r);
    hide Inv, LogsOk, Conserved, Reportable;
  }

  /** Each end keeps the first error it is closed with, and a closed pipe stays closed. */
  lemma {:induction false} FirstErrorStays(run: seq<State>, m: nat, n: nat)
    requires Run(run) && m <= n < |run|
    ensures run[m].done ==> run[n].done
    ensures run[m].rerr.Some? ==> run[n].rerr == run[m].rerr
    ensures run[m].werr.Some? ==> run[n].werr == run[m].werr
    ensures |run[m].procs| <= |run[n].procs|
  {
    hide *;
    if m == n {
    } else {
      FirstErrorStays(run, m, n - 1);
      var mv := LastMove(run, n);
      Monotone(run[n - 1], mv);
    }
  }

  lemma LastMove(run: seq<State>, n: nat) returns (m: Move)
    requires Run(run) && 0 < n < |run|
    ensures Can(run[n - 1], m) && run[n] == Step(run[n - 1], m)
  {
    assert Next(run[n - 1], run[n - 1 + 1]);
    hide Run, Can, Step;
    m :| Can(run[n - 1], m) && run[n] == Step(run[n - 1], m);
  }

  lemma Monotone(s: State, m: Move)
    requires Can(s, m)
    ensures var s' := Step(s, m);
      && (s.done ==> s'.done) && (s.rerr.Some? ==> s'.rerr == s.rerr) && (s.werr.Some? ==> s'.werr == s.werr)
      && |s.procs| <= |s'.procs|
  {
  }

  /** A call that has not started moving anything and, done being closed, never will. */
  predicate LateProc(p: Proc) {
    match p
    case Reader(_, pc, got) => got == [] && (pc.RCheck? || pc.RLoad? || pc.RLoadOther? || (pc.RReturned? && pc.n == 0 && pc.err.Some?))
    case Writer(_, pc, _, n) =>
      n == 0 && (pc.WCheck? || (pc.WLoad? && !pc.held) || (pc.WLoadOther? && !pc.held) || (pc.WReturned? && pc.err.Some?))
    case Closer(_, _, _) => true
  }

  predicate LateAt(s: State, t: Tid) {
    t !in s.takes && t !in s.locks && (t < |s.procs| ==> LateProc(s.procs[t]))
  }

  /** A call that starts after the pipe was closed moves no bytes: it joins neither log, and if it
      is a read or a write and returns, it returns an error and a count of 0. */
  lemma {:induction false} ClosedMovesNothing(run: seq<State>, m: nat, n: nat, t: Tid)
    requires Run(run) && m <= n < |run| && run[m].done && t >= |run[m].procs|
    ensures LateAt(run[n], t) && run[n].done
  {
    if m == n {
      RunInv(run, n);
      NotLogged(run[n], t);
    } else {
      ClosedMovesNothing(run, m, n - 1, t);
      hide *;
      var mv := LastMove(run, n);
      LateStep(run[n - 1], mv, t);
    }
  }

  lemma NotLogged(s: State, t: Tid)
    requires Inv(s) && t >= |s.procs|
    ensures LateAt(s, t)
  {
    hide ProcOk, Conserved, Distinct;
  }

  lemma LateStep(s: State, m: Move, t: Tid)
    requires Can(s, m) && s.done && LateAt(s, t)
    ensures LateAt(Step(s, m), t) && Step(s, m).done
  {
  }

  /** The call has returned (or panicked, which WriteResult excludes). */
  predicate Over(p: Proc) {
    match p
    case Reader(_, pc, _) => pc.RReturned?
    case Writer(_, pc, _, _) => pc.WReturned?
    case Closer(_, _, pc) => pc.CReturned?
  }

  /** No deadlock: once the pipe is closed every call can be brought to its end, and before that a
      pending read and a pending write are never both stuck. */
  lemma Progress(run: seq<State>, n: nat, r: Tid, w: Tid) returns (m: Move)
    requires Run(run) && n < |run| && r < |run[n].procs| && w < |run[n].procs|
    requires !Over(run[n].procs[r]) && !Over(run[n].procs[w])
    requires run[n].done || (run[n].procs[r].Reader? && run[n].procs[w].Writer?)
    ensures !m.Start? && Can(run[n], m)
  {
    RunInv(run, n);
    var s := run[n];
    hide Run;
    InvAt(s, w);
    if s.procs[w].Writer? && s.procs[w].wpc.WLock? && s.wrMu.Some? {
      HolderWriter(s);
      m := Runnable(s, r, s.wrMu.value);
    } else if s.done && s.procs[w].Reader? && (s.procs[w].rpc.RSelect? || s.procs[w].rpc.RReply?) {
      if s.procs[w].rpc.RSelect? { m := SeeDone(w); } else { m := Ack(w, s.wrMu.value); }
    } else {
      m := Runnable(s, r, w);
    }
  }

  lemma HolderWriter(s: State)
    requires Inv(s) && s.wrMu.Some?
    ensures s.wrMu.value < |s.procs| && Holding(s.procs[s.wrMu.value])
  {
    hide ProcOk, Conserved, Distinct;
  }

  /** A writer that is not queueing for wrMu can step, alone or with the reader it needs. */
  lemma Runnable(s: State, r: Tid, w: Tid) returns (m: Move)
    requires Inv(s) && r < |s.procs| && w < |s.procs| && !Over(s.procs[w]) && !Over(s.procs[r])
    requires s.procs[w].Writer? && s.procs[w].wpc.WLock? ==> s.wrMu.None?
    requires s.procs[w].Reader? ==> !s.procs[w].rpc.RSelect? && !s.procs[w].rpc.RReply?
    requires s.done || (s.procs[r].Reader? && s.procs[w].Writer?)
    ensures !m.Start? && Can(s, m)
  {
    InvAt(s, w);
    InvAt(s, r);
    var p := s.procs[w];
    if p.Writer? && p.wpc.WLoop? && Looping(p) {
      if s.done { m := SeeDone(w); }
      else if s.procs[r].rpc.RSelect? { m := Send(w, r); }
      else { m := Local(r); }
    } else if p.Writer? && p.wpc.WWait? {
      var q := s.takes[|s.takes| - 1];
      m := if s.procs[q].rpc.RCopy? then Local(q) else Ack(q, w);
    } else {
      m := Local(w);
    }
  }
}
