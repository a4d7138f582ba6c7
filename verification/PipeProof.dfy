/** What the pipe keeps in every state, and what its callers may rely on in every run. */
module PipeProof {
  import opened Wrappers
  import opened Pipe

  /** The bytes a call has moved: what a read copied into its buffer, the consumed prefix of a write. */
  function Moved(p: Proc): seq<Byte> {
    if p.Reader? then p.got
    else if p.Writer? && p.n <= |p.data| then p.data[..p.n]
    else []
  }

  function Ledger(procs: seq<Proc>): (l: seq<seq<Byte>>)
    ensures |l| == |procs| && forall t :: 0 <= t < |procs| ==> l[t] == Moved(procs[t])
  {
    seq(|procs|, t requires 0 <= t < |procs| => Moved(procs[t]))
  }

  /** The bytes moved by the calls ids, one after the other. */
  function Collect(moved: seq<seq<Byte>>, ids: seq<Tid>): seq<Byte> {
    if ids == [] then []
    else
      var t := ids[|ids| - 1];
      Collect(moved, ids[..|ids| - 1]) + if t < |moved| then moved[t] else []
  }

  /** The read is between receiving from wrCh and sending on rdCh. */
  predicate Serving(p: Proc) { p.Reader? && (p.rpc.RCopy? || p.rpc.RReply?) }

  /** The write has wrMu. */
  predicate Holding(p: Proc) {
    p.Writer? && (p.wpc.WLoop? || p.wpc.WWait? || p.wpc.WUnlock? || p.wpc.WPanic?
                  || (p.wpc.WLoad? && p.wpc.held) || (p.wpc.WLoadOther? && p.wpc.held))
  }

  /** What has been copied but not yet acknowledged. */
  function InFlight(s: State): seq<Byte> {
    if |s.takes| > 0 && s.takes[|s.takes| - 1] < |s.procs| && Serving(s.procs[s.takes[|s.takes| - 1]])
    then s.procs[s.takes[|s.takes| - 1]].got else []
  }

  predicate Distinct(ids: seq<Tid>) {
    forall i, j :: 0 <= i < j < |ids| ==> ids[i] != ids[j]
  }

  /** An error a read (mine = rerr, other = werr) or a write may report. */
  predicate Reportable(s: State, mine: Option<Err>, other: Option<Err>, err: Err) {
    s.done && (other == Some(err) || (err == ErrClosedPipe && mine.Some?))
  }

  predicate ReaderOk(s: State, t: Tid)
    requires t < |s.procs| && s.procs[t].Reader?
  {
    var p := s.procs[t];
    && |p.got| <= p.size
    && (t in s.takes <==> Serving(p) || (p.rpc.RReturned? && p.rpc.err.None?))
    && (Serving(p) ==> s.takes[|s.takes| - 1] == t && s.wrMu.Some? && s.wrMu.value < |s.procs|
                       && s.procs[s.wrMu.value].Writer? && s.procs[s.wrMu.value].wpc.WWait?
                       && Fits(p, s.procs[s.wrMu.value]))
    && (!p.rpc.RReply? && !p.rpc.RReturned? ==> p.got == [])
    && (p.rpc.RReturned? ==> p.rpc.n == |p.got| && (p.rpc.err.Some? ==> p.got == [] && Reportable(s, s.rerr, s.werr, p.rpc.err.value)))
    && (p.rpc.RLoad? ==> s.done)
    && (p.rpc.RLoadOther? ==> s.done && if p.rpc.rerr.None? then s.werr.Some? else s.rerr == p.rpc.rerr)
  }

  /** The reader is working on what is left of the writer's data. */
  predicate Fits(p: Proc, q: Proc)
    requires Serving(p) && q.Writer?
  {
    (p.rpc.RCopy? ==> p.rpc.bw == q.b) && (p.rpc.RReply? ==> |p.got| == Min(p.size, |q.b|) && p.got == q.b[..|p.got|])
  }

  predicate WriterOk(s: State, t: Tid)
    requires t < |s.procs| && s.procs[t].Writer?
  {
    var p := s.procs[t];
    && p.n <= |p.data| && p.b == p.data[p.n..]
    && (s.wrMu == Some(t) <==> Holding(p))
    && (Holding(p) ==> |s.locks| > 0 && s.locks[|s.locks| - 1] == t)
    && (t in s.locks <==> Holding(p) || (p.wpc.WReturned? && t in s.locks))
    && (t !in s.locks ==> p.n == 0 && (p.wpc.WReturned? ==> p.wpc.err.Some?))
    && !p.wpc.WPanic?
    && (p.wpc.WLoop? && p.wpc.once ==> p.n == 0)
    && (p.wpc.WWait? ==> (|p.b| > 0 || p.data == []) && |s.takes| > 0 && s.takes[|s.takes| - 1] < |s.procs|
                         && Serving(s.procs[s.takes[|s.takes| - 1]]))
    && ((p.wpc.WLoad? || p.wpc.WLoadOther?) ==> s.done && (|p.b| > 0 || p.data == []))
    && (p.wpc.WLoadOther? ==> if p.wpc.werr.None? then s.rerr.Some? else s.werr == p.wpc.werr)
    && (p.wpc.WUnlock? || p.wpc.WReturned? ==> Outcome(s, p, p.wpc.err))
  }

  /** The result of a write: everything, or an error and not everything. */
  predicate Outcome(s: State, p: Proc, err: Option<Err>)
    requires p.Writer?
  {
    if err.None? then p.n == |p.data|
    else (p.n < |p.data| || p.data == []) && Reportable(s, s.werr, s.rerr, err.value)
  }

  predicate CloserOk(s: State, p: Proc)
    requires p.Closer?
  {
    !p.cpc.CStore? ==> if p.readEnd then s.rerr.Some? else s.werr.Some?
  }

  predicate ProcOk(s: State, t: Tid)
    requires t < |s.procs|
  {
    if s.procs[t].Reader? then ReaderOk(s, t)
    else if s.procs[t].Writer? then WriterOk(s, t)
    else CloserOk(s, s.procs[t])
  }

  predicate LogsOk(s: State) {
    && Distinct(s.locks) && Distinct(s.takes)
    && (forall t :: t in s.locks ==> t < |s.procs| && s.procs[t].Writer?)
    && (forall t :: t in s.takes ==> t < |s.procs| && s.procs[t].Reader?)
    && (s.wrMu.Some? ==> s.wrMu.value < |s.procs| && Holding(s.procs[s.wrMu.value]))
    && (s.done ==> s.rerr.Some? || s.werr.Some?)
  }

  /** No byte lost, repeated or reordered. */
  predicate Conserved(s: State) {
    Collect(Ledger(s.procs), s.takes) == Collect(Ledger(s.procs), s.locks) + InFlight(s)
  }

  predicate Inv(s: State) {
    LogsOk(s) && Conserved(s) && forall t :: 0 <= t < |s.procs| ==> ProcOk(s, t)
  }

  predicate Below(ids: seq<Tid>, n: nat) {
    forall i :: 0 <= i < |ids| ==> ids[i] < n
  }

  /** A call that is not listed may change. */
  lemma {:induction false} CollectOther(moved: seq<seq<Byte>>, ids: seq<Tid>, t: Tid, v: seq<Byte>)
    requires t < |moved| && forall i :: 0 <= i < |ids| ==> ids[i] != t
    ensures Collect(moved[t := v], ids) == Collect(moved, ids)
  {
    if ids == [] {
    } else {
      CollectOther(moved, ids[..|ids| - 1], t, v);
    }
  }

  lemma {:induction false} CollectGrow(moved: seq<seq<Byte>>, ids: seq<Tid>, v: seq<Byte>)
    requires Below(ids, |moved|)
    ensures Collect(moved + [v], ids) == Collect(moved, ids)
  {
    if ids == [] {
    } else {
      CollectGrow(moved, ids[..|ids| - 1], v);
    }
  }

  lemma CollectLast(moved: seq<seq<Byte>>, ids: seq<Tid>, t: Tid)
    requires t < |moved|
    ensures Collect(moved, ids + [t]) == Collect(moved, ids) + moved[t]
  {
    var all := ids + [t];
    assert all[..|all| - 1] == ids && all[|all| - 1] == t;
  }

  /** The last of the calls moves something more. */
  lemma CollectMore(moved: seq<seq<Byte>>, ids: seq<Tid>, t: Tid, more: seq<Byte>)
    requires |ids| > 0 && ids[|ids| - 1] == t && Distinct(ids) && t < |moved|
    ensures Collect(moved[t := moved[t] + more], ids) == Collect(moved, ids) + more
  {
    var init := ids[..|ids| - 1];
    CollectOther(moved, init, t, moved[t] + more);
    Regroup(Collect(moved, init), moved[t], more);
  }

  lemma Regroup(a: seq<Byte>, b: seq<Byte>, c: seq<Byte>)
    ensures a + (b + c) == (a + b) + c
  {
  }

  lemma LogsRange(s: State, t: Tid)
    requires LogsOk(s) && t < |s.procs|
    ensures Distinct(s.locks) && Distinct(s.takes) && Below(s.locks, |s.procs|) && Below(s.takes, |s.procs|)
    ensures s.procs[t].Reader? ==> forall i :: 0 <= i < |s.locks| ==> s.locks[i] != t
    ensures s.procs[t].Writer? ==> forall i :: 0 <= i < |s.takes| ==> s.takes[i] != t
  {
    hide Distinct;
    assert forall i :: 0 <= i < |s.locks| ==> s.locks[i] in s.locks;
    assert forall i :: 0 <= i < |s.takes| ==> s.takes[i] in s.takes;
  }

  /** A step in which nobody moves bytes. */
  lemma CarrySame(s: State, s': State)
    requires Conserved(s) && s'.takes == s.takes && s'.locks == s.locks
    requires InFlight(s') == InFlight(s) && Ledger(s'.procs) == Ledger(s.procs)
    ensures Conserved(s')
  {
    hide InFlight, Ledger, Collect;
  }

  /** The read at the end of the log copies what is then in flight. */
  lemma CarryCopy(s: State, s': State, t: Tid)
    requires LogsOk(s) && Conserved(s) && t < |s.procs| && s.procs[t].Reader?
    requires s'.takes == s.takes && s'.locks == s.locks && |s.takes| > 0 && s.takes[|s.takes| - 1] == t && InFlight(s) == []
    requires Ledger(s'.procs) == Ledger(s.procs)[t := Ledger(s.procs)[t] + InFlight(s')]
    ensures Conserved(s')
  {
    LogsRange(s, t);
    hide InFlight, LogsOk, Ledger, Collect, Distinct, Below;
    var l, more := Ledger(s.procs), InFlight(s');
    assert Collect(l, s.takes) == Collect(l, s.locks) by { assert Collect(l, s.locks) + [] == Collect(l, s.locks); }
    hide Conserved;
    CollectMore(l, s.takes, t, more);
    CollectOther(l, s.locks, t, l[t] + more);
    Conserving(s');
  }

  lemma Conserving(s: State)
    requires Collect(Ledger(s.procs), s.takes) == Collect(Ledger(s.procs), s.locks) + InFlight(s)
    ensures Conserved(s)
  {
    hide Collect, Ledger, InFlight;
  }

  /** A write that has consumed nothing takes the lock. */
  lemma CarryLock(s: State, s': State, t: Tid)
    requires Conserved(s) && t < |s.procs| && Ledger(s.procs)[t] == []
    requires s'.takes == s.takes && s'.locks == s.locks + [t] && InFlight(s') == InFlight(s) && Ledger(s'.procs) == Ledger(s.procs)
    ensures Conserved(s')
  {
    hide InFlight, Ledger, Collect;
    CollectLast(Ledger(s.procs), s.locks, t);
  }

  lemma CarryTake(s: State, s': State, t: Tid)
    requires Conserved(s) && t < |s.procs| && Ledger(s.procs)[t] == []
    requires s'.takes == s.takes + [t] && s'.locks == s.locks && InFlight(s') == InFlight(s) && Ledger(s'.procs) == Ledger(s.procs)
    ensures Conserved(s')
  {
    hide InFlight, Ledger, Collect;
    CollectLast(Ledger(s.procs), s.takes, t);
  }

  lemma CarryStart(s: State, s': State)
    requires Conserved(s) && Below(s.locks, |s.procs|) && Below(s.takes, |s.procs|)
    requires s'.takes == s.takes && s'.locks == s.locks && InFlight(s') == InFlight(s) && Ledger(s'.procs) == Ledger(s.procs) + [[]]
    ensures Conserved(s')
  {
    hide InFlight, Ledger, Collect, Below;
    CollectGrow(Ledger(s.procs), s.locks, []);
    CollectGrow(Ledger(s.procs), s.takes, []);
  }

  /** Everything the invariant of a call u depends on, apart from the call itself, is as it was. */
  predicate Stable(s: State, s': State, u: Tid)
    requires u < |s.procs|
  {
    var p := s.procs[u];
    && |s.procs| <= |s'.procs| && s'.procs[u] == p
    && (s.done ==> s'.done) && (s.rerr.Some? ==> s'.rerr == s.rerr) && (s.werr.Some? ==> s'.werr == s.werr)
    && (u in s'.takes <==> u in s.takes) && (u in s'.locks <==> u in s.locks)
    && (s'.wrMu == Some(u) <==> s.wrMu == Some(u))
    && (Holding(p) ==> s'.locks == s.locks)
    && (Serving(p) ==> s'.takes == s.takes && s'.wrMu == s.wrMu
                       && (s.wrMu.Some? && s.wrMu.value < |s.procs| ==> s'.procs[s.wrMu.value] == s.procs[s.wrMu.value]))
    && (p.Writer? && p.wpc.WWait? && |s.takes| > 0 && s.takes[|s.takes| - 1] < |s.procs| && Serving(s.procs[s.takes[|s.takes| - 1]])
        ==> s'.takes == s.takes && Serving(s'.procs[s.takes[|s.takes| - 1]]))
  }

  lemma StableKept(s: State, s': State, u: Tid)
    requires u < |s.procs| && ProcOk(s, u) && Stable(s, s', u)
    ensures ProcOk(s', u)
  {
    if s.procs[u].Reader? { StableReader(s, s', u); }
    else if s.procs[u].Writer? { StableWriter(s, s', u); }
  }

  lemma StableReader(s: State, s': State, u: Tid)
    requires u < |s.procs| && s.procs[u].Reader? && ReaderOk(s, u) && Stable(s, s', u)
    ensures ReaderOk(s', u)
  {
    hide Fits;
  }

  lemma StableWriter(s: State, s': State, u: Tid)
    requires u < |s.procs| && s.procs[u].Writer? && WriterOk(s, u) && Stable(s, s', u)
    ensures WriterOk(s', u)
  {
  }

  /** Every call but t is untouched by the step, and t is fine afterwards. */
  lemma AllKept(s: State, s': State, t: Tid)
    requires Inv(s) && t < |s.procs| == |s'.procs| && ProcOk(s', t) && LogsOk(s') && Conserved(s')
    requires forall u :: 0 <= u < |s.procs| && u != t ==> Stable(s, s', u)
    ensures Inv(s')
  {
    hide ProcOk, Stable, LogsOk, Conserved;
    forall u | 0 <= u < |s'.procs| ensures ProcOk(s', u) { if u != t { StableKept(s, s', u); } }
  }

  lemma InvAt(s: State, t: Tid)
    requires Inv(s) && t < |s.procs|
    ensures LogsOk(s) && Conserved(s) && ProcOk(s, t)
  {
    hide ProcOk, LogsOk, Conserved;
  }

  /** In a step of t alone, the calls that do not depend on t stay as they are. */
  lemma OthersStable(s: State, s': State, t: Tid, u: Tid)
    requires Inv(s) && t < |s.procs| == |s'.procs| && u < |s.procs| && u != t
    requires (s.done ==> s'.done) && (s.rerr.Some? ==> s'.rerr == s.rerr) && (s.werr.Some? ==> s'.werr == s.werr)
    requires s'.takes == s.takes && s'.locks == s.locks && s'.wrMu == s.wrMu
    requires forall v :: 0 <= v < |s.procs| && v != t ==> s'.procs[v] == s.procs[v]
    requires Serving(s'.procs[t]) == Serving(s.procs[t]) && !(s.procs[t].Writer? && s.procs[t].wpc.WWait?)
    ensures Stable(s, s', u)
  {
    InvAt(s, u);
    hide Inv, Conserved, LogsOk, Fits, Outcome, Reportable;
  }

  lemma ReadKept(s: State, t: Tid)
    requires Inv(s) && Can(s, Local(t)) && s.procs[t].Reader?
    ensures Inv(ReadStep(s, t))
  {
    var s' := ReadStep(s, t);
    hide Inv, ReadStep, ProcOk, LogsOk, Conserved, Stable;
    InvAt(s, t);
    ReadOwn(s, t);
    ReadLogs(s, t);
    ReadConserved(s, t);
    forall u | 0 <= u < |s.procs| && u != t ensures Stable(s, s', u) { ReadOthers(s, t, u); }
    AllKept(s, s', t);
  }

  lemma ReadOwn(s: State, t: Tid)
    requires LogsOk(s) && Can(s, Local(t)) && s.procs[t].Reader? && ProcOk(s, t)
    ensures ProcOk(ReadStep(s, t), t) && |ReadStep(s, t).procs| == |s.procs|
  {
    hide Distinct;
  }

  lemma ReadLogs(s: State, t: Tid)
    requires LogsOk(s) && Can(s, Local(t)) && s.procs[t].Reader? && ProcOk(s, t)
    ensures LogsOk(ReadStep(s, t))
  {
    hide Distinct;
  }

  lemma ReadOthers(s: State, t: Tid, u: Tid)
    requires Inv(s) && Can(s, Local(t)) && s.procs[t].Reader? && u < |s.procs| && u != t
    ensures Stable(s, ReadStep(s, t), u)
  {
    hide Inv, Stable;
    OthersStable(s, ReadStep(s, t), t, u);
  }

  lemma ReadMoved(s: State, t: Tid)
    requires Can(s, Local(t)) && s.procs[t].Reader? && ReaderOk(s, t) && !s.procs[t].rpc.RCopy?
    ensures var s' := ReadStep(s, t);
      s'.takes == s.takes && s'.locks == s.locks && InFlight(s') == InFlight(s) && Ledger(s'.procs) == Ledger(s.procs)
  {
    hide Fits, Reportable, Min;
  }

  lemma ReadCopied(s: State, t: Tid)
    requires Can(s, Local(t)) && s.procs[t].Reader? && ReaderOk(s, t) && s.procs[t].rpc.RCopy?
    ensures var s' := ReadStep(s, t);
      s'.takes == s.takes && s'.locks == s.locks && |s.takes| > 0 && s.takes[|s.takes| - 1] == t && InFlight(s) == []
      && Ledger(s'.procs) == Ledger(s.procs)[t := Ledger(s.procs)[t] + InFlight(s')]
  {
    hide Fits, Reportable, Min;
    var s' := ReadStep(s, t);
    assert InFlight(s') == s'.procs[t].got;
    assert Moved(s'.procs[t]) == Moved(s.procs[t]) + s'.procs[t].got;
    hide InFlight;
  }

  lemma ReadConserved(s: State, t: Tid)
    requires LogsOk(s) && Conserved(s) && Can(s, Local(t)) && s.procs[t].Reader? && ProcOk(s, t)
    ensures Conserved(ReadStep(s, t))
  {
    hide Conserved, ReadStep, LogsOk, InFlight, Ledger, ReaderOk;
    if s.procs[t].rpc.RCopy? {
      ReadCopied(s, t);
      CarryCopy(s, ReadStep(s, t), t);
    } else {
      ReadMoved(s, t);
      CarrySame(s, ReadStep(s, t));
    }
  }

  lemma WriteKept(s: State, t: Tid)
    requires Inv(s) && Can(s, Local(t)) && s.procs[t].Writer?
    ensures Inv(WriteStep(s, t))
  {
    var s' := WriteStep(s, t);
    hide Inv, WriteStep, ProcOk, LogsOk, Conserved, Stable;
    InvAt(s, t);
    WriteOwn(s, t);
    WriteLogs(s, t);
    WriteConserved(s, t);
    forall u | 0 <= u < |s.procs| && u != t ensures Stable(s, s', u) { WriteOthers(s, t, u); }
    AllKept(s, s', t);
  }

  lemma WriteOwn(s: State, t: Tid)
    requires LogsOk(s) && Can(s, Local(t)) && s.procs[t].Writer? && ProcOk(s, t)
    ensures ProcOk(WriteStep(s, t), t) && |WriteStep(s, t).procs| == |s.procs|
  {
    hide Distinct;
  }

  lemma WriteLogs(s: State, t: Tid)
    requires LogsOk(s) && Can(s, Local(t)) && s.procs[t].Writer? && ProcOk(s, t)
    ensures LogsOk(WriteStep(s, t))
  {
    if s.procs[t].wpc.WLock? {
      LockLogs(s, t);
    } else {
      OtherLogs(s, t);
    }
  }

  lemma OtherLogs(s: State, t: Tid)
    requires LogsOk(s) && Can(s, Local(t)) && s.procs[t].Writer? && !s.procs[t].wpc.WLock?
    ensures LogsOk(WriteStep(s, t))
  {
    hide Distinct;
  }

  lemma LockLogs(s: State, t: Tid)
    requires LogsOk(s) && Can(s, Local(t)) && s.procs[t].Writer? && s.procs[t].wpc.WLock? && WriterOk(s, t)
    ensures LogsOk(WriteStep(s, t))
  {
    assert t !in s.locks;
    hide WriterOk;
    DistinctAppend(s.locks, t);
    hide Distinct;
  }

  lemma WriteOthers(s: State, t: Tid, u: Tid)
    requires Inv(s) && Can(s, Local(t)) && s.procs[t].Writer? && u < |s.procs| && u != t
    ensures Stable(s, WriteStep(s, t), u)
  {
    hide Inv, Stable;
    if s.procs[t].wpc.WLock? || s.procs[t].wpc.WUnlock? {
      IdleStable(s, t, u);
    } else {
      OthersStable(s, WriteStep(s, t), t, u);
    }
  }

  /** Taking and releasing wrMu happens while no read is served and no other write holds it. */
  lemma IdleStable(s: State, t: Tid, u: Tid)
    requires Inv(s) && Can(s, Local(t)) && s.procs[t].Writer? && (s.procs[t].wpc.WLock? || s.procs[t].wpc.WUnlock?)
    requires u < |s.procs| && u != t
    ensures Stable(s, WriteStep(s, t), u)
  {
    Idle(s, t, u);
    hide Inv;
  }

  lemma Idle(s: State, t: Tid, u: Tid)
    requires Inv(s) && Can(s, Local(t)) && s.procs[t].Writer? && (s.procs[t].wpc.WLock? || s.procs[t].wpc.WUnlock?)
    requires u < |s.procs| && u != t
    ensures !Serving(s.procs[u]) && !Holding(s.procs[u]) && s.wrMu != Some(u)
  {
    InvAt(s, u);
    InvAt(s, t);
    hide Inv, Conserved, Fits, LogsOk, Outcome, Reportable;
  }

  lemma DistinctAppend(ids: seq<Tid>, t: Tid)
    requires Distinct(ids) && t !in ids
    ensures Distinct(ids + [t])
  {
  }

  lemma WriteMoved(s: State, t: Tid)
    requires Can(s, Local(t)) && s.procs[t].Writer? && WriterOk(s, t)
    ensures var s' := WriteStep(s, t);
      s'.takes == s.takes && s'.locks == (if s.procs[t].wpc.WLock? then s.locks + [t] else s.locks)
      && InFlight(s') == InFlight(s) && Ledger(s'.procs) == Ledger(s.procs)
      && (s.procs[t].wpc.WLock? ==> Ledger(s.procs)[t] == [])
  {
    hide Outcome, Reportable;
  }

  lemma WriteConserved(s: State, t: Tid)
    requires LogsOk(s) && Conserved(s) && Can(s, Local(t)) && s.procs[t].Writer? && ProcOk(s, t)
    ensures Conserved(WriteStep(s, t))
  {
    hide Conserved, WriteStep, LogsOk, InFlight, Ledger, WriterOk;
    WriteMoved(s, t);
    if s.procs[t].wpc.WLock? { CarryLock(s, WriteStep(s, t), t); } else { CarrySame(s, WriteStep(s, t)); }
  }

  lemma CloseKept(s: State, t: Tid)
    requires Inv(s) && Can(s, Local(t)) && s.procs[t].Closer?
    ensures Inv(CloseStep(s, t))
  {
    var s' := CloseStep(s, t);
    hide Inv, CloseStep, ProcOk, LogsOk, Conserved, Stable;
    InvAt(s, t);
    CloseOwn(s, t);
    CloseLogs(s, t);
    CloseConserved(s, t);
    forall u | 0 <= u < |s.procs| && u != t ensures Stable(s, s', u) { CloseOthers(s, t, u); }
    AllKept(s, s', t);
  }

  lemma CloseOwn(s: State, t: Tid)
    requires LogsOk(s) && Can(s, Local(t)) && s.procs[t].Closer? && ProcOk(s, t)
    ensures ProcOk(CloseStep(s, t), t) && |CloseStep(s, t).procs| == |s.procs|
  {
    hide Distinct;
  }

  lemma CloseLogs(s: State, t: Tid)
    requires LogsOk(s) && Can(s, Local(t)) && s.procs[t].Closer? && ProcOk(s, t)
    ensures LogsOk(CloseStep(s, t))
  {
    hide Distinct;
  }

  lemma CloseOthers(s: State, t: Tid, u: Tid)
    requires Inv(s) && Can(s, Local(t)) && s.procs[t].Closer? && u < |s.procs| && u != t
    ensures Stable(s, CloseStep(s, t), u)
  {
    hide Inv, Stable;
    OthersStable(s, CloseStep(s, t), t, u);
  }

  lemma CloseMoved(s: State, t: Tid)
    requires Can(s, Local(t)) && s.procs[t].Closer?
    ensures var s' := CloseStep(s, t);
      s'.takes == s.takes && s'.locks == s.locks && InFlight(s') == InFlight(s) && Ledger(s'.procs) == Ledger(s.procs)
  {
  }

  lemma CloseConserved(s: State, t: Tid)
    requires LogsOk(s) && Conserved(s) && Can(s, Local(t)) && s.procs[t].Closer? && ProcOk(s, t)
    ensures Conserved(CloseStep(s, t))
  {
    hide *;
    CloseMoved(s, t);
    CarrySame(s, CloseStep(s, t));
  }

  lemma SeeDoneKept(s: State, t: Tid)
    requires Inv(s) && Can(s, SeeDone(t))
    ensures Inv(SeeDoneStep(s, t))
  {
    var s' := SeeDoneStep(s, t);
    hide Inv, SeeDoneStep, ProcOk, LogsOk, Conserved, Stable;
    InvAt(s, t);
    SeeDoneOwn(s, t);
    SeeDoneLogs(s, t);
    SeeDoneConserved(s, t);
    forall u | 0 <= u < |s.procs| && u != t ensures Stable(s, s', u) { SeeDoneOthers(s, t, u); }
    AllKept(s, s', t);
  }

  lemma SeeDoneOwn(s: State, t: Tid)
    requires LogsOk(s) && Can(s, SeeDone(t)) && ProcOk(s, t)
    ensures ProcOk(SeeDoneStep(s, t), t) && |SeeDoneStep(s, t).procs| == |s.procs|
  {
    hide Distinct;
  }

  lemma SeeDoneLogs(s: State, t: Tid)
    requires LogsOk(s) && Can(s, SeeDone(t)) && ProcOk(s, t)
    ensures LogsOk(SeeDoneStep(s, t))
  {
    hide Distinct;
  }

  lemma SeeDoneOthers(s: State, t: Tid, u: Tid)
    requires Inv(s) && Can(s, SeeDone(t)) && u < |s.procs| && u != t
    ensures Stable(s, SeeDoneStep(s, t), u)
  {
    hide Inv, Stable;
    OthersStable(s, SeeDoneStep(s, t), t, u);
  }

  lemma SeeDoneMoved(s: State, t: Tid)
    requires Can(s, SeeDone(t))
    ensures var s' := SeeDoneStep(s, t);
      s'.takes == s.takes && s'.locks == s.locks && InFlight(s') == InFlight(s) && Ledger(s'.procs) == Ledger(s.procs)
  {
  }

  lemma SeeDoneConserved(s: State, t: Tid)
    requires LogsOk(s) && Conserved(s) && Can(s, SeeDone(t)) && ProcOk(s, t)
    ensures Conserved(SeeDoneStep(s, t))
  {
    hide *;
    SeeDoneMoved(s, t);
    CarrySame(s, SeeDoneStep(s, t));
  }

  lemma StartKept(s: State, call: Call)
    requires Inv(s)
    ensures Inv(Step(s, Start(call)))
  {
    hide Inv, ProcOk, LogsOk, Conserved, NewProc, Step;
    var s' := Step(s, Start(call));
    var n := |s.procs|;
    StartGrows(s, call);
    InvParts(s);
    StartRest(s, call);
    StartOwn(s, call);
    forall u | 0 <= u < n ensures ProcOk(s', u) { StartStable(s, call, u); }
    Assemble(s');
  }

  lemma StartGrows(s: State, call: Call)
    ensures |Step(s, Start(call)).procs| == |s.procs| + 1
  {
    hide NewProc;
  }

  lemma InvParts(s: State)
    requires Inv(s)
    ensures LogsOk(s) && Conserved(s)
  {
    hide ProcOk, LogsOk, Conserved;
  }

  lemma Assemble(s: State)
    requires LogsOk(s) && Conserved(s) && forall u :: 0 <= u < |s.procs| ==> ProcOk(s, u)
    ensures Inv(s)
  {
    hide ProcOk, LogsOk, Conserved;
  }

  lemma StartStable(s: State, call: Call, u: Tid)
    requires Inv(s) && u < |s.procs|
    ensures ProcOk(Step(s, Start(call)), u)
  {
    hide Inv, ProcOk, LogsOk, Conserved, Stable, Distinct;
    InvAt(s, u);
    NewcomerStable(s, call, u);
    StableKept(s, Step(s, Start(call)), u);
  }

  /** A call that starts disturbs nobody. */
  lemma NewcomerStable(s: State, call: Call, u: Tid)
    requires u < |s.procs| && ProcOk(s, u)
    ensures Stable(s, Step(s, Start(call)), u)
  {
    hide NewProc, Fits, Outcome, Reportable;
  }

  lemma StartRest(s: State, call: Call)
    requires LogsOk(s) && Conserved(s)
    ensures Conserved(Step(s, Start(call))) && LogsOk(Step(s, Start(call)))
  {
    hide Conserved, InFlight, Ledger, LogsOk;
    StartLogs(s, call);
    StartMoved(s, call);
    CarryStart(s, Step(s, Start(call)));
  }

  lemma StartMoved(s: State, call: Call)
    requires LogsOk(s)
    ensures Below(s.locks, |s.procs|) && Below(s.takes, |s.procs|)
    ensures InFlight(Step(s, Start(call))) == InFlight(s) && Ledger(Step(s, Start(call)).procs) == Ledger(s.procs) + [[]]
  {
    var s' := Step(s, Start(call));
    assert Below(s.locks, |s.procs|) && Below(s.takes, |s.procs|) by {
      assert forall i :: 0 <= i < |s.locks| ==> s.locks[i] in s.locks;
      assert forall i :: 0 <= i < |s.takes| ==> s.takes[i] in s.takes;
    }
    hide LogsOk;
    assert InFlight(s) == InFlight(s');
    hide InFlight;
  }

  lemma StartLogs(s: State, call: Call)
    requires LogsOk(s)
    ensures LogsOk(Step(s, Start(call)))
  {
    hide Distinct, Holding;
  }

  lemma StartOwn(s: State, call: Call)
    requires LogsOk(s)
    ensures ProcOk(Step(s, Start(call)), |s.procs|)
  {
    hide Distinct;
    assert |s.procs| !in s.locks && |s.procs| !in s.takes;
  }

  /** The writer about to send has the lock, so no read is being served. */
  lemma NobodyServed(s: State, w: Tid, r: Tid)
    requires Inv(s) && Can(s, Send(w, r))
    ensures s.wrMu == Some(w) && InFlight(s) == [] && r !in s.takes && s.procs[r].got == []
    ensures forall u :: 0 <= u < |s.procs| ==> !Serving(s.procs[u])
    ensures forall u :: 0 <= u < |s.procs| && u != w ==> !Holding(s.procs[u])
  {
    hide Conserved, Distinct, Fits;
    assert ProcOk(s, w) && ProcOk(s, r);
    forall u | 0 <= u < |s.procs| ensures !Serving(s.procs[u]) && (u != w ==> !Holding(s.procs[u])) { assert ProcOk(s, u); }
  }

  lemma SendKept(s: State, w: Tid, r: Tid)
    requires Inv(s) && Can(s, Send(w, r))
    ensures Inv(SendStep(s, w, r))
  {
    var s' := SendStep(s, w, r);
    assert |s'.procs| == |s.procs|;
    NobodyServed(s, w, r);
    InvAt(s, w);
    InvAt(s, r);
    hide Inv, ProcOk, Conserved, LogsOk, SendStep, InFlight;
    SendOwn(s, w, r);
    SendConserved(s, w, r);
    forall u | 0 <= u < |s.procs| ensures ProcOk(s', u) { if u != w && u != r { SendOther(s, w, r, u); } }
    Assemble(s');
  }

  lemma SendOther(s: State, w: Tid, r: Tid, u: Tid)
    requires Inv(s) && Can(s, Send(w, r)) && u < |s.procs| && u != w && u != r
    ensures ProcOk(SendStep(s, w, r), u)
  {
    NobodyServed(s, w, r);
    InvAt(s, u);
    assert Stable(s, SendStep(s, w, r), u) by { hide Inv, ProcOk, Conserved, LogsOk, InFlight; }
    hide Inv, ProcOk, Stable, Conserved, LogsOk, SendStep, InFlight;
    StableKept(s, SendStep(s, w, r), u);
  }

  lemma SendOwn(s: State, w: Tid, r: Tid)
    requires LogsOk(s) && Can(s, Send(w, r)) && ProcOk(s, w) && ProcOk(s, r) && r !in s.takes
    ensures ProcOk(SendStep(s, w, r), w) && ProcOk(SendStep(s, w, r), r) && LogsOk(SendStep(s, w, r))
  {
    DistinctAppend(s.takes, r);
    hide Distinct;
    var s' := SendStep(s, w, r);
    assert s'.takes[|s'.takes| - 1] == r;
    assert forall u :: u in s'.takes <==> u in s.takes || u == r;
  }

  lemma SendMoved(s: State, w: Tid, r: Tid)
    requires Can(s, Send(w, r)) && s.procs[r].got == []
    ensures Ledger(SendStep(s, w, r).procs) == Ledger(s.procs) && Ledger(s.procs)[r] == [] && InFlight(SendStep(s, w, r)) == []
  {
    assert InFlight(SendStep(s, w, r)) == [];
    hide InFlight;
  }

  lemma SendConserved(s: State, w: Tid, r: Tid)
    requires LogsOk(s) && Conserved(s) && Can(s, Send(w, r)) && InFlight(s) == [] && s.procs[r].got == []
    ensures Conserved(SendStep(s, w, r))
  {
    hide Conserved, InFlight, Ledger, LogsOk;
    SendMoved(s, w, r);
    CarryTake(s, SendStep(s, w, r), r);
  }

  /** The only reader sending on rdCh and the only writer receiving from it are partners. */
  lemma Partners(s: State, r: Tid, w: Tid)
    requires Inv(s) && Can(s, Ack(r, w))
    ensures s.wrMu == Some(w) && |s.takes| > 0 && s.takes[|s.takes| - 1] == r && |s.locks| > 0 && s.locks[|s.locks| - 1] == w
    ensures var p, q := s.procs[r], s.procs[w];
      |p.got| == Min(p.size, |q.b|) && p.got == q.b[..|p.got|] && q.n <= |q.data| && q.b == q.data[q.n..]
    ensures forall u :: 0 <= u < |s.procs| && u != r ==> !Serving(s.procs[u])
    ensures forall u :: 0 <= u < |s.procs| && u != w ==> !Holding(s.procs[u])
  {
    hide Conserved, Distinct;
    assert ProcOk(s, w) && ProcOk(s, r);
    forall u | 0 <= u < |s.procs| ensures (u != r ==> !Serving(s.procs[u])) && (u != w ==> !Holding(s.procs[u])) {
      assert ProcOk(s, u);
    }
  }

  lemma AckKept(s: State, r: Tid, w: Tid)
    requires Inv(s) && Can(s, Ack(r, w))
    ensures Inv(AckStep(s, r, w))
  {
    var s' := AckStep(s, r, w);
    assert |s'.procs| == |s.procs|;
    Partners(s, r, w);
    InvAt(s, w);
    InvAt(s, r);
    hide Inv, ProcOk, Conserved, LogsOk, AckStep;
    AckOwn(s, r, w);
    AckConserved(s, r, w);
    forall u | 0 <= u < |s.procs| ensures ProcOk(s', u) { if u != w && u != r { AckOther(s, r, w, u); } }
    Assemble(s');
  }

  lemma AckOther(s: State, r: Tid, w: Tid, u: Tid)
    requires Inv(s) && Can(s, Ack(r, w)) && u < |s.procs| && u != w && u != r
    ensures ProcOk(AckStep(s, r, w), u)
  {
    Partners(s, r, w);
    InvAt(s, u);
    assert Stable(s, AckStep(s, r, w), u) by { hide Inv, ProcOk, Conserved, LogsOk; }
    hide Inv, ProcOk, Stable, Conserved, LogsOk, AckStep;
    StableKept(s, AckStep(s, r, w), u);
  }

  lemma AckOwn(s: State, r: Tid, w: Tid)
    requires LogsOk(s) && Can(s, Ack(r, w)) && ProcOk(s, w) && ProcOk(s, r) && |s.procs[r].got| <= |s.procs[w].b|
    ensures ProcOk(AckStep(s, r, w), w) && ProcOk(AckStep(s, r, w), r) && LogsOk(AckStep(s, r, w))
  {
    hide Distinct, Fits;
  }

  lemma AckMoved(s: State, r: Tid, w: Tid)
    requires Inv(s) && Can(s, Ack(r, w))
    ensures var s' := AckStep(s, r, w);
      s'.takes == s.takes && s'.locks == s.locks && InFlight(s') == []
      && |s.locks| > 0 && s.locks[|s.locks| - 1] == w
      && Ledger(s'.procs) == Ledger(s.procs)[w := Ledger(s.procs)[w] + InFlight(s)]
  {
    Partners(s, r, w);
    hide Inv;
    var s' := AckStep(s, r, w);
    assert InFlight(s) == s.procs[r].got;
    assert Moved(s'.procs[w]) == Moved(s.procs[w]) + s.procs[r].got by { hide InFlight; }
    assert Moved(s'.procs[r]) == Moved(s.procs[r]) by { hide InFlight; }
    assert InFlight(s') == [];
    hide InFlight;
  }

  /** The write at the end of the log has consumed what was in flight. */
  lemma CarryAck(s: State, s': State, w: Tid)
    requires LogsOk(s) && Conserved(s) && w < |s.procs| && s.procs[w].Writer?
    requires s'.takes == s.takes && s'.locks == s.locks && |s.locks| > 0 && s.locks[|s.locks| - 1] == w && InFlight(s') == []
    requires Ledger(s'.procs) == Ledger(s.procs)[w := Ledger(s.procs)[w] + InFlight(s)]
    ensures Conserved(s')
  {
    LogsRange(s, w);
    hide LogsOk, InFlight, Ledger, Collect, Distinct, Below;
    CollectMore(Ledger(s.procs), s.locks, w, InFlight(s));
    CollectOther(Ledger(s.procs), s.takes, w, Ledger(s.procs)[w] + InFlight(s));
  }

  lemma AckConserved(s: State, r: Tid, w: Tid)
    requires Inv(s) && Can(s, Ack(r, w))
    ensures Conserved(AckStep(s, r, w))
  {
    AckMoved(s, r, w);
    InvAt(s, w);
    hide AckStep, LogsOk, ProcOk, Inv, InFlight, Ledger, Conserved;
    CarryAck(s, AckStep(s, r, w), w);
  }

  lemma StepKept(s: State, m: Move)
    requires Inv(s) && Can(s, m)
    ensures Inv(Step(s, m))
  {
    hide Inv, ReadStep, WriteStep, CloseStep, SeeDoneStep, SendStep, AckStep;
    match m
    case Local(t) =>
      if s.procs[t].Reader? { ReadKept(s, t); } else if s.procs[t].Writer? { WriteKept(s, t); } else { CloseKept(s, t); }
    case SeeDone(t) => SeeDoneKept(s, t);
    case Send(w, r) => SendKept(s, w, r);
    case Ack(r, w) => AckKept(s, r, w);
    case Start(call) => StartKept(s, call);
  }

  lemma {:induction false} RunInv(run: seq<State>, n: nat)
    requires Run(run) && n < |run|
    ensures Inv(run[n])
  {
    if n == 0 {
    } else {
      RunInv(run, n - 1);
      assert Next(run[n - 1], run[n - 1 + 1]);
      var m :| Can(run[n - 1], m) && run[n] == Step(run[n - 1], m);
      hide Inv, Can, Step;
      StepKept(run[n - 1], m);
    }
  }
}
