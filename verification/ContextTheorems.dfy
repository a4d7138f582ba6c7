/** What the context package promises, for every state of every run. */
module ContextTheorems {
  import opened Wrappers
  import opened Context
  import opened ContextInv
  import opened ContextProof
  import opened ContextCalls

  /** d is a, or hangs below a through contexts whose propagateCancel has returned. */
  predicate Below(s: State, a: Id, d: Id)
    decreases d
  {
    d == a || (d < |s.cells| && !Propagating(s, d) && Up(s, d).Some? && Up(s, d).value < d && Below(s, a, Up(s, d).value))
  }

  /** Once a cancelled context is unlocked, everything below it is cancelled, and every AfterFunc
      below it has been started or stopped, exactly once. */
  lemma {:induction false} PropagationComplete(run: seq<State>, n: nat, a: Id, d: Id)
    requires Run(run) && n < |run|
    requires var s := run[n]; a < |s.cells| && s.cells[a].err.Some? && s.cells[a].lock.None? && Below(s, a, d)
    ensures var s := run[n];
      d < |s.cells| && s.cells[d].err.Some? && IsClosed(s.cells[d].done)
      && (d != a && s.cells[d].kind.After? ==> s.cells[d].starts + s.cells[d].stops == 1)
  {
    RunInv(run, n);
    var s := run[n];
    assert SweepOk(s, a) && CellOk(s, a);
    if d != a { BelowFinished(run, n, a, d); assert CellOk(s, d); }
  }

  lemma {:induction false} BelowFinished(run: seq<State>, n: nat, a: Id, d: Id)
    requires Run(run) && n < |run|
    requires a < |run[n].cells| && Swept(run[n], a) && Below(run[n], a, d) && d != a
    ensures Finished(run[n], d)
    decreases d
  {
    RunInv(run, n);
    hide Run;
    var s := run[n];
    var p := Up(s, d).value;
    if p == a {
    } else {
      BelowFinished(run, n, a, p);
    }
    RegisteredExactly(run, n, d);
    assert ChildOk(s, d);
  }

  /** By the time a CancelFunc (or a timer, or stop) has returned, every context that was made
      below the one it cancels, as far as the calls that made them have returned too, is cancelled
      with its Done channel closed, and f of every AfterFunc there has been started unless it was
      stopped. */
  lemma CancelReaches(run: seq<State>, m: nat, n: nat, call: Call, a: Id, d: Id)
    requires Run(run) && m < n < |run| && Begins(run[m], run[m + 1], call) && Target(call) == Some(a)
    requires call.StopCall? ==> !run[m].cells[a].once
    requires var t := |run[m].threads|; t < |run[n].threads| ==> run[n].threads[t] == []
    requires Below(run[n], a, d)
    ensures d < |run[n].cells| && run[n].cells[d].err.Some? && IsClosed(run[n].cells[d].done)
    ensures var cell := run[n].cells[d];
      cell.kind.After? ==>
        cell.starts == 1 || (cell.stops == 1 && exists k | 0 <= k < n :: Begins(run[k], run[k + 1], StopCall(d)))
  {
    CancelReturned(run, m, n, call, a);
    if d != a { BelowFinished(run, n, a, d); }
    RunInv(run, n);
    assert CellOk(run[n], d);
    if run[n].cells[d].stops > 0 { var k := StoppedByCall(run, n, d); }
  }

  /** WithCancel, WithDeadline and AfterFunc make a context of that kind below that parent. */
  lemma Created(run: seq<State>, m: nat, n: nat, kind: Kind, parent: Ctx)
    requires Run(run) && m < n < |run| && Begins(run[m], run[m + 1], NewCall(kind, parent))
    ensures var c := |run[m].cells|;
      c < |run[n].cells| && run[n].cells[c].kind == kind && run[n].cells[c].parent == parent
  {
    hide Run, Next;
    WrittenOnce(run, m + 1, n, |run[m].cells|);
  }

  /** The channel that a call of Done returns is the one that is closed when the context is
      cancelled: from then on it is never replaced. */
  lemma DoneDelivered(run: seq<State>, m: nat, n: nat, t: Tid, x: Id)
    requires Run(run) && m < n < |run| && Steps(run[m], run[m + 1], t, x)
    requires Top(run[m], t).DoneCall? && Enabled(run[m], t, x).value.top == []
    ensures var c := Top(run[m], t).c;
      && c < |run[m + 1].cells| && !run[m + 1].cells[c].done.NoChan?
      && c < |run[n].cells| && SameChan(run[m + 1].cells[c].done, run[n].cells[c].done)
  {
    RunInv(run, m);
    InvReady(run[m], t);
    hide Run, Next, Inv;
    WrittenOnce(run, m + 1, n, Top(run[m], t).c);
  }

  /** b is the channel a, later: the shared one, or the context's own, which may have been closed. */
  predicate SameChan(a: Chan, b: Chan) {
    (a.SharedClosed? <==> b.SharedClosed?) && !b.NoChan? && (IsClosed(a) ==> IsClosed(b))
  }

  /** A cancellation is never undone or overwritten: error and cause are written once. */
  lemma {:induction false} WrittenOnce(run: seq<State>, m: nat, n: nat, c: Id)
    requires Run(run) && m <= n < |run| && c < |run[m].cells|
    ensures c < |run[n].cells| && run[n].cells[c].parent == run[m].cells[c].parent && run[n].cells[c].kind == run[m].cells[c].kind
    ensures !run[m].cells[c].done.NoChan? ==> SameChan(run[m].cells[c].done, run[n].cells[c].done)
    ensures run[m].cells[c].err.Some? ==>
      run[n].cells[c].err == run[m].cells[c].err && run[n].cells[c].cause == run[m].cells[c].cause
    ensures IsClosed(run[m].cells[c].done) ==> IsClosed(run[n].cells[c].done)
  {
    hide Inv, Next, Run;
    if m == n {
    } else {
      WrittenOnce(run, m, n - 1, c);
      RunGrows(run, n, c);
    }
  }

  lemma RunGrows(run: seq<State>, n: nat, c: Id)
    requires Run(run) && 0 < n < |run| && c < |run[n - 1].cells|
    ensures c < |run[n].cells| && Grows(run[n - 1].cells[c], run[n].cells[c])
  {
    hide Inv, Next, Grows;
    RunInv(run, n - 1);
    NextGrows(run[n - 1], run[n - 1 + 1], c);
  }

  lemma NextGrows(s: State, s': State, c: Id)
    requires Inv(s) && Next(s, s') && c < |s.cells|
    ensures c < |s'.cells| && Grows(s.cells[c], s'.cells[c])
  {
    if t: Tid, x: Id :| Steps(s, s', t, x) {
      var k := |s.threads[t]| - 1;
      InvReady(s, t);
      StepEffect(s, t, k, s.threads[t][k], x);
      FollowsMono(s, s', Enabled(s, t, x).value, c);
    } else {
      var call :| Begins(s, s', call);
      BeginExtends(s, s', call);
    }
  }

  /** o is c or an ancestor of c. */
  predicate AboveOrSelf(s: State, o: Id, c: Id)
    requires c < |s.cells|
    decreases c
  {
    o == c || (Up(s, c).Some? && Up(s, c).value < c && AboveOrSelf(s, o, Up(s, c).value))
  }

  /** A context's error and cause are, together, those of an earlier call that asked to cancel it or
      an ancestor of it; without a cause of its own that call's error is the cause. */
  lemma CancelledFrom(run: seq<State>, n: nat, c: Id) returns (o: Id, m: nat, call: Call)
    requires Run(run) && n < |run| && c < |run[n].cells| && run[n].cells[c].err.Some?
    ensures run[n].cells[c].cause.Some? && AboveOrSelf(run[n], o, c)
    ensures m < n && Begins(run[m], run[m + 1], call)
    ensures AsksFor(call, o, run[n].cells[c].err.value, run[n].cells[c].cause.value)
  {
    RunInv(run, n);
    o := Origin(run[n], c);
    m, call := DirectAsked(run, n, o, run[n].cells[c].err.value, run[n].cells[c].cause.value);
  }

  lemma {:induction false} Origin(s: State, c: Id) returns (o: Id)
    requires Inv(s) && c < |s.cells| && s.cells[c].err.Some?
    ensures s.cells[c].cause.Some? && AboveOrSelf(s, o, c)
    ensures (o, s.cells[c].err.value, s.cells[c].cause.value) in s.direct
    decreases c
  {
    assert CellOk(s, c) && ProvOk(s, c);
    if (c, s.cells[c].err.value, s.cells[c].cause.value) in s.direct {
      o := c;
    } else {
      o := Origin(s, Up(s, c).value);
    }
  }

  /** A closed Done channel means that the error is set, the cause is set exactly with the error,
      and an AfterFunc's starts and successful stops never exceed one. */
  lemma ObservedConsistently(run: seq<State>, n: nat, c: Id)
    requires Run(run) && n < |run| && c < |run[n].cells|
    ensures var cell := run[n].cells[c];
      (IsClosed(cell.done) ==> cell.err.Some?) && cell.cause.Some? == cell.err.Some? && cell.starts + cell.stops <= 1
  {
    RunInv(run, n);
    assert CellOk(run[n], c);
  }

  /** When a call of Err or Cause returns, it hands out nil only for a context that is not cancelled;
      anything else it hands out only once Done is closed, and that is the error or the cause. */
  lemma AnsweredTruly(run: seq<State>, n: nat, t: Tid, x: Id)
    requires Run(run) && n < |run| && t < |run[n].threads| && |run[n].threads[t]| > 0 && Asks(Top(run[n], t))
    requires Enabled(run[n], t, x).Some? && Enabled(run[n], t, x).value.top == []
    ensures InRange(run[n], Top(run[n], t))
    ensures var f, cell := Top(run[n], t), run[n].cells[Top(run[n], t).c];
      && (Answer(run[n], f).None? ==> cell.err.None?)
      && (Answer(run[n], f).Some? ==> IsClosed(cell.done)
                                       && Answer(run[n], f) == (if f.CauseCall? then cell.cause else cell.err))
  {
    RunInv(run, n);
    var s := run[n];
    hide Run;
    InvReady(s, t);
    assert StackOk(s, t);
    assert FrameOk(s, t, |s.threads[t]| - 1, Top(s, t)) && CellOk(s, Top(s, t).c);
  }

  /** Among this package's contexts propagateCancel always finds the parent's cancelCtx: it never
      starts a watching goroutine and never cancels with a missing error. */
  lemma NoFallback(run: seq<State>, n: nat, t: Tid, k: nat)
    requires Run(run) && n < |run| && t < |run[n].threads| && k < |run[n].threads[t]|
    ensures var f := run[n].threads[t][k]; f.Prop? ==> !f.ppc.Fallback? && !f.ppc.Panic?
  {
    RunInv(run, n);
    assert StackOk(run[n], t);
    assert FrameOk(run[n], t, k, run[n].threads[t][k]);
  }

  /** The lock that frame f has to take before it can go on. */
  function Wants(s: State, f: Frame): Option<Id>
    requires InRange(s, f)
  {
    var up := Up(s, f.c);
    var upBare := up.Some? && s.cells[up.value].done.NoChan?;
    if f.Cancel? then
      if f.pc.Enter? || (f.pc.Post? && !s.cells[f.c].kind.After?) then Some(f.c)
      else if f.pc.Unlink? || (f.pc.ParentDone? && upBare) then up
      else None
    else if f.Prop? then
      if f.ppc.GetCause? || f.ppc.LockParent? || (f.ppc.GetDone? && upBare) then up else None
    else if f.CauseCall? || f.TimerSet? || (f.DoneCall? && s.cells[f.c].done.NoChan?) then Some(f.c)
    else None
  }

  /** a is a proper ancestor of d. */
  predicate Ancestor(s: State, a: Id, d: Id)
    decreases d
  {
    d < |s.cells| && Up(s, d).Some? && Up(s, d).value < d && (Up(s, d).value == a || Ancestor(s, a, Up(s, d).value))
  }

  lemma {:induction false} AncestorBelow(s: State, a: Id, d: Id)
    requires Ancestor(s, a, d)
    ensures a < d
    decreases d
  {
    if Up(s, d).value == a {
    } else {
      AncestorBelow(s, a, Up(s, d).value);
    }
  }

  /** What a goroutine holds lies strictly above whatever it is called on further up its stack. */
  lemma {:induction false} HeldAbove(s: State, t: Tid, j: nat, k: nat, a: Id)
    requires Inv(s) && t < |s.threads| && j < k < |s.threads[t]| && Holds(s, s.threads[t][j], a)
    ensures s.threads[t][k].c < |s.cells| && Ancestor(s, a, s.threads[t][k].c)
    decreases k
  {
    var stack := s.threads[t];
    assert StackOk(s, t);
    assert Link(s, stack[k - 1], stack[k]) && FrameOk(s, t, k - 1, stack[k - 1]) && FrameOk(s, t, k, stack[k]);
    assert CellOk(s, stack[k].c);
    if j + 1 == k {
    } else {
      HeldAbove(s, t, j, k - 1, a);
      assert Link(s, stack[k - 2], stack[k - 1]);
    }
  }

  /** While holding one context's lock a goroutine only ever waits for the lock of a strict
      descendant; in particular removeChild runs with no descendant locked. */
  lemma LockOrder(run: seq<State>, n: nat, t: Tid, j: nat, a: Id, b: Id)
    requires Run(run) && n < |run| && t < |run[n].threads| && j < |run[n].threads[t]|
    requires Holds(run[n], run[n].threads[t][j], a)
    requires var f := run[n].threads[t][|run[n].threads[t]| - 1];
      InRange(run[n], f) && Wants(run[n], f) == Some(b)
    ensures Ancestor(run[n], a, b)
  {
    RunInv(run, n);
    WantsBelow(run[n], t, j, a, b);
  }

  lemma WantsBelow(s: State, t: Tid, j: nat, a: Id, b: Id)
    requires Inv(s) && t < |s.threads| && j < |s.threads[t]| && Holds(s, s.threads[t][j], a)
    requires var f := s.threads[t][|s.threads[t]| - 1]; InRange(s, f) && Wants(s, f) == Some(b)
    ensures Ancestor(s, a, b)
  {
    var stack, k := s.threads[t], |s.threads[t]| - 1;
    assert StackOk(s, t);
    assert FrameOk(s, t, k, stack[k]);
    if j < k {
      assert Link(s, stack[k - 1], stack[k]);
      HeldAbove(s, t, j, k, a);
    }
  }

  /** Goroutine t waits for a lock that goroutine u holds. */
  predicate WaitsFor(s: State, t: Tid, u: Tid) {
    t < |s.threads| && |s.threads[t]| > 0 && InRange(s, Top(s, t))
    && var w := Wants(s, Top(s, t));
      w.Some? && w.value < |s.cells| && s.cells[w.value].lock.Some? && s.cells[w.value].lock.value.t == u
  }

  function Top(s: State, t: Tid): Frame
    requires t < |s.threads| && |s.threads[t]| > 0
  {
    s.threads[t][|s.threads[t]| - 1]
  }

  lemma WaitRises(s: State, t: Tid, u: Tid, v: Tid)
    requires Inv(s) && WaitsFor(s, t, u) && WaitsFor(s, u, v)
    ensures Wants(s, Top(s, t)).value < Wants(s, Top(s, u)).value
  {
    var a, b := Wants(s, Top(s, t)).value, Wants(s, Top(s, u)).value;
    assert LockOk(s, a);
    WantsBelow(s, u, s.cells[a].lock.value.k, a, b);
    AncestorBelow(s, a, b);
  }

  /** Each goroutine of ts waits for a lock that the next one holds. */
  predicate WaitChain(s: State, ts: seq<Tid>) {
    |ts| <= 1 || (WaitsFor(s, ts[0], ts[1]) && WaitChain(s, ts[1..]))
  }

  /** No goroutines wait for each other in a circle, not even one for itself. */
  lemma NoCycle(run: seq<State>, n: nat, ts: seq<Tid>)
    requires Run(run) && n < |run| && |ts| >= 2
    ensures !(WaitChain(run[n], ts) && ts[|ts| - 1] == ts[0])
  {
    if WaitChain(run[n], ts) && ts[|ts| - 1] == ts[0] {
      RunInv(run, n);
      ChainRises(run[n], ts, ts[1]);
    }
  }

  lemma {:induction false} ChainRises(s: State, ts: seq<Tid>, v: Tid)
    requires Inv(s) && |ts| >= 2 && WaitChain(s, ts) && WaitsFor(s, ts[|ts| - 1], v)
    ensures Wants(s, Top(s, ts[0])).value < Wants(s, Top(s, ts[|ts| - 1])).value
    decreases |ts|
  {
    hide Inv, Wants, InRange;
    var rest := ts[1..];
    assert rest[|rest| - 1] == ts[|ts| - 1] && rest[0] == ts[1];
    if |ts| == 2 {
      WaitRises(s, ts[0], ts[1], v);
    } else {
      assert rest[1] == ts[2] && WaitsFor(s, rest[0], rest[1]);
      ChainRises(s, rest, v);
      WaitRises(s, ts[0], ts[1], ts[2]);
    }
  }

  /** Why a goroutine cannot go on: a lock someone holds, or a Done channel about to be closed. */
  lemma BlockedReason(s: State, t: Tid) returns (x: Id)
    requires Inv(s) && t < |s.threads| && |s.threads[t]| > 0
    ensures InRange(s, Top(s, t))
    ensures Enabled(s, t, x).None? ==>
      (Top(s, t).ErrWait? && !IsClosed(s.cells[Top(s, t).c].done))
      || (Wants(s, Top(s, t)).Some? && Wants(s, Top(s, t)).value < |s.cells| && s.cells[Wants(s, Top(s, t)).value].lock.Some?)
  {
    x := 0;
    InvReady(s, t);
    var f := Top(s, t);
    if f.Cancel? && f.pc.Loop? && f.pc.todo != {} { x :| x in f.pc.todo; }
  }

  /** As long as some goroutine has not returned, some goroutine can step. */
  lemma Progress(run: seq<State>, n: nat, t: Tid) returns (u: Tid, x: Id)
    requires Run(run) && n < |run| && t < |run[n].threads| && |run[n].threads[t]| > 0
    ensures Enabled(run[n], u, x).Some?
  {
    RunInv(run, n);
    u, x := Runnable(run[n], t);
  }

  lemma Runnable(s: State, t: Tid) returns (u: Tid, x: Id)
    requires Inv(s) && t < |s.threads| && |s.threads[t]| > 0
    ensures Enabled(s, u, x).Some?
    decreases if InRange(s, Top(s, t)) && Wants(s, Top(s, t)).Some? then |s.cells| - Wants(s, Top(s, t)).value else |s.cells| + 1
  {
    u := t;
    x := BlockedReason(s, t);
    if Enabled(s, t, x).None? {
      var f := Top(s, t);
      InvReady(s, t);
      if f.ErrWait? {
        assert SweepOk(s, f.c);
        u, x := CloserRuns(s, f.c);
      } else {
        var b := Wants(s, f).value;
        var o := s.cells[b].lock.value;
        assert LockOk(s, b);
        assert StackOk(s, o.t);
        assert o.k < |s.threads[o.t]| - 1 ==> Link(s, s.threads[o.t][|s.threads[o.t]| - 2], Top(s, o.t));
        assert !Top(s, o.t).ErrWait?;
        var y := BlockedReason(s, o.t);
        if Enabled(s, o.t, y).Some? {
          u, x := o.t, y;
        } else {
          WantsBelow(s, o.t, o.k, b, Wants(s, Top(s, o.t)).value);
          AncestorBelow(s, b, Wants(s, Top(s, o.t)).value);
          u, x := Runnable(s, o.t);
        }
      }
    }
  }

  /** The goroutine that is about to close c's Done channel is not waiting for anything. */
  lemma CloserRuns(s: State, c: Id) returns (u: Tid, x: Id)
    requires Inv(s) && c < |s.cells| && s.cells[c].err.Some? && !IsClosed(s.cells[c].done)
    ensures Enabled(s, u, x).Some?
  {
    assert SweepOk(s, c);
    var o := s.cells[c].lock.value;
    u, x := o.t, 0;
    assert StackOk(s, u);
    assert o.k < |s.threads[u]| - 1 ==> Link(s, s.threads[u][o.k], s.threads[u][o.k + 1]);
    InvReady(s, u);
  }
}
