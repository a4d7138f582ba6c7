/** What the calls of the context package have done by the time they return. */
module ContextCalls {
  import opened Wrappers
  import opened Context
  import opened ContextInv
  import opened ContextProof

  // ---- a context is registered exactly when its propagateCancel has returned ----

  predicate Joins(f: Frame, i: Id) { f.Prop? && f.c == i }

  /** Some goroutine is still in propagateCancel for i. */
  predicate Propagating(s: State, i: Id) {
    exists t, k :: 0 <= t < |s.threads| && 0 <= k < |s.threads[t]| && Joins(s.threads[t][k], i)
  }

  ghost predicate JoinOk(s: State) {
    (forall i | 0 <= i < |s.cells| :: i in s.registered || Propagating(s, i))
    && (forall t, k, i | 0 <= t < |s.threads| && 0 <= k < |s.threads[t]| && Joins(s.threads[t][k], i) :: i !in s.registered)
    && (forall t, k, u, j, i | 0 <= t < |s.threads| && 0 <= k < |s.threads[t]| && 0 <= u < |s.threads| && 0 <= j < |s.threads[u]|
                               && Joins(s.threads[t][k], i) && Joins(s.threads[u][j], i) :: t == u)
  }

  /** A step of propagateCancel either goes on with it or registers its context; no other step
      does either. */
  predicate JoinEffect(f: Frame, e: Effect) {
    if f.Prop? then
      (e.top == [] && e.reg == {f.c})
      || (|e.top| > 0 && Joins(e.top[0], f.c) && e.reg == {} && forall j | 0 < j < |e.top| :: !e.top[j].Prop?)
    else e.reg == {} && forall j | 0 <= j < |e.top| :: !e.top[j].Prop?
  }

  lemma StepJoins(s: State, t: Tid, k: nat, f: Frame, x: Id)
    requires InRange(s, f) && FrameStep(s, t, k, f, x).Some?
    ensures JoinEffect(f, FrameStep(s, t, k, f, x).value)
  {
  }

  /** Whatever is called from another frame is a cancel. */
  lemma AboveBottom(s: State, t: Tid, k: nat)
    requires Inv(s) && t < |s.threads| && 0 < k < |s.threads[t]|
    ensures s.threads[t][k].Cancel?
  {
    assert StackOk(s, t);
    assert Link(s, s.threads[t][k - 1], s.threads[t][k]);
  }

  /** A Prop frame after a step was there before it. */
  lemma JoinedBefore(s: State, s': State, t: Tid, e: Effect, u: Tid, j: nat, i: Id) returns (j0: nat)
    requires t < |s.threads| && |s.threads[t]| > 0 && e.at < |s.cells| && s' == Apply(s, t, e)
    requires JoinEffect(s.threads[t][|s.threads[t]| - 1], e)
    requires u < |s'.threads| && j < |s'.threads[u]| && Joins(s'.threads[u][j], i)
    ensures j0 < |s.threads[u]| && Joins(s.threads[u][j0], i)
    ensures u == t && j0 == |s.threads[t]| - 1 ==> e.reg == {}
  {
    j0 := j;
    var k := |s.threads[t]| - 1;
    if u == t {
      if j < k { assert s'.threads[t][j] == s.threads[t][j]; } else {
        assert s'.threads[t][j] == e.top[j - k];
      }
    }
  }

  lemma JoinStep(s: State, s': State, t: Tid, x: Id)
    requires Inv(s) && JoinOk(s) && Steps(s, s', t, x)
    ensures JoinOk(s')
  {
    var k := |s.threads[t]| - 1;
    var f, e := s.threads[t][k], Enabled(s, t, x).value;
    StepJoins(s, t, k, f, x);
    if k > 0 { AboveBottom(s, t, k); }
    hide Inv, Enabled;
    forall u, j, i | 0 <= u < |s'.threads| && 0 <= j < |s'.threads[u]| && Joins(s'.threads[u][j], i) ensures i !in s'.registered {
      var j0 := JoinedBefore(s, s', t, e, u, j, i);
      assert i in e.reg ==> Joins(s.threads[t][k], i);
    }
    forall u, j, v, l, i | 0 <= u < |s'.threads| && 0 <= j < |s'.threads[u]| && 0 <= v < |s'.threads| && 0 <= l < |s'.threads[v]|
                           && Joins(s'.threads[u][j], i) && Joins(s'.threads[v][l], i) ensures u == v {
      var j0 := JoinedBefore(s, s', t, e, u, j, i);
      var l0 := JoinedBefore(s, s', t, e, v, l, i);
    }
    forall i | 0 <= i < |s'.cells| ensures i in s'.registered || Propagating(s', i) {
      if i !in s'.registered { StillJoins(s, s', t, e, i); }
    }
  }

  lemma StillJoins(s: State, s': State, t: Tid, e: Effect, i: Id)
    requires t < |s.threads| && |s.threads[t]| > 0 && e.at < |s.cells| && s' == Apply(s, t, e)
    requires JoinEffect(s.threads[t][|s.threads[t]| - 1], e) && Propagating(s, i) && i !in e.reg
    ensures Propagating(s', i)
  {
    var u, j :| 0 <= u < |s.threads| && 0 <= j < |s.threads[u]| && Joins(s.threads[u][j], i);
    var k := |s.threads[t]| - 1;
    if u == t && j == k { assert s'.threads[t][k] == e.top[0]; }
    assert Joins(s'.threads[u][j], i);
  }

  lemma JoinBegin(s: State, s': State, call: Call)
    requires Inv(s) && JoinOk(s) && Begins(s, s', call)
    ensures JoinOk(s')
  {
    InvInRange(s);
    hide Inv;
    var n := |s.threads|;
    assert forall t | 0 <= t < n :: s'.threads[t] == s.threads[t];
    forall t, k, i: Id | 0 <= t < |s'.threads| && 0 <= k < |s'.threads[t]| && Joins(s'.threads[t][k], i)
      ensures i !in s'.registered && if t < n then Joins(s.threads[t][k], i) && i < |s.cells| else call.NewCall? && i == |s.cells|
    {
      if t < n { assert Joins(s.threads[t][k], i) && InRange(s, s.threads[t][k]); }
    }
    forall i | 0 <= i < |s'.cells| ensures i in s'.registered || Propagating(s', i) {
      if i !in s'.registered {
        if i < |s.cells| {
          var t, k :| 0 <= t < |s.threads| && 0 <= k < |s.threads[t]| && Joins(s.threads[t][k], i);
          assert Joins(s'.threads[t][k], i);
        } else {
          assert Joins(s'.threads[n][0], i);
        }
      }
    }
  }

  lemma {:induction false} RunJoins(run: seq<State>, n: nat)
    requires Run(run) && n < |run|
    ensures JoinOk(run[n])
  {
    if n == 0 {
    } else {
      RunJoins(run, n - 1);
      RunInv(run, n - 1);
      NextJoins(run[n - 1], run[n]);
    }
  }

  lemma NextJoins(s: State, s': State)
    requires Inv(s) && JoinOk(s) && Next(s, s')
    ensures JoinOk(s')
  {
    hide Inv, JoinOk;
    if t: Tid, x: Id :| Steps(s, s', t, x) {
      JoinStep(s, s', t, x);
    } else {
      var call :| Begins(s, s', call);
      JoinBegin(s, s', call);
    }
  }

  /** In every state of every run the registered contexts are those that exist and for which no
      goroutine is in propagateCancel any more. */
  lemma RegisteredExactly(run: seq<State>, n: nat, i: Id)
    requires Run(run) && n < |run| && i < |run[n].cells|
    ensures i in run[n].registered <==> !Propagating(run[n], i)
  {
    RunJoins(run, n);
    hide Run;
    var s := run[n];
    if i in s.registered {
      assert forall t, k | 0 <= t < |s.threads| && 0 <= k < |s.threads[t]| :: !Joins(s.threads[t][k], i);
    }
  }

  /** Any call may begin as soon as the contexts it is about have been handed out: those of a parent,
      or the one it cancels, stops or asks. */
  lemma CallsAllowed(run: seq<State>, n: nat, c: Id, parent: Ctx, kind: Kind, remove: bool, err: Err, why: Option<Err>)
    requires Run(run) && n < |run| && c < |run[n].cells|
    ensures Mentions(parent, HandedOut(run[n])) <==> Allowed(run[n], NewCall(kind, parent))
    ensures !Propagating(run[n], c) ==>
      (if run[n].cells[c].kind.After? then Allowed(run[n], StopCall(c)) else Allowed(run[n], CancelCall(c, remove, err, why)))
      && Allowed(run[n], ReadCall(DoneCall(c))) && Allowed(run[n], ReadCall(ErrCall(c, false))) && Allowed(run[n], ReadCall(ErrCall(c, true)))
  {
    RegisteredExactly(run, n, c);
    RunInv(run, n);
    forall i | 0 <= i < |run[n].cells| ensures i in run[n].registered <==> !Propagating(run[n], i) { RegisteredExactly(run, n, i); }
    hide Run, Propagating;
    assert HandedOut(run[n]) == run[n].registered;
  }

  /** The contexts whose propagateCancel has returned. */
  function HandedOut(s: State): set<Id> {
    set i: Id | 0 <= i < |s.cells| && !Propagating(s, i)
  }

  // ---- a call that has returned has done its work ----

  /** Goroutine t runs cancel on c; when it has returned, c is finished. */
  ghost predicate Cancels(s: State, t: Tid, c: Id) {
    t < |s.threads| && c < |s.cells|
    && if s.threads[t] == [] then Finished(s, c) else s.threads[t][0].Cancel? && s.threads[t][0].c == c
  }

  lemma CancelsStep(s: State, s': State, u: Tid, x: Id, t: Tid, c: Id)
    requires Inv(s) && Steps(s, s', u, x) && Cancels(s, t, c)
    ensures Cancels(s', t, c)
  {
    var k := |s.threads[u]| - 1;
    var e := Enabled(s, u, x).value;
    InvReady(s, u);
    StepEffect(s, u, k, s.threads[u][k], x);
    hide Inv, Enabled, Ready, CellEffect, HoldsEffect, SweepEffect, ChildEffect;
    EffectFollows(s, s', u, e);
    FollowsMono(s, s', e, c);
    if u == t {
      ReturnFinished(s, t, k);
      if k > 0 { assert s'.threads[t][0] == s.threads[t][0]; } else if |e.top| > 0 { assert s'.threads[t][0] == e.top[0]; }
    }
  }

  lemma EffectFollows(s: State, s': State, t: Tid, e: Effect)
    requires t < |s.threads| && |s.threads[t]| > 0
    requires EffectOk(s, t, |s.threads[t]| - 1, s.threads[t][|s.threads[t]| - 1], e) && s' == Apply(s, t, e)
    ensures Follows(s, s', e)
  {
  }

  lemma ReturnFinished(s: State, t: Tid, k: nat)
    requires t < |s.threads| && k < |s.threads[t]| && Ready(s, t, k, s.threads[t][k])
    ensures s.threads[t][k].Cancel? && s.threads[t][k].pc.Return? ==> Finished(s, s.threads[t][k].c)
  {
  }

  lemma CancelsNext(s: State, s': State, t: Tid, c: Id)
    requires Inv(s) && Next(s, s') && Cancels(s, t, c)
    ensures Cancels(s', t, c)
  {
    hide Inv;
    if u: Tid, x: Id :| Steps(s, s', u, x) {
      CancelsStep(s, s', u, x, t, c);
    } else {
      var call :| Begins(s, s', call);
      hide Begins;
      BeginExtends(s, s', call);
      ExtendsMono(s, s', c);
    }
  }

  lemma {:induction false} CancelsRun(run: seq<State>, m: nat, n: nat, t: Tid, c: Id)
    requires Run(run) && m <= n < |run| && Cancels(run[m], t, c)
    ensures Cancels(run[n], t, c)
  {
    hide Inv, Next, Cancels;
    if m == n {
    } else {
      CancelsRun(run, m, n - 1, t, c);
      RunInv(run, n - 1);
      assert Next(run[n - 1], run[n - 1 + 1]);
      CancelsNext(run[n - 1], run[n], t, c);
    }
  }

  /** The context that a CancelFunc, a timer or a stop call cancels, if call is one of them. */
  function Target(call: Call): Option<Id> {
    match call
    case CancelCall(c, _, _, _) => Some(c)
    case StopCall(c) => Some(c)
    case _ => None
  }

  /** When a call that cancels c has returned, c has its error, its Done channel is closed, its
      children are gone, and if it belongs to an AfterFunc, f has been started or stopped. */
  lemma CancelReturned(run: seq<State>, m: nat, n: nat, call: Call, c: Id)
    requires Run(run) && m < n < |run| && Begins(run[m], run[m + 1], call) && Target(call) == Some(c)
    requires call.StopCall? ==> !run[m].cells[c].once
    requires var t := |run[m].threads|; t < |run[n].threads| ==> run[n].threads[t] == []
    ensures c < |run[n].cells| && Finished(run[n], c)
  {
    assert Cancels(run[m + 1], |run[m].threads|, c);
    CancelsRun(run, m + 1, n, |run[m].threads|, c);
  }

  // ---- removal from the parent ----

  /** c will not be cancelled through its parent: it has none, the parent is already cancelled,
      or it is not among the parent's children. */
  predicate Gone(s: State, c: Id) {
    c < |s.cells|
    && (Up(s, c).Some? && Up(s, c).value < |s.cells| ==>
          var p := s.cells[Up(s, c).value]; p.err.Some? || p.children.None? || c !in p.children.value)
  }

  /** Goroutine t runs cancel on c with removal, past the point where it may find c cancelled. */
  ghost predicate Removes(s: State, t: Tid, c: Id) {
    t < |s.threads| && c < |s.cells| && c in s.registered
    && if s.threads[t] == [] then Gone(s, c)
       else
         var f := s.threads[t][0];
         f.Cancel? && f.c == c && f.remove
         && (if f.pc.Post? || f.pc.Return? then Gone(s, c) else f.pc.Enter? ==> !s.cells[c].kind.Plain?)
  }

  /** Only propagateCancel adds a child, and only its own; only cancel removes one. */
  predicate AddEffect(s: State, f: Frame, e: Effect) {
    e.at < |s.cells|
    && (e.cell.children.Some? ==>
          forall i <- e.cell.children.value ::
            (f.Prop? && i == f.c) || (s.cells[e.at].children.Some? && i in s.cells[e.at].children.value))
  }

  lemma StepAdds(s: State, t: Tid, k: nat, f: Frame, x: Id)
    requires InRange(s, f) && FrameStep(s, t, k, f, x).Some?
    ensures AddEffect(s, f, FrameStep(s, t, k, f, x).value)
  {
  }

  lemma GoneStays(s: State, s': State, t: Tid, e: Effect, c: Id)
    requires t < |s.threads| && |s.threads[t]| > 0 && Follows(s, s', e) && Gone(s, c)
    requires AddEffect(s, s.threads[t][|s.threads[t]| - 1], e) && JoinOk(s) && c in s.registered
    ensures Gone(s', c)
  {
    hide JoinOk;
    NotJoined(s, t, |s.threads[t]| - 1, c);
    FollowsMono(s, s', e, c);
    if Up(s, c).Some? && Up(s, c).value < |s.cells| { FollowsMono(s, s', e, Up(s, c).value); }
  }

  lemma NotJoined(s: State, t: Tid, k: nat, c: Id)
    requires JoinOk(s) && c in s.registered && t < |s.threads| && k < |s.threads[t]|
    ensures !Joins(s.threads[t][k], c)
  {
  }

  /** A cancel with removal comes to its last part only by removing c. */
  lemma RemoveMoves(s: State, s': State, t: Tid, k: nat, f: Frame, x: Id)
    requires f.Cancel? && f.remove && Ready(s, t, k, f) && CancelStep(s, t, k, f, x).Some?
    requires Follows(s, s', CancelStep(s, t, k, f, x).value)
    requires !f.pc.Post? && !f.pc.Return? && (f.pc.Enter? ==> !s.cells[f.c].kind.Plain?)
    ensures var top := CancelStep(s, t, k, f, x).value.top;
      |top| > 0 && top[0].Cancel? && top[0].c == f.c && top[0].remove && !top[0].pc.Enter?
      && (top[0].pc.Post? || top[0].pc.Return? ==> Gone(s', f.c))
  {
    var e := CancelStep(s, t, k, f, x).value;
    FollowsMono(s, s', e, f.c);
    if Up(s, f.c).Some? { FollowsMono(s, s', e, Up(s, f.c).value); }
  }

  lemma RemovesStep(s: State, s': State, u: Tid, x: Id, t: Tid, c: Id)
    requires Inv(s) && JoinOk(s) && Steps(s, s', u, x) && Removes(s, t, c)
    ensures Removes(s', t, c)
  {
    var k := |s.threads[u]| - 1;
    var f, e := s.threads[u][k], Enabled(s, u, x).value;
    InvReady(s, u);
    StepEffect(s, u, k, f, x);
    StepAdds(s, u, k, f, x);
    hide Inv, JoinOk, Ready, CellEffect, HoldsEffect, SweepEffect, ChildEffect, AddEffect, Gone, CancelStep, PropStep, ReadStep;
    EffectFollows(s, s', u, e);
    FollowsMono(s, s', e, c);
    if Gone(s, c) { GoneStays(s, s', u, e, c); }
    if u == t {
      if k > 0 {
        assert s'.threads[t][0] == s.threads[t][0];
      } else {
        if !f.pc.Post? && !f.pc.Return? { RemoveMoves(s, s', t, k, f, x); } else { LastMoves(s, t, k, f, x); }
        if |e.top| > 0 { assert s'.threads[t][0] == e.top[0]; }
      }
    }
  }

  lemma LastMoves(s: State, t: Tid, k: nat, f: Frame, x: Id)
    requires f.Cancel? && InRange(s, f) && (f.pc.Post? || f.pc.Return?) && CancelStep(s, t, k, f, x).Some?
    ensures var top := CancelStep(s, t, k, f, x).value.top; top == [] || top == [f.(pc := Return)]
  {
  }

  lemma RemovesNext(s: State, s': State, t: Tid, c: Id)
    requires Inv(s) && JoinOk(s) && Next(s, s') && Removes(s, t, c)
    ensures Removes(s', t, c)
  {
    hide Inv, JoinOk, Removes;
    if u: Tid, x: Id :| Steps(s, s', u, x) {
      RemovesStep(s, s', u, x, t, c);
    } else {
      var call :| Begins(s, s', call);
      RemovesBegin(s, s', call, t, c);
    }
  }

  lemma RemovesBegin(s: State, s': State, call: Call, t: Tid, c: Id)
    requires Inv(s) && Begins(s, s', call) && Removes(s, t, c)
    ensures Removes(s', t, c)
  {
    BeginExtends(s, s', call);
    hide Inv, Begins;
    ExtendsMono(s, s', c);
    if Up(s, c).Some? && Up(s, c).value < |s.cells| { ExtendsMono(s, s', Up(s, c).value); }
  }

  lemma {:induction false} RemovesRun(run: seq<State>, m: nat, n: nat, t: Tid, c: Id)
    requires Run(run) && m <= n < |run| && Removes(run[m], t, c)
    ensures Removes(run[n], t, c)
  {
    hide Inv, JoinOk, Next, Removes;
    if m == n {
    } else {
      RemovesRun(run, m, n - 1, t, c);
      RunInv(run, n - 1);
      RunJoins(run, n - 1);
      assert Next(run[n - 1], run[n - 1 + 1]);
      RemovesNext(run[n - 1], run[n], t, c);
    }
  }

  /** A goroutine that cancels c with removal (a plain context: one that is closing c's Done channel,
      and did not find it cancelled) leaves c with no place under its parent. */
  lemma RemovedFromParent(run: seq<State>, m: nat, n: nat, t: Tid)
    requires Run(run) && m <= n < |run| && t < |run[m].threads| && |run[m].threads[t]| > 0
    requires var f := run[m].threads[t][0];
      f.Cancel? && f.remove && f.c < |run[m].cells| && f.c in run[m].registered
      && (f.pc.Close? || (f.pc.Enter? && !run[m].cells[f.c].kind.Plain?))
    requires t < |run[n].threads| ==> run[n].threads[t] == []
    ensures Gone(run[n], run[m].threads[t][0].c)
  {
    RemovesRun(run, m, n, t, run[m].threads[t][0].c);
  }

  // ---- what was asked for ----

  /** The call asks for o to be cancelled with error e, and q is the cause that goes with it. */
  predicate AsksFor(call: Call, o: Id, e: Err, q: Err) {
    match call
    case CancelCall(c, _, err, why) => c == o && err == e && q == if why.Some? then why.value else err
    case StopCall(c) => c == o && e == q == Canceled
    case _ => false
  }

  /** Every cancellation on record was asked for by a call that began earlier. */
  lemma {:induction false} DirectAsked(run: seq<State>, n: nat, o: Id, e: Err, q: Err) returns (m: nat, call: Call)
    requires Run(run) && n < |run| && (o, e, q) in run[n].direct
    ensures m < n && Begins(run[m], run[m + 1], call) && AsksFor(call, o, e, q)
  {
    assert n > 0;
    if (o, e, q) in run[n - 1].direct {
      m, call := DirectAsked(run, n - 1, o, e, q);
    } else {
      m := n - 1;
      assert Next(run[m], run[m + 1]);
      call := NewlyDirect(run[m], run[m + 1], o, e, q);
    }
  }

  lemma NewlyDirect(s: State, s': State, o: Id, e: Err, q: Err) returns (call: Call)
    requires Next(s, s') && (o, e, q) in s'.direct && (o, e, q) !in s.direct
    ensures Begins(s, s', call) && AsksFor(call, o, e, q)
  {
    hide Enabled;
    call :| Begins(s, s', call);
  }

  // ---- AfterFunc ----

  /** A step never stops an AfterFunc, and starts f only once and only when its context is swept. */
  predicate AfterEffect(s: State, e: Effect) {
    e.at < |s.cells|
    && var a, b := s.cells[e.at], e.cell;
      b.stops == a.stops && (a.once ==> b.once) && (b.starts == a.starts || (!a.once && b.once && Swept(s, e.at)))
  }

  lemma StepStarts(s: State, t: Tid, k: nat, f: Frame, x: Id)
    requires FrameOk(s, t, k, f) && FrameStep(s, t, k, f, x).Some?
    ensures AfterEffect(s, FrameStep(s, t, k, f, x).value)
  {
  }

  /** How the counts of an AfterFunc may change in one step or call. */
  lemma NextAfter(s: State, s': State, c: Id)
    requires Inv(s) && Next(s, s') && c < |s.cells|
    ensures c < |s'.cells|
    ensures var a, b := s.cells[c], s'.cells[c];
      && (a.once ==> b.once && b.starts == a.starts && b.stops == a.stops)
      && (b.starts != a.starts ==> Swept(s, c))
      && (b.stops != a.stops ==> Begins(s, s', StopCall(c)) && !a.once)
  {
    assert CellOk(s, c);
    if t: Tid, x: Id :| Steps(s, s', t, x) {
      InvReady(s, t);
      StepStarts(s, t, |s.threads[t]| - 1, s.threads[t][|s.threads[t]| - 1], x);
      hide Inv, Enabled;
    } else {
      var call :| Begins(s, s', call);
    }
  }

  /** Once an AfterFunc is started or stopped, it stays at that. */
  lemma {:induction false} OnceFixed(run: seq<State>, m: nat, n: nat, c: Id)
    requires Run(run) && m <= n < |run| && c < |run[m].cells| && run[m].cells[c].once
    ensures c < |run[n].cells| && run[n].cells[c].once
    ensures run[n].cells[c].starts == run[m].cells[c].starts && run[n].cells[c].stops == run[m].cells[c].stops
  {
    hide Inv, Next;
    if m == n {
    } else {
      OnceFixed(run, m, n - 1, c);
      RunInv(run, n - 1);
      assert Next(run[n - 1], run[n - 1 + 1]);
      NextAfter(run[n - 1], run[n], c);
    }
  }

  /** If stop returns true, f is never called. */
  lemma StoppedNeverStarts(run: seq<State>, m: nat, n: nat, c: Id)
    requires Run(run) && m < n < |run| && Begins(run[m], run[m + 1], StopCall(c)) && !run[m].cells[c].once
    ensures c < |run[n].cells| && run[n].cells[c].starts == 0 && run[n].cells[c].stops == 1
  {
    RunInv(run, m);
    assert CellOk(run[m], c);
    OnceFixed(run, m + 1, n, c);
  }

  /** f is called only after its context has been cancelled. */
  lemma {:induction false} StartedAfterCancel(run: seq<State>, n: nat, c: Id)
    requires Run(run) && n < |run| && c < |run[n].cells| && run[n].cells[c].starts > 0
    ensures Swept(run[n], c)
  {
    RunInv(run, n);
    if n == 0 {
    } else {
      RunInv(run, n - 1);
      assert Next(run[n - 1], run[n - 1 + 1]);
      hide Inv, Run, Next, Swept;
      if c < |run[n - 1].cells| {
        NextAfter(run[n - 1], run[n], c);
        if run[n - 1].cells[c].starts > 0 { StartedAfterCancel(run, n - 1, c); }
        SweptNext(run[n - 1], run[n], c);
      } else {
        NewBare(run[n - 1], run[n], c);
      }
    }
  }

  lemma SweptNext(s: State, s': State, c: Id)
    requires Inv(s) && Next(s, s') && Swept(s, c)
    ensures Swept(s', c)
  {
    if t: Tid, x: Id :| Steps(s, s', t, x) {
      InvReady(s, t);
      StepEffect(s, t, |s.threads[t]| - 1, s.threads[t][|s.threads[t]| - 1], x);
      EffectFollows(s, s', t, Enabled(s, t, x).value);
      FollowsMono(s, s', Enabled(s, t, x).value, c);
    } else {
      var call :| Begins(s, s', call);
      BeginExtends(s, s', call);
      ExtendsMono(s, s', c);
    }
  }

  lemma NewBare(s: State, s': State, c: Id)
    requires Next(s, s') && |s.cells| <= c < |s'.cells|
    ensures s'.cells[c].starts == s'.cells[c].stops == 0
  {
    hide Enabled;
  }

  /** An AfterFunc counts as stopped only because of a call of stop. */
  lemma {:induction false} StoppedByCall(run: seq<State>, n: nat, c: Id) returns (m: nat)
    requires Run(run) && n < |run| && c < |run[n].cells| && run[n].cells[c].stops > 0
    ensures m < n && Begins(run[m], run[m + 1], StopCall(c)) && !run[m].cells[c].once
  {
    assert n > 0;
    m := n - 1;
    RunInv(run, m);
    assert Next(run[m], run[m + 1]);
    if c < |run[m].cells| {
      NextAfter(run[m], run[m + 1], c);
      if run[m].cells[c].stops > 0 { m := StoppedByCall(run, m, c); }
    } else {
      NewBare(run[m], run[m + 1], c);
    }
  }
}
