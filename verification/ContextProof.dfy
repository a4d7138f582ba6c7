/** Every step and every call keeps the invariant. */
module ContextProof {
  import opened Wrappers
  import opened Context
  import opened ContextInv

  /** How a cell may change: what has been decided stays decided. */
  predicate Grows(a: Cell, b: Cell) {
    a.kind == b.kind && a.parent == b.parent
    && (a.err.Some? ==> b.err == a.err && b.cause == a.cause)
    && (IsClosed(a.done) ==> IsClosed(b.done))
    && (Own(a.done) ==> Own(b.done))
    && (!a.done.NoChan? ==> !b.done.NoChan?)
    && (a.done.SharedClosed? ==> b.done.SharedClosed?)
    && (a.once ==> b.once)
    && (a.err.Some? && a.children.None? ==> b.children.None?)
  }

  /** A lock is only taken when free and only given back by its holder, and the children are
      only touched, and the done channel closed, by whoever could take the lock. */
  predicate LockStep(a: Cell, b: Cell, o: Owner) {
    (b.lock == a.lock || (a.lock.None? && b.lock == Some(o)) || (a.lock == Some(o) && b.lock.None?))
    && (b.children != a.children ==> a.lock.None? || a.lock == Some(o))
    && (IsClosed(b.done) != IsClosed(a.done) ==> a.lock == Some(o))
  }

  /** The cell of an effect is well formed on its own. */
  ghost predicate NewCellOk(s: State, i: Id, cell: Cell)
    requires i < |s.cells|
  {
    (cell.children.Some? ==> forall x <- cell.children.value :: x < |s.cells| && Up(s, x) == Some(i))
    && cell.cause.Some? == cell.err.Some?
    && (IsClosed(cell.done) ==> cell.err.Some?)
    && cell.starts + cell.stops == (if cell.once then 1 else 0)
    && (cell.once ==> cell.kind.After?)
  }

  /** What every step's effect satisfies, whatever the frame. */
  ghost predicate CellEffect(s: State, t: Tid, k: nat, e: Effect) {
    e.at < |s.cells| && Grows(s.cells[e.at], e.cell) && LockStep(s.cells[e.at], e.cell, Owner(t, k)) && NewCellOk(s, e.at, e.cell)
  }

  ghost predicate ParentsOk(s: State, f: Frame) {
    InRange(s, f) && CellOk(s, f.c) && (Up(s, f.c).Some? ==> CellOk(s, Up(s, f.c).value))
  }

  predicate InCore(f: Frame) {
    f.Cancel? && (f.pc.Enter? || f.pc.Close? || f.pc.Loop?)
  }

  predicate Calling(f: Frame) {
    f.Prop? && (f.ppc.GetCause? || f.ppc.LockParent?)
  }

  lemma CoreCell(s: State, t: Tid, k: nat, f: Frame, x: Id)
    requires InCore(f) && FrameOk(s, t, k, f) && ParentsOk(s, f) && CancelStep(s, t, k, f, x).Some?
    ensures CellEffect(s, t, k, CancelStep(s, t, k, f, x).value)
  {
  }

  lemma UnlinkCell(s: State, t: Tid, k: nat, f: Frame, x: Id)
    requires f.Cancel? && !InCore(f) && FrameOk(s, t, k, f) && ParentsOk(s, f) && CancelStep(s, t, k, f, x).Some?
    ensures CellEffect(s, t, k, CancelStep(s, t, k, f, x).value)
  {
    if f.pc.Unlink? { RemoveCell(s, t, k, f, x); } else if f.pc.ParentDone? { LookCell(s, t, k, f, x); }
    else if f.pc.Post? { PostCell(s, t, k, f, x); }
    hide CellOk, ParentsOk;
  }

  lemma RemoveCell(s: State, t: Tid, k: nat, f: Frame, x: Id)
    requires f.Cancel? && f.pc.Unlink? && FrameOk(s, t, k, f) && ParentsOk(s, f) && CancelStep(s, t, k, f, x).Some?
    ensures CellEffect(s, t, k, CancelStep(s, t, k, f, x).value)
  {
  }

  lemma LookCell(s: State, t: Tid, k: nat, f: Frame, x: Id)
    requires f.Cancel? && f.pc.ParentDone? && FrameOk(s, t, k, f) && ParentsOk(s, f) && CancelStep(s, t, k, f, x).Some?
    ensures CellEffect(s, t, k, CancelStep(s, t, k, f, x).value)
  {
  }

  lemma PostCell(s: State, t: Tid, k: nat, f: Frame, x: Id)
    requires f.Cancel? && f.pc.Post? && FrameOk(s, t, k, f) && ParentsOk(s, f) && CancelStep(s, t, k, f, x).Some?
    ensures CellEffect(s, t, k, CancelStep(s, t, k, f, x).value)
  {
  }

  lemma PropCell(s: State, t: Tid, k: nat, f: Frame)
    requires f.Prop? && !Calling(f) && FrameOk(s, t, k, f) && ParentsOk(s, f) && PropStep(s, t, k, f).Some?
    ensures CellEffect(s, t, k, PropStep(s, t, k, f).value)
  {
  }

  lemma CallCell(s: State, t: Tid, k: nat, f: Frame)
    requires Calling(f) && FrameOk(s, t, k, f) && ParentsOk(s, f) && PropStep(s, t, k, f).Some?
    ensures CellEffect(s, t, k, PropStep(s, t, k, f).value)
  {
  }

  lemma ReadCell(s: State, t: Tid, k: nat, f: Frame)
    requires !f.Cancel? && !f.Prop? && FrameOk(s, t, k, f) && ParentsOk(s, f) && ReadStep(s, f).Some?
    ensures CellEffect(s, t, k, ReadStep(s, f).value)
  {
  }

  /** s' differs from s in the one cell e writes. */
  ghost predicate Follows(s: State, s': State, e: Effect) {
    e.at < |s.cells| && s'.cells == s.cells[e.at := e.cell] && s'.direct == s.direct && Grows(s.cells[e.at], e.cell)
  }

  lemma FollowsMono(s: State, s': State, e: Effect, c: Id)
    requires Follows(s, s', e) && c < |s.cells|
    ensures c < |s'.cells| && Up(s', c) == Up(s, c) && Grows(s.cells[c], s'.cells[c])
    ensures Swept(s, c) ==> Swept(s', c)
    ensures Finished(s, c) ==> Finished(s', c)
  {
  }

  lemma FromMono(s: State, s': State, e: Effect, c: Id, err: Err, cause: Err)
    requires Follows(s, s', e) && c < |s.cells| && From(s, c, err, cause)
    ensures c < |s'.cells| && From(s', c, err, cause)
  {
    FollowsMono(s, s', e, c);
    if Up(s, c).Some? && Up(s, c).value < |s.cells| { FollowsMono(s, s', e, Up(s, c).value); }
  }

  /** The frames an effect leaves in place of f. */
  ghost predicate FramesEffect(s: State, t: Tid, k: nat, f: Frame, e: Effect) {
    |e.top| <= 2
    && (|e.top| > 0 ==> e.top[0].c == f.c && e.top[0].Cancel? == f.Cancel? && (f.Cancel? ==> e.top[0].remove == f.remove))
    && (|e.top| == 2 ==> Link(s, e.top[0], e.top[1]) && e.top[1].pc.Enter?)
    && (|e.top| == 1 ==> !(e.top[0].Prop? && (e.top[0].ppc.Wait? || e.top[0].ppc.Hold?)))
    && (|e.top| == 0 && f.Cancel? ==> f.pc.Return?)
  }

  lemma CancelFrames(s: State, t: Tid, k: nat, f: Frame, x: Id)
    requires f.Cancel? && FrameOk(s, t, k, f) && ParentsOk(s, f) && CancelStep(s, t, k, f, x).Some?
    ensures FramesEffect(s, t, k, f, CancelStep(s, t, k, f, x).value)
  {
  }

  lemma PropFrames(s: State, t: Tid, k: nat, f: Frame)
    requires f.Prop? && FrameOk(s, t, k, f) && ParentsOk(s, f) && PropStep(s, t, k, f).Some?
    ensures FramesEffect(s, t, k, f, PropStep(s, t, k, f).value)
  {
  }

  lemma ReadFrames(s: State, t: Tid, k: nat, f: Frame)
    requires !f.Cancel? && !f.Prop? && FrameOk(s, t, k, f) && ReadStep(s, f).Some?
    ensures FramesEffect(s, t, k, f, ReadStep(s, f).value)
  {
  }

  /** What f held it still holds, unless it was given back; what was taken the new frame holds. */
  ghost predicate HoldsEffect(s: State, t: Tid, k: nat, f: Frame, e: Effect) {
    e.at < |s.cells|
    && (forall i: Id :: Holds(s, f, i) && !(e.at == i && e.cell.lock.None?) ==> |e.top| > 0 && Holds(s, e.top[0], i))
    && (e.cell.lock != s.cells[e.at].lock && e.cell.lock.Some? ==> |e.top| > 0 && Holds(s, e.top[0], e.at))
  }

  lemma CancelHolds(s: State, t: Tid, k: nat, f: Frame, x: Id)
    requires f.Cancel? && FrameOk(s, t, k, f) && ParentsOk(s, f) && CancelStep(s, t, k, f, x).Some?
    ensures HoldsEffect(s, t, k, f, CancelStep(s, t, k, f, x).value)
  {
  }

  lemma PropHolds(s: State, t: Tid, k: nat, f: Frame)
    requires f.Prop? && FrameOk(s, t, k, f) && ParentsOk(s, f) && PropStep(s, t, k, f).Some?
    ensures HoldsEffect(s, t, k, f, PropStep(s, t, k, f).value)
  {
  }

  lemma ReadHolds(s: State, t: Tid, k: nat, f: Frame)
    requires !f.Cancel? && !f.Prop? && FrameOk(s, t, k, f) && ReadStep(s, f).Some?
    ensures HoldsEffect(s, t, k, f, ReadStep(s, f).value)
  {
  }

  ghost predicate NewFramesOk(s': State, t: Tid, k: nat, top: seq<Frame>) {
    (|top| > 0 ==> FrameOk(s', t, k, top[0])) && (|top| == 2 ==> FrameOk(s', t, k + 1, top[1]))
  }

  /** f is fit to step: its own cell and its parent's are in order. */
  ghost predicate Ready(s: State, t: Tid, k: nat, f: Frame) {
    FrameOk(s, t, k, f) && ParentsOk(s, f) && SweepOk(s, f.c) && (Up(s, f.c).Some? ==> SweepOk(s, Up(s, f.c).value))
  }

  lemma CoreNewFrames(s: State, s': State, t: Tid, k: nat, f: Frame, x: Id)
    requires InCore(f) && Ready(s, t, k, f) && CancelStep(s, t, k, f, x).Some?
    requires Follows(s, s', CancelStep(s, t, k, f, x).value)
    ensures NewFramesOk(s', t, k, CancelStep(s, t, k, f, x).value.top)
  {
    var e := CancelStep(s, t, k, f, x).value;
    FromMono(s, s', e, f.c, f.err, f.cause);
    FollowsMono(s, s', e, f.c);
    if |e.top| == 2 { FollowsMono(s, s', e, x); }
  }

  lemma UnlinkNewFrames(s: State, s': State, t: Tid, k: nat, f: Frame, x: Id)
    requires f.Cancel? && !InCore(f) && Ready(s, t, k, f) && CancelStep(s, t, k, f, x).Some?
    requires Follows(s, s', CancelStep(s, t, k, f, x).value)
    ensures NewFramesOk(s', t, k, CancelStep(s, t, k, f, x).value.top)
  {
    var e := CancelStep(s, t, k, f, x).value;
    FromMono(s, s', e, f.c, f.err, f.cause);
    FollowsMono(s, s', e, f.c);
    if Up(s, f.c).Some? { FollowsMono(s, s', e, Up(s, f.c).value); }
  }

  lemma PropNewFrames(s: State, s': State, t: Tid, k: nat, f: Frame)
    requires f.Prop? && !Calling(f) && Ready(s, t, k, f) && PropStep(s, t, k, f).Some?
    requires Follows(s, s', PropStep(s, t, k, f).value)
    ensures NewFramesOk(s', t, k, PropStep(s, t, k, f).value.top)
  {
    var e := PropStep(s, t, k, f).value;
    FollowsMono(s, s', e, f.c);
    if Up(s, f.c).Some? { FollowsMono(s, s', e, Up(s, f.c).value); }
  }

  lemma CallNewFrames(s: State, s': State, t: Tid, k: nat, f: Frame)
    requires Calling(f) && Ready(s, t, k, f) && PropStep(s, t, k, f).Some?
    requires Follows(s, s', PropStep(s, t, k, f).value)
    ensures NewFramesOk(s', t, k, PropStep(s, t, k, f).value.top)
  {
    var e := PropStep(s, t, k, f).value;
    var u := Up(s, f.c).value;
    FollowsMono(s, s', e, f.c);
    FollowsMono(s, s', e, u);
    if |e.top| == 2 {
      assert From(s', f.c, e.top[1].err, e.top[1].cause);
      assert f.ppc.LockParent? ==> Swept(s, u);
      assert PropFrameOk(s', t, k, e.top[0]);
      assert CancelFrameOk(s', t, k + 1, e.top[1]);
    }
  }

  lemma ReadNewFrames(s: State, s': State, t: Tid, k: nat, f: Frame)
    requires !f.Cancel? && !f.Prop? && Ready(s, t, k, f) && ReadStep(s, f).Some?
    requires Follows(s, s', ReadStep(s, f).value)
    ensures NewFramesOk(s', t, k, ReadStep(s, f).value.top)
  {
    FollowsMono(s, s', ReadStep(s, f).value, f.c);
  }

  /** A frame that is not stepping stays in order: the locks it relies on are its own. */
  lemma FrameStable(s: State, s': State, e: Effect, o: Owner, t: Tid, k: nat, f: Frame)
    requires Follows(s, s', e) && LockStep(s.cells[e.at], e.cell, o) && o != Owner(t, k) && FrameOk(s, t, k, f)
    ensures FrameOk(s', t, k, f)
  {
    FollowsMono(s, s', e, f.c);
    if Up(s, f.c).Some? { FollowsMono(s, s', e, Up(s, f.c).value); }
    if f.Cancel? { FromMono(s, s', e, f.c, f.err, f.cause); }
  }

  /** The lock invariant of one cell across a step. */
  lemma LockKept(s: State, s': State, t: Tid, e: Effect, i: Id)
    requires t < |s.threads| && |s.threads[t]| > 0
    requires CellEffect(s, t, |s.threads[t]| - 1, e) && s' == Apply(s, t, e)
    requires HoldsEffect(s, t, |s.threads[t]| - 1, s.threads[t][|s.threads[t]| - 1], e)
    requires i < |s.cells| && LockOk(s, i)
    ensures LockOk(s', i)
  {
    var lock := s'.cells[i].lock;
    var k := |s.threads[t]| - 1;
    if lock.Some? {
      if lock.value == Owner(t, k) {
        assert |e.top| > 0 && Holds(s, e.top[0], i);
        HoldsSame(s, s', e, e.top[0], i);
        assert s'.threads[t][k] == e.top[0];
      } else {
        var o := lock.value;
        assert s'.threads[o.t][o.k] == s.threads[o.t][o.k];
        HoldsSame(s, s', e, s.threads[o.t][o.k], i);
      }
    }
  }

  lemma HoldsSame(s: State, s': State, e: Effect, f: Frame, i: Id)
    requires Follows(s, s', e)
    ensures Holds(s, f, i) == Holds(s', f, i)
  {
    if f.c < |s.cells| { FollowsMono(s, s', e, f.c); }
  }

  /** The stack of the goroutine that stepped. */
  lemma OwnStackKept(s: State, s': State, t: Tid, e: Effect)
    requires t < |s.threads| && |s.threads[t]| > 0 && StackOk(s, t)
    requires CellEffect(s, t, |s.threads[t]| - 1, e) && s' == Apply(s, t, e)
    requires FramesEffect(s, t, |s.threads[t]| - 1, s.threads[t][|s.threads[t]| - 1], e)
    requires NewFramesOk(s', t, |s.threads[t]| - 1, e.top)
    ensures StackOk(s', t)
  {
    var stack, stack', k := s.threads[t], s'.threads[t], |s.threads[t]| - 1;
    var f := stack[k];
    forall j | 0 <= j < |stack'| ensures FrameOk(s', t, j, stack'[j]) {
      if j < k {
        assert stack'[j] == stack[j];
        FrameStable(s, s', e, Owner(t, k), t, j, stack[j]);
      }
    }
    forall j | 0 <= j < |stack'| - 1 ensures Link(s', stack'[j], stack'[j + 1]) {
      if j < k {
        assert Link(s, stack[j], stack[j + 1]);
        LinkSame(s, s', e, stack[j], stack[j + 1]);
      } else {
        LinkSame(s, s', e, e.top[0], e.top[1]);
      }
    }
    if |e.top| == 0 && k > 0 {
      assert Link(s, stack[k - 1], stack[k]);
      FollowsMono(s, s', e, f.c);
      assert stack'[|stack'| - 1] == stack[k - 1];
    }
  }

  lemma LinkSame(s: State, s': State, e: Effect, f: Frame, g: Frame)
    requires Follows(s, s', e)
    ensures Link(s, f, g) == Link(s', f, g)
  {
    if g.c < |s.cells| { FollowsMono(s, s', e, g.c); }
  }

  /** Any other goroutine's stack. */
  lemma OtherStackKept(s: State, s': State, t: Tid, e: Effect, u: Tid)
    requires t < |s.threads| && |s.threads[t]| > 0 && u < |s.threads| && u != t && StackOk(s, u)
    requires CellEffect(s, t, |s.threads[t]| - 1, e) && s' == Apply(s, t, e)
    ensures StackOk(s', u)
  {
    var stack, o := s.threads[u], Owner(t, |s.threads[t]| - 1);
    forall j | 0 <= j < |stack| ensures FrameOk(s', u, j, stack[j]) {
      FrameStable(s, s', e, o, u, j, stack[j]);
    }
    forall j | 0 <= j < |stack| - 1 ensures Link(s', stack[j], stack[j + 1]) {
      LinkSame(s, s', e, stack[j], stack[j + 1]);
    }
    if |stack| > 0 && stack[|stack| - 1].c < |s.cells| { FollowsMono(s, s', e, stack[|stack| - 1].c); }
  }

  /** How the sweep of a context proceeds. */
  ghost predicate SweepEffect(s: State, t: Tid, k: nat, f: Frame, e: Effect) {
    e.at < |s.cells|
    && (s.cells[e.at].err.None? && e.cell.err.Some? ==>
          |e.top| > 0 && e.top[0].Cancel? && e.top[0].c == e.at && e.top[0].pc.Close? && e.cell.lock == Some(Owner(t, k))
          && e.cell.children == s.cells[e.at].children
          && e.cell.cause.Some? && From(s, e.at, e.cell.err.value, e.cell.cause.value))
    && (f.Cancel? && f.pc.Close? ==>
          e.at == f.c && e.cell.children == s.cells[e.at].children && e.cell.lock == s.cells[e.at].lock && IsClosed(e.cell.done)
          && |e.top| == 1 && e.top[0].Cancel? && e.top[0].pc == Loop(if e.cell.children.Some? then e.cell.children.value else {}))
    && (f.Cancel? && f.pc.Loop? && f.pc.todo == {} ==> e.at == f.c && e.cell.children.None? && IsClosed(e.cell.done))
    && (f.Cancel? && f.pc.Loop? && f.pc.todo != {} ==>
          e.at == f.c && e.cell == s.cells[e.at] && |e.top| == 2 && e.top[0].Cancel? && e.top[1].Cancel?
          && e.top[0].pc == Loop(f.pc.todo - {e.top[1].c}))
  }

  lemma CancelSweep(s: State, t: Tid, k: nat, f: Frame, x: Id)
    requires f.Cancel? && FrameOk(s, t, k, f) && ParentsOk(s, f) && CancelStep(s, t, k, f, x).Some?
    ensures SweepEffect(s, t, k, f, CancelStep(s, t, k, f, x).value)
  {
  }

  lemma PropSweep(s: State, t: Tid, k: nat, f: Frame)
    requires f.Prop? && FrameOk(s, t, k, f) && ParentsOk(s, f) && PropStep(s, t, k, f).Some?
    ensures SweepEffect(s, t, k, f, PropStep(s, t, k, f).value)
  {
  }

  lemma ReadSweep(s: State, t: Tid, k: nat, f: Frame)
    requires !f.Cancel? && !f.Prop? && FrameOk(s, t, k, f) && ReadStep(s, f).Some?
    ensures SweepEffect(s, t, k, f, ReadStep(s, f).value)
  {
  }

  lemma ProvKept(s: State, s': State, t: Tid, k: nat, f: Frame, e: Effect, i: Id)
    requires CellEffect(s, t, k, e) && Follows(s, s', e) && SweepEffect(s, t, k, f, e)
    requires i < |s.cells| && ProvOk(s, i) && s.cells[i].cause.Some? == s.cells[i].err.Some?
    ensures ProvOk(s', i)
  {
    FollowsMono(s, s', e, i);
    if s'.cells[i].err.Some? {
      FromMono(s, s', e, i, s'.cells[i].err.value, s'.cells[i].cause.value);
    }
  }

  lemma SweepKept(s: State, s': State, t: Tid, e: Effect, i: Id)
    requires t < |s.threads| && |s.threads[t]| > 0
    requires var k := |s.threads[t]| - 1; var f := s.threads[t][k];
      CellEffect(s, t, k, e) && FramesEffect(s, t, k, f, e) && SweepEffect(s, t, k, f, e)
    requires s' == Apply(s, t, e) && i < |s.cells| && SweepOk(s, i)
    ensures SweepOk(s', i)
  {
    var k := |s.threads[t]| - 1;
    FollowsMono(s, s', e, i);
    if s'.cells[i].err.Some? && !Swept(s', i) {
      if s.cells[i].err.None? {
        assert s'.threads[t][k] == e.top[0];
      } else {
        var o := s.cells[i].lock.value;
        if o == Owner(t, k) {
          assert s'.threads[t][k] == e.top[0];
        } else {
          assert s'.threads[o.t][o.k] == s.threads[o.t][o.k];
        }
      }
    }
  }

  /** How contexts get and lose their place under a parent. */
  ghost predicate ChildEffect(s: State, f: Frame, e: Effect) {
    e.at < |s.cells| && InRange(s, f)
    && (s.cells[e.at].err.None? && s.cells[e.at].children.Some? ==>
          e.cell.children.Some? && forall i <- s.cells[e.at].children.value :: i in e.cell.children.value || Finished(s, i))
    && e.reg <= {f.c}
    && (f.c in e.reg ==>
          Up(s, f.c).None? || Finished(s, f.c)
          || (e.at == Up(s, f.c).value && e.cell.err.None? && e.cell.children.Some? && f.c in e.cell.children.value))
  }

  lemma CancelChild(s: State, t: Tid, k: nat, f: Frame, x: Id)
    requires f.Cancel? && FrameOk(s, t, k, f) && ParentsOk(s, f) && CancelStep(s, t, k, f, x).Some?
    ensures ChildEffect(s, f, CancelStep(s, t, k, f, x).value)
  {
  }

  lemma PropChild(s: State, t: Tid, k: nat, f: Frame)
    requires f.Prop? && FrameOk(s, t, k, f) && ParentsOk(s, f) && TopOk(s, f) && PropStep(s, t, k, f).Some?
    ensures ChildEffect(s, f, PropStep(s, t, k, f).value)
  {
  }

  lemma ReadChild(s: State, t: Tid, k: nat, f: Frame)
    requires !f.Cancel? && !f.Prop? && FrameOk(s, t, k, f) && ReadStep(s, f).Some?
    ensures ChildEffect(s, f, ReadStep(s, f).value)
  {
  }

  lemma ChildKept(s: State, s': State, t: Tid, e: Effect, i: Id)
    requires t < |s.threads| && |s.threads[t]| > 0
    requires var k := |s.threads[t]| - 1; var f := s.threads[t][k];
      CellEffect(s, t, k, e) && FramesEffect(s, t, k, f, e) && SweepEffect(s, t, k, f, e) && ChildEffect(s, f, e)
      && FrameOk(s, t, k, f)
    requires s' == Apply(s, t, e) && i < |s.cells| && ChildOk(s, i)
    ensures ChildOk(s', i)
  {
    var k := |s.threads[t]| - 1;
    FollowsMono(s, s', e, i);
    if !Finished(s, i) && Up(s, i).Some? && Up(s, i).value < |s.cells| {
      var p := Up(s, i).value;
      FollowsMono(s, s', e, p);
      if s.cells[p].err.None? {
        if s'.cells[p].err.Some? { assert s'.threads[t][k] == e.top[0]; }
      } else {
        PendingKept(s, s', t, e, p, i);
      }
    }
  }

  lemma PendingKept(s: State, s': State, t: Tid, e: Effect, p: Id, i: Id)
    requires t < |s.threads| && |s.threads[t]| > 0
    requires var k := |s.threads[t]| - 1; var f := s.threads[t][k];
      CellEffect(s, t, k, e) && FramesEffect(s, t, k, f, e) && SweepEffect(s, t, k, f, e) && FrameOk(s, t, k, f)
    requires s' == Apply(s, t, e) && p < |s.cells| && i < |s.cells|
    requires !Finished(s, i) && s.cells[p].children.Some? && Pending(s, p, i)
    ensures s'.cells[p].children.Some? && Pending(s', p, i)
  {
    var k, o := |s.threads[t]| - 1, s.cells[p].lock.value;
    var stack, stack' := s.threads[o.t], s'.threads[o.t];
    if o == Owner(t, k) {
      assert stack'[k] == e.top[0];
      if |e.top| == 2 { assert stack'[k + 1] == e.top[1]; }
    } else {
      assert stack'[o.k] == stack[o.k];
      if o.k + 1 < |stack| {
        if o.t == t && o.k + 1 == k {
          if |e.top| > 0 { assert stack'[k] == e.top[0]; }
        } else {
          assert stack'[o.k + 1] == stack[o.k + 1];
        }
      }
    }
  }

  /** Everything a step's effect satisfies. */
  ghost predicate EffectOk(s: State, t: Tid, k: nat, f: Frame, e: Effect) {
    CellEffect(s, t, k, e) && FramesEffect(s, t, k, f, e) && HoldsEffect(s, t, k, f, e)
    && SweepEffect(s, t, k, f, e) && ChildEffect(s, f, e)
  }

  lemma StepEffect(s: State, t: Tid, k: nat, f: Frame, x: Id)
    requires Ready(s, t, k, f) && TopOk(s, f) && FrameStep(s, t, k, f, x).Some?
    ensures EffectOk(s, t, k, f, FrameStep(s, t, k, f, x).value)
  {
    hide FrameOk, CellEffect, FramesEffect, HoldsEffect, SweepEffect, ChildEffect, CancelStep, PropStep, ReadStep, ParentsOk, TopOk;
    if f.Cancel? {
      if InCore(f) { CoreCell(s, t, k, f, x); } else { UnlinkCell(s, t, k, f, x); }
      CancelFrames(s, t, k, f, x);
      CancelHolds(s, t, k, f, x);
      CancelSweep(s, t, k, f, x);
      CancelChild(s, t, k, f, x);
    } else if f.Prop? {
      if Calling(f) { CallCell(s, t, k, f); } else { PropCell(s, t, k, f); }
      PropFrames(s, t, k, f);
      PropHolds(s, t, k, f);
      PropSweep(s, t, k, f);
      PropChild(s, t, k, f);
    } else {
      ReadCell(s, t, k, f);
      ReadFrames(s, t, k, f);
      ReadHolds(s, t, k, f);
      ReadSweep(s, t, k, f);
      ReadChild(s, t, k, f);
    }
  }

  lemma StepNewFrames(s: State, s': State, t: Tid, k: nat, f: Frame, x: Id)
    requires Ready(s, t, k, f) && FrameStep(s, t, k, f, x).Some?
    requires Follows(s, s', FrameStep(s, t, k, f, x).value)
    ensures NewFramesOk(s', t, k, FrameStep(s, t, k, f, x).value.top)
  {
    hide Ready, Follows, NewFramesOk, CancelStep, PropStep, ReadStep;
    if f.Cancel? {
      if InCore(f) { CoreNewFrames(s, s', t, k, f, x); } else { UnlinkNewFrames(s, s', t, k, f, x); }
    } else if f.Prop? {
      if Calling(f) { CallNewFrames(s, s', t, k, f); } else { PropNewFrames(s, s', t, k, f); }
    } else {
      ReadNewFrames(s, s', t, k, f);
    }
  }

  lemma InvReady(s: State, t: Tid)
    requires Inv(s) && t < |s.threads| && |s.threads[t]| > 0
    ensures var k := |s.threads[t]| - 1;
      Ready(s, t, k, s.threads[t][k]) && TopOk(s, s.threads[t][k])
  {
    assert StackOk(s, t);
    var f := s.threads[t][|s.threads[t]| - 1];
    assert FrameOk(s, t, |s.threads[t]| - 1, f);
    assert CellOk(s, f.c) && SweepOk(s, f.c);
    if Up(s, f.c).Some? { assert CellOk(s, Up(s, f.c).value) && SweepOk(s, Up(s, f.c).value); }
  }

  lemma CellKept(s: State, s': State, t: Tid, k: nat, e: Effect, i: Id)
    requires CellEffect(s, t, k, e) && Follows(s, s', e) && i < |s.cells| && CellOk(s, i)
    ensures CellOk(s', i)
  {
    FollowsMono(s, s', e, i);
    if s'.cells[i].children.Some? {
      forall x <- s'.cells[i].children.value ensures x < |s'.cells| && Up(s', x) == Some(i) {
        FollowsMono(s, s', e, x);
      }
    }
  }

  lemma StepKept(s: State, s': State, t: Tid, x: Id)
    requires Inv(s) && Steps(s, s', t, x)
    ensures Inv(s')
  {
    var k := |s.threads[t]| - 1;
    var f := s.threads[t][k];
    var e := Enabled(s, t, x).value;
    InvReady(s, t);
    StepEffect(s, t, k, f, x);
    StepNewFrames(s, s', t, k, f, x);
    StepParts(s, s', t, e);
  }

  lemma StepParts(s: State, s': State, t: Tid, e: Effect)
    requires Inv(s) && t < |s.threads| && |s.threads[t]| > 0
    requires EffectOk(s, t, |s.threads[t]| - 1, s.threads[t][|s.threads[t]| - 1], e) && s' == Apply(s, t, e)
    requires NewFramesOk(s', t, |s.threads[t]| - 1, e.top)
    ensures Inv(s')
  {
    var k := |s.threads[t]| - 1;
    hide CellOk, LockOk, SweepOk, ProvOk, ChildOk, StackOk, NewFramesOk;
    StepFrameOk(s, t);
    forall i | 0 <= i < |s'.cells| ensures CellOk(s', i) && LockOk(s', i) && SweepOk(s', i) && ProvOk(s', i) {
      CellKept(s, s', t, k, e, i);
      LockKept(s, s', t, e, i);
      SweepKept(s, s', t, e, i);
      CauseSync(s, i);
      ProvKept(s, s', t, k, s.threads[t][k], e, i);
    }
    forall i <- s'.registered ensures i < |s'.cells| && ChildOk(s', i) {
      if i in s.registered { ChildKept(s, s', t, e, i); } else { NewChild(s, s', t, e); }
    }
    forall u | 0 <= u < |s'.threads| ensures StackOk(s', u) {
      if u == t { OwnStackKept(s, s', t, e); } else { OtherStackKept(s, s', t, e, u); }
    }
  }

  lemma CauseSync(s: State, i: Id)
    requires i < |s.cells| && CellOk(s, i)
    ensures s.cells[i].cause.Some? == s.cells[i].err.Some?
  {
  }

  lemma StepFrameOk(s: State, t: Tid)
    requires Inv(s) && t < |s.threads| && |s.threads[t]| > 0
    ensures FrameOk(s, t, |s.threads[t]| - 1, s.threads[t][|s.threads[t]| - 1])
  {
    assert StackOk(s, t);
  }

  lemma NewChild(s: State, s': State, t: Tid, e: Effect)
    requires t < |s.threads| && |s.threads[t]| > 0
    requires var k := |s.threads[t]| - 1; var f := s.threads[t][k];
      CellEffect(s, t, k, e) && ChildEffect(s, f, e) && FrameOk(s, t, k, f) && f.c in e.reg
    requires s' == Apply(s, t, e)
    ensures var c := s.threads[t][|s.threads[t]| - 1].c; c < |s'.cells| && ChildOk(s', c)
  {
    FollowsMono(s, s', e, s.threads[t][|s.threads[t]| - 1].c);
  }

  /** s' has everything s has, with perhaps a new cell, a new goroutine, and one once taken. */
  ghost predicate Extends(s: State, s': State) {
    |s.cells| <= |s'.cells| && |s.threads| <= |s'.threads| && s'.registered == s.registered && s.direct <= s'.direct
    && (forall i | 0 <= i < |s.cells| :: SameCore(s.cells[i], s'.cells[i]))
    && (forall t | 0 <= t < |s.threads| :: s'.threads[t] == s.threads[t])
  }

  predicate SameCore(a: Cell, b: Cell) {
    b == a.(once := b.once, starts := b.starts, stops := b.stops) && (a.once ==> b.once)
  }

  lemma ExtendsMono(s: State, s': State, c: Id)
    requires Extends(s, s') && c < |s.cells|
    ensures Up(s', c) == Up(s, c) && SameCore(s.cells[c], s'.cells[c])
    ensures Finished(s, c) ==> Finished(s', c)
    ensures Swept(s, c) == Swept(s', c)
  {
  }

  lemma ExtendsFrom(s: State, s': State, c: Id, e: Err, q: Err)
    requires Extends(s, s') && c < |s.cells| && From(s, c, e, q)
    ensures From(s', c, e, q)
  {
    ExtendsMono(s, s', c);
    if Up(s, c).Some? && Up(s, c).value < |s.cells| { ExtendsMono(s, s', Up(s, c).value); }
  }

  lemma ExtendsFrame(s: State, s': State, t: Tid, k: nat, f: Frame)
    requires Extends(s, s') && FrameOk(s, t, k, f)
    ensures FrameOk(s', t, k, f)
  {
    ExtendsMono(s, s', f.c);
    if Up(s, f.c).Some? { ExtendsMono(s, s', Up(s, f.c).value); }
    if f.Cancel? { ExtendsFrom(s, s', f.c, f.err, f.cause); }
  }

  lemma ExtendsStack(s: State, s': State, t: Tid)
    requires Extends(s, s') && t < |s.threads| && StackOk(s, t)
    ensures StackOk(s', t)
  {
    var stack := s.threads[t];
    forall k | 0 <= k < |stack| ensures FrameOk(s', t, k, stack[k]) { ExtendsFrame(s, s', t, k, stack[k]); }
    forall k | 0 <= k < |stack| - 1 ensures Link(s', stack[k], stack[k + 1]) {
      assert Link(s, stack[k], stack[k + 1]);
      ExtendsMono(s, s', stack[k + 1].c);
    }
    if |stack| > 0 {
      assert FrameOk(s, t, |stack| - 1, stack[|stack| - 1]);
      ExtendsMono(s, s', stack[|stack| - 1].c);
    }
  }

  lemma ExtendsCell(s: State, s': State, i: Id)
    requires Extends(s, s') && i < |s.cells|
    requires LockOk(s, i) && SweepOk(s, i) && ProvOk(s, i) && StacksInRange(s)
    ensures LockOk(s', i) && SweepOk(s', i) && ProvOk(s', i)
  {
    ExtendsMono(s, s', i);
    var cell := s.cells[i];
    if cell.err.Some? && cell.cause.Some? { ExtendsFrom(s, s', i, cell.err.value, cell.cause.value); }
    if cell.lock.Some? {
      var o := cell.lock.value;
      var f := s.threads[o.t][o.k];
      assert s'.threads[o.t] == s.threads[o.t];
      assert InRange(s, f);
      ExtendsMono(s, s', f.c);
    }
  }

  ghost predicate StacksInRange(s: State) {
    forall t, k | 0 <= t < |s.threads| && 0 <= k < |s.threads[t]| :: InRange(s, s.threads[t][k])
  }

  lemma InvInRange(s: State)
    requires Inv(s)
    ensures StacksInRange(s)
  {
    forall t, k | 0 <= t < |s.threads| && 0 <= k < |s.threads[t]| ensures InRange(s, s.threads[t][k]) {
      assert StackOk(s, t);
      assert FrameOk(s, t, k, s.threads[t][k]);
    }
  }

  lemma ExtendsChild(s: State, s': State, i: Id)
    requires Extends(s, s') && i < |s.cells| && (Up(s, i).Some? ==> Up(s, i).value < |s.cells|) && ChildOk(s, i)
    ensures ChildOk(s', i)
  {
    ExtendsMono(s, s', i);
    if Up(s, i).Some? {
      ExtendsMono(s, s', Up(s, i).value);
      var lock := s.cells[Up(s, i).value].lock;
      if lock.Some? && lock.value.t < |s.threads| { assert s'.threads[lock.value.t] == s.threads[lock.value.t]; }
    }
  }

  lemma {:induction false} MentionsNearest(c: Ctx, ids: set<Id>)
    requires Mentions(c, ids)
    ensures Nearest(c).Some? ==> Nearest(c).value in ids
  {
    match c
    case ValueCtx(p, _, _) => MentionsNearest(p, ids);
    case _ =>
  }

  lemma ExtendsCellOk(s: State, s': State, i: Id)
    requires Extends(s, s') && i < |s.cells| && CellOk(s, i)
    requires s'.cells[i].starts + s'.cells[i].stops == if s'.cells[i].once then 1 else 0
    requires s'.cells[i].once ==> s'.cells[i].kind.After?
    ensures CellOk(s', i)
  {
    ExtendsMono(s, s', i);
    if s.cells[i].children.Some? {
      forall x <- s.cells[i].children.value ensures x < |s'.cells| && Up(s', x) == Some(i) { ExtendsMono(s, s', x); }
    }
  }

  /** The state after a call begins, apart from what is new. */
  lemma BeginExtends(s: State, s': State, call: Call)
    requires Inv(s) && Begins(s, s', call)
    ensures Extends(s, s')
    ensures forall i | 0 <= i < |s'.cells| :: CellOk(s', i)
  {
    forall i | 0 <= i < |s'.cells| ensures CellOk(s', i) {
      if i < |s.cells| {
        assert CellOk(s, i);
        ExtendsCellOk(s, s', i);
      } else {
        MentionsNearest(call.parent, s.registered);
      }
    }
  }

  /** The stack of the goroutine a call starts, if it starts one. */
  lemma BeginStack(s: State, s': State, call: Call, t: Tid)
    requires Inv(s) && Begins(s, s', call) && |s.threads| <= t < |s'.threads|
    ensures StackOk(s', t)
  {
    BeginExtends(s, s', call);
    assert |s'.threads[t]| == 1;
    assert CellOk(s', s'.threads[t][0].c);
    assert FrameOk(s', t, 0, s'.threads[t][0]);
  }

  lemma BeginKept(s: State, s': State, call: Call)
    requires Inv(s) && Begins(s, s', call)
    ensures Inv(s')
  {
    BeginExtends(s, s', call);
    InvInRange(s);
    forall i | 0 <= i < |s'.cells| ensures LockOk(s', i) && SweepOk(s', i) && ProvOk(s', i) {
      if i < |s.cells| { ExtendsCell(s, s', i); }
    }
    forall i <- s'.registered ensures i < |s'.cells| && ChildOk(s', i) {
      assert CellOk(s, i) && ChildOk(s, i);
      ExtendsChild(s, s', i);
    }
    forall t | 0 <= t < |s'.threads| ensures StackOk(s', t) {
      if t < |s.threads| { ExtendsStack(s, s', t); } else { BeginStack(s, s', call, t); }
    }
  }

  lemma NextKept(s: State, s': State)
    requires Inv(s) && Next(s, s')
    ensures Inv(s')
  {
    if t: Tid, x: Id :| Steps(s, s', t, x) {
      StepKept(s, s', t, x);
    } else {
      var call :| Begins(s, s', call);
      BeginKept(s, s', call);
    }
  }

  /** Every state of every run satisfies the invariant. */
  lemma {:induction false} RunInv(run: seq<State>, n: nat)
    requires Run(run) && n < |run|
    ensures Inv(run[n])
  {
    if n == 0 {
    } else {
      RunInv(run, n - 1);
      NextKept(run[n - 1], run[n]);
    }
  }
}
