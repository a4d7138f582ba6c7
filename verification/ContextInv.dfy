/** The invariant that every interleaving of context operations keeps. */
module ContextInv {
  import opened Wrappers
  import opened Context

  /** c's cancelCtx part has been cancelled and every child dealt with. */
  predicate Swept(s: State, c: Id) {
    c < |s.cells| && s.cells[c].err.Some? && s.cells[c].children.None? && IsClosed(s.cells[c].done)
  }

  /** ... and, for an AfterFunc, f has been started or stopped. */
  predicate Finished(s: State, c: Id) {
    Swept(s, c) && (s.cells[c].kind.After? ==> s.cells[c].once)
  }

  /** Frame f is inside the part of the code that holds i's lock. */
  predicate Holds(s: State, f: Frame, i: Id) {
    if f.Cancel? then (f.pc.Close? || f.pc.Loop?) && f.c == i
    else f.Prop? && f.ppc.Hold? && f.c < |s.cells| && Up(s, f.c) == Some(i)
  }

  ghost predicate CellOk(s: State, i: Id)
    requires i < |s.cells|
  {
    var cell := s.cells[i];
    (Up(s, i).Some? ==> Up(s, i).value < i)
    && (cell.children.Some? ==> forall x <- cell.children.value :: x < |s.cells| && Up(s, x) == Some(i))
    && cell.cause.Some? == cell.err.Some?
    && (IsClosed(cell.done) ==> cell.err.Some?)
    && cell.starts + cell.stops == (if cell.once then 1 else 0)
    && (cell.once ==> cell.kind.After?)
  }

  predicate OwnerFrame(s: State, o: Owner) {
    o.t < |s.threads| && o.k < |s.threads[o.t]|
  }

  predicate LockOk(s: State, i: Id)
    requires i < |s.cells|
  {
    var lock := s.cells[i].lock;
    lock.Some? ==> OwnerFrame(s, lock.value) && Holds(s, s.threads[lock.value.t][lock.value.k], i)
  }

  /** A cancelled context that is not swept yet is locked by the goroutine sweeping it. */
  predicate SweepOk(s: State, i: Id)
    requires i < |s.cells|
  {
    var cell := s.cells[i];
    cell.err.Some? && !Swept(s, i) ==>
      cell.lock.Some? && OwnerFrame(s, cell.lock.value)
      && var f := s.threads[cell.lock.value.t][cell.lock.value.k];
      f.Cancel? && f.c == i && (f.pc.Close? || (f.pc.Loop? && IsClosed(cell.done)))
  }

  /** The sweep of p has still to reach i, or is at it. */
  predicate Pending(s: State, p: Id, i: Id)
    requires p < |s.cells|
  {
    var cell := s.cells[p];
    cell.lock.Some? && OwnerFrame(s, cell.lock.value)
    && var stack, k := s.threads[cell.lock.value.t], cell.lock.value.k;
    stack[k].Cancel? && stack[k].c == p
    && ((stack[k].pc.Close? && cell.children.Some? && i in cell.children.value)
        || (stack[k].pc.Loop? && (i in stack[k].pc.todo || (k + 1 < |stack| && stack[k + 1].Cancel? && stack[k + 1].c == i))))
  }

  /** A registered context hangs from its parent until it is finished. */
  predicate ChildOk(s: State, i: Id)
    requires i < |s.cells|
  {
    Up(s, i).Some? && Up(s, i).value < |s.cells| ==>
      var p := Up(s, i).value;
      var cell := s.cells[p];
      Finished(s, i)
      || (if cell.err.None? then cell.children.Some? && i in cell.children.value
          else cell.children.Some? && Pending(s, p, i))
  }

  /** Who cancelled i with error e and cause q: a call from outside, or its parent. */
  predicate From(s: State, i: Id, e: Err, q: Err)
    requires i < |s.cells|
  {
    (i, e, q) in s.direct
    || (Up(s, i).Some? && Up(s, i).value < |s.cells|
        && s.cells[Up(s, i).value].err == Some(e) && s.cells[Up(s, i).value].cause == Some(q))
  }

  predicate ProvOk(s: State, i: Id)
    requires i < |s.cells|
  {
    s.cells[i].err.Some? && s.cells[i].cause.Some? ==> From(s, i, s.cells[i].err.value, s.cells[i].cause.value)
  }

  predicate CancelFrameOk(s: State, t: Tid, k: nat, f: Frame)
    requires f.Cancel? && InRange(s, f)
  {
    var cell := s.cells[f.c];
    From(s, f.c, f.err, f.cause)
    && (cell.kind.After? && f.remove ==> cell.once)
    && match f.pc
       case Enter => true
       case Close => cell.lock == Some(Owner(t, k)) && cell.err.Some? && !IsClosed(cell.done)
                     && cell.err == Some(f.err) && cell.cause == Some(f.cause)
       case Loop(todo) => cell.lock == Some(Owner(t, k)) && cell.err.Some? && IsClosed(cell.done)
                          && todo <= (if cell.children.Some? then cell.children.value else {})
                          && cell.err == Some(f.err) && cell.cause == Some(f.cause)
       case ParentDone => Swept(s, f.c) && f.remove
       case ParentCheck => Swept(s, f.c) && f.remove && Up(s, f.c).Some? && Own(s.cells[Up(s, f.c).value].done)
       case Unlink => Swept(s, f.c) && f.remove && Up(s, f.c).Some?
       case Post => Swept(s, f.c) && !cell.kind.Plain?
       case Return => Finished(s, f.c)
  }

  predicate PropFrameOk(s: State, t: Tid, k: nat, f: Frame)
    requires f.Prop? && InRange(s, f)
  {
    match f.ppc
    case GetDone => true
    case Select => Up(s, f.c).Some? && !s.cells[Up(s, f.c).value].done.NoChan?
    case GetErr => Up(s, f.c).Some? && IsClosed(s.cells[Up(s, f.c).value].done)
    case GetCause(e) => Up(s, f.c).Some? && s.cells[Up(s, f.c).value].err == Some(e)
    case Wait => Up(s, f.c).Some?
    case Check => Up(s, f.c).Some? && Own(s.cells[Up(s, f.c).value].done)
    case LockParent => Up(s, f.c).Some?
    case Hold => Up(s, f.c).Some? && s.cells[Up(s, f.c).value].lock == Some(Owner(t, k)) && Swept(s, Up(s, f.c).value)
    case Fallback => false
    case Panic => false
  }

  predicate FrameOk(s: State, t: Tid, k: nat, f: Frame) {
    InRange(s, f)
    && (f.Cancel? ==> CancelFrameOk(s, t, k, f))
    && (f.Prop? ==> PropFrameOk(s, t, k, f))
    && (f.ErrWait? || f.CauseCall? ==> s.cells[f.c].err == Some(f.got))
    && (f.CauseCall? ==> IsClosed(s.cells[f.c].done))
  }

  /** Frame g is called from frame f. */
  predicate Link(s: State, f: Frame, g: Frame) {
    g.Cancel? && !g.remove && g.c < |s.cells|
    && ((f.Cancel? && f.pc.Loop? && Up(s, g.c) == Some(f.c))
        || (f.Prop? && (f.ppc.Wait? || f.ppc.Hold?) && g.c == f.c))
  }

  ghost predicate StackOk(s: State, t: Tid)
    requires t < |s.threads|
  {
    var stack := s.threads[t];
    (forall k | 0 <= k < |stack| :: FrameOk(s, t, k, stack[k]))
    && (forall k | 0 <= k < |stack| - 1 :: Link(s, stack[k], stack[k + 1]))
    && (|stack| > 0 ==> TopOk(s, stack[|stack| - 1]))
  }

  /** A call of child.cancel that has returned left the child finished. */
  predicate TopOk(s: State, f: Frame) {
    f.Prop? && (f.ppc.Wait? || f.ppc.Hold?) ==> Finished(s, f.c)
  }

  ghost predicate Inv(s: State) {
    (forall i | 0 <= i < |s.cells| :: CellOk(s, i))
    && (forall i | 0 <= i < |s.cells| :: LockOk(s, i))
    && (forall i | 0 <= i < |s.cells| :: SweepOk(s, i))
    && (forall i | 0 <= i < |s.cells| :: ProvOk(s, i))
    && (forall i <- s.registered :: i < |s.cells|)
    && (forall i <- s.registered :: ChildOk(s, i))
    && (forall t | 0 <= t < |s.threads| :: StackOk(s, t))
  }
}
