/** Cancellation contexts of go/src/context/context.go, as goroutines that step between the
    lock operations of the cancelCtx tree. */
module Context {

  import opened Wrappers

  type Id = nat
  type Tid = nat

  datatype Err = Canceled | DeadlineExceeded | Custom(code: nat)

  /** A context as the user sees it: an immutable chain of wrappers. A cancelCtx or timerCtx is
      named by the id of its mutable cell. */
  datatype Ctx =
    | Background
    | CancelCtx(id: Id, parent: Ctx)
    | TimerCtx(id: Id, parent: Ctx, deadline: int)
    | ValueCtx(parent: Ctx, key: int, val: int)
    | WithoutCancelCtx(parent: Ctx)

  datatype Key = CancelKey | UserKey(key: int)
  datatype Val = CancelVal(id: Id) | UserVal(val: int)

  /** What Value(key) means: the innermost matching wrapper, with WithoutCancel hiding every
      cancelCtx above it. */
  function Lookup(c: Ctx, key: Key): Option<Val> {
    match c
    case Background => None
    case CancelCtx(id, p) => if key == CancelKey then Some(CancelVal(id)) else Lookup(p, key)
    case TimerCtx(id, p, _) => if key == CancelKey then Some(CancelVal(id)) else Lookup(p, key)
    case ValueCtx(p, k, v) => if key == UserKey(k) then Some(UserVal(v)) else Lookup(p, key)
    case WithoutCancelCtx(p) => if key == CancelKey then None else Lookup(p, key)
  }

  /** The loop of value(c, key). */
  method Value(c: Ctx, key: Key) returns (v: Option<Val>)
    ensures v == Lookup(c, key)
  {
    var ctx := c;
    while true
      invariant Lookup(ctx, key) == Lookup(c, key)
      decreases ctx
    {
      match ctx
      case ValueCtx(parent, k, val) =>
        if key == UserKey(k) { return Some(UserVal(val)); }
        ctx := parent;
      case CancelCtx(id, parent) =>
        if key == CancelKey { return Some(CancelVal(id)); }
        ctx := parent;
      case WithoutCancelCtx(parent) =>
        if key == CancelKey { return None; }
        ctx := parent;
      case TimerCtx(id, parent, _) =>
        if key == CancelKey { return Some(CancelVal(id)); }
        ctx := parent;
      case Background =>
        return None;
    }
  }

  /** The cancelCtx whose Done channel a context shares, if it has one. */
  function Nearest(c: Ctx): Option<Id> {
    match c
    case Background => None
    case CancelCtx(id, _) => Some(id)
    case TimerCtx(id, _, _) => Some(id)
    case ValueCtx(p, _, _) => Nearest(p)
    case WithoutCancelCtx(_) => None
  }

  /** Looking up the cancel key finds exactly the cancelCtx that Done is delegated to. */
  lemma {:induction false} LookupCancelKey(c: Ctx)
    ensures Lookup(c, CancelKey) == if Nearest(c).Some? then Some(CancelVal(Nearest(c).value)) else None
  {
    match c
    case ValueCtx(p, _, _) => LookupCancelKey(p);
    case _ =>
  }

  /** A context and all it wraps, innermost first. */
  function Chain(c: Ctx): seq<Ctx> {
    if c.Background? then [c] else [c] + Chain(c.parent)
  }

  predicate HasKey(c: Ctx, key: int) { c.ValueCtx? && c.key == key }

  /** Of all that c wraps, number i is the first to have the key; past the end: nothing has it. */
  predicate FirstWithKey(c: Ctx, key: int, i: nat) {
    i <= |Chain(c)| && (forall j | 0 <= j < i :: !HasKey(Chain(c)[j], key)) && (i < |Chain(c)| ==> HasKey(Chain(c)[i], key))
  }

  /** A user key is looked up in the innermost WithValue that has it, through every other wrapper. */
  lemma {:induction false} LookupUserKey(c: Ctx, key: int, i: nat)
    requires FirstWithKey(c, key, i)
    ensures Lookup(c, UserKey(key)) == if i < |Chain(c)| then Some(UserVal(Chain(c)[i].val)) else None
  {
    if c.Background? {
    } else if i > 0 {
      assert !HasKey(Chain(c)[0], key);
      assert forall j | 0 < j < |Chain(c)| :: Chain(c)[j] == Chain(c.parent)[j - 1];
      assert forall j | 0 <= j < i - 1 :: Chain(c.parent)[j] == Chain(c)[j + 1];
      LookupUserKey(c.parent, key, i - 1);
    }
  }

  /** Every cell a context mentions is in ids. */
  predicate Mentions(c: Ctx, ids: set<Id>) {
    match c
    case Background => true
    case CancelCtx(id, p) => id in ids && Mentions(p, ids)
    case TimerCtx(id, p, _) => id in ids && Mentions(p, ids)
    case ValueCtx(p, _, _) => Mentions(p, ids)
    case WithoutCancelCtx(p) => Mentions(p, ids)
  }

  datatype Kind = Plain | Timer | After

  /** A done channel: not made yet, made by Done, closed, or the shared closedchan. */
  datatype Chan = NoChan | Open | Closed | SharedClosed

  predicate IsClosed(d: Chan) { d.Closed? || d.SharedClosed? }
  /** The channel belongs to this context alone. */
  predicate Own(d: Chan) { d.Open? || d.Closed? }

  /** Which goroutine holds a mutex, and at which depth of its call stack (bookkeeping only). */
  datatype Owner = Owner(t: Tid, k: nat)

  /** The mutable part of a cancelCtx, timerCtx or afterFuncCtx. children is None for nil. */
  datatype Cell = Cell(kind: Kind, parent: Ctx, lock: Option<Owner>, done: Chan, children: Option<set<Id>>,
                       err: Option<Err>, cause: Option<Err>, once: bool, starts: nat, stops: nat)

  /** Where cancel is: the cancelCtx part (Enter, Close, Loop), removeChild (ParentDone,
      ParentCheck, Unlink), what the timer and AfterFunc wrappers still do (Post), returning. */
  datatype CancelPc = Enter | Close | Loop(todo: set<Id>) | ParentDone | ParentCheck | Unlink | Post | Return

  /** Where propagateCancel is; Hold and Wait are the two calls of child.cancel, with and without
      the parent's lock. Fallback and Panic are the branches for foreign contexts. */
  datatype PropPc = GetDone | Select | GetErr | GetCause(err: Err) | Wait | Check | LockParent | Hold | Fallback | Panic

  /** The calls in progress. ErrWait waits for Done to be closed, with the error it will return;
      for Cause, which asks Err first, it goes on to read the cause (CauseCall). */
  datatype Frame =
    | Cancel(c: Id, pc: CancelPc, remove: bool, err: Err, cause: Err)
    | Prop(c: Id, ppc: PropPc)
    | DoneCall(c: Id)
    | ErrCall(c: Id, forCause: bool)
    | ErrWait(c: Id, got: Err, forCause: bool)
    | CauseCall(c: Id, got: Err)
    | TimerSet(c: Id)

  /** registered: contexts whose propagateCancel has returned. direct: the cancellations asked
      for from outside, with the cause they resolve to. */
  datatype State = State(cells: seq<Cell>, threads: seq<seq<Frame>>, registered: set<Id>, direct: set<(Id, Err, Err)>)

  /** The cancelCtx a cell is (or should be) registered with. */
  function Up(s: State, c: Id): Option<Id>
    requires c < |s.cells|
  {
    Nearest(s.cells[c].parent)
  }

  /** What a step does: at most one cell written, at most one context registered, and the top
      frame replaced by zero, one or two frames. */
  datatype Effect = Effect(at: Id, cell: Cell, reg: set<Id>, top: seq<Frame>)

  function AfterCore(kind: Kind, remove: bool, skipped: bool): CancelPc {
    if skipped && kind.Plain? then Return
    else if remove then ParentDone
    else Rest(kind)
  }

  function Rest(kind: Kind): CancelPc {
    if kind.Plain? then Return else Post
  }

  /** Every id that frame f uses exists. */
  predicate InRange(s: State, f: Frame) {
    f.c < |s.cells| && (Up(s, f.c).Some? ==> Up(s, f.c).value < |s.cells|)
  }

  /** A step of cancel, by pc; None when it has to wait. */
  function CancelStep(s: State, t: Tid, k: nat, f: Frame, x: Id): Option<Effect>
    requires f.Cancel? && InRange(s, f)
  {
    var cell, up := s.cells[f.c], Up(s, f.c);
    match f.pc
    case Enter =>
      if cell.lock.Some? then None
      else if cell.err.Some? then
        Some(Effect(f.c, cell, {}, [f.(pc := AfterCore(cell.kind, f.remove, true))]))
      else
        Some(Effect(f.c, cell.(lock := Some(Owner(t, k)), err := Some(f.err), cause := Some(f.cause)), {}, [f.(pc := Close)]))
    case Close =>
      Some(Effect(f.c, cell.(done := if cell.done.NoChan? then SharedClosed else Closed), {},
                  [f.(pc := Loop(if cell.children.Some? then cell.children.value else {}))]))
    case Loop(todo) =>
      if todo == {} then
        Some(Effect(f.c, cell.(children := None, lock := None), {}, [f.(pc := AfterCore(cell.kind, f.remove, false))]))
      else if x in todo then
        Some(Effect(f.c, cell, {}, [f.(pc := Loop(todo - {x})), Cancel(x, Enter, false, f.err, f.cause)]))
      else None
    case ParentDone =>
      if up.None? then Some(Effect(f.c, cell, {}, [f.(pc := Rest(cell.kind))]))
      else
        var p := s.cells[up.value];
        if p.done.SharedClosed? then Some(Effect(f.c, cell, {}, [f.(pc := Rest(cell.kind))]))
        else if !p.done.NoChan? then Some(Effect(f.c, cell, {}, [f.(pc := ParentCheck)]))
        else if p.lock.Some? then None
        else Some(Effect(up.value, p.(done := Open), {}, [f.(pc := ParentCheck)]))
    case ParentCheck =>
      if up.Some? && Own(s.cells[up.value].done) then Some(Effect(f.c, cell, {}, [f.(pc := Unlink)]))
      else Some(Effect(f.c, cell, {}, [f.(pc := Rest(cell.kind))]))
    case Unlink =>
      if up.None? then None
      else
        var p := s.cells[up.value];
        if p.lock.Some? then None
        else Some(Effect(up.value, p.(children := if p.children.Some? then Some(p.children.value - {f.c}) else None), {},
                         [f.(pc := Rest(cell.kind))]))
    case Post =>
      if cell.kind.After? then
        Some(Effect(f.c, if cell.once then cell else cell.(once := true, starts := cell.starts + 1), {}, [f.(pc := Return)]))
      else if cell.lock.Some? then None
      else Some(Effect(f.c, cell, {}, [f.(pc := Return)]))
    case Return => Some(Effect(f.c, cell, {}, []))
  }

  /** A step of propagateCancel(parent, child). */
  function PropStep(s: State, t: Tid, k: nat, f: Frame): Option<Effect>
    requires f.Prop? && InRange(s, f)
  {
    var cell, up := s.cells[f.c], Up(s, f.c);
    if up.None? then
      if f.ppc.GetDone? then Some(Effect(f.c, cell, {f.c}, [])) else None
    else
      var u := up.value;
      var p := s.cells[u];
      match f.ppc
      case GetDone =>
        if !p.done.NoChan? then Some(Effect(u, p, {}, [f.(ppc := Select)]))
        else if p.lock.Some? then None
        else Some(Effect(u, p.(done := Open), {}, [f.(ppc := Select)]))
      case Select =>
        Some(Effect(u, p, {}, [f.(ppc := if IsClosed(p.done) then GetErr else Check)]))
      case GetErr =>
        if p.err.Some? then Some(Effect(u, p, {}, [f.(ppc := GetCause(p.err.value))]))
        else Some(Effect(u, p, {}, [f.(ppc := Panic)]))
      case GetCause(e) =>
        if p.lock.Some? then None
        else Some(Effect(u, p, {}, [f.(ppc := Wait), Cancel(f.c, Enter, false, e, if p.cause.Some? then p.cause.value else e)]))
      case Wait => Some(Effect(u, p, {f.c}, []))
      case Check =>
        Some(Effect(u, p, {}, [f.(ppc := if Own(p.done) then LockParent else Fallback)]))
      case LockParent =>
        if p.lock.Some? then None
        else if p.err.Some? then
          Some(Effect(u, p.(lock := Some(Owner(t, k))), {},
                      [f.(ppc := Hold), Cancel(f.c, Enter, false, p.err.value, if p.cause.Some? then p.cause.value else p.err.value)]))
        else
          Some(Effect(u, p.(children := Some((if p.children.Some? then p.children.value else {}) + {f.c})), {f.c}, []))
      case Hold => Some(Effect(u, p.(lock := None), {f.c}, []))
      case Fallback => None
      case Panic => None
  }

  /** A step of the calls that only read: Done, Err, Cause, and arming the timer. */
  function ReadStep(s: State, f: Frame): Option<Effect>
    requires !f.Cancel? && !f.Prop? && InRange(s, f)
  {
    var cell := s.cells[f.c];
    match f
    case DoneCall(c) =>
      if !cell.done.NoChan? then Some(Effect(c, cell, {}, []))
      else if cell.lock.Some? then None
      else Some(Effect(c, cell.(done := Open), {}, []))
    case ErrCall(c, forCause) =>
      if cell.err.None? then Some(Effect(c, cell, {}, [])) else Some(Effect(c, cell, {}, [ErrWait(c, cell.err.value, forCause)]))
    case ErrWait(c, got, forCause) =>
      if IsClosed(cell.done) then Some(Effect(c, cell, {}, if forCause then [CauseCall(c, got)] else [])) else None
    case CauseCall(c, _) => if cell.lock.Some? then None else Some(Effect(c, cell, {}, []))
    case TimerSet(c) => if cell.lock.Some? then None else Some(Effect(c, cell, {}, []))
  }

  /** The call in frame f is Err or Cause. */
  predicate Asks(f: Frame) { f.ErrCall? || f.ErrWait? || f.CauseCall? }

  /** What Err or Cause hands out when frame f returns in s; None is nil. */
  function Answer(s: State, f: Frame): Option<Err>
    requires Asks(f) && InRange(s, f)
  {
    match f
    case ErrWait(_, got, _) => Some(got)
    case CauseCall(c, got) => Some(if s.cells[c].cause.Some? then s.cells[c].cause.value else got)
    case _ => None
  }

  function FrameStep(s: State, t: Tid, k: nat, f: Frame, x: Id): Option<Effect>
    requires InRange(s, f)
  {
    if f.Cancel? then CancelStep(s, t, k, f, x) else if f.Prop? then PropStep(s, t, k, f) else ReadStep(s, f)
  }

  function Apply(s: State, t: Tid, e: Effect): State
    requires t < |s.threads| && |s.threads[t]| > 0 && e.at < |s.cells|
  {
    var stack := s.threads[t];
    s.(cells := s.cells[e.at := e.cell], threads := s.threads[t := stack[..|stack| - 1] + e.top], registered := s.registered + e.reg)
  }

  /** What goroutine t can do next: its effect, if it is not finished or waiting. */
  function Enabled(s: State, t: Tid, x: Id): Option<Effect> {
    if t < |s.threads| && |s.threads[t]| > 0 then
      var k := |s.threads[t]| - 1;
      if InRange(s, s.threads[t][k]) then FrameStep(s, t, k, s.threads[t][k], x) else None
    else None
  }

  /** Calls from outside; each runs in a goroutine of its own. */
  datatype Call =
    | NewCall(kind: Kind, parent: Ctx)
    | CancelCall(c: Id, remove: bool, err: Err, why: Option<Err>)
    | StopCall(c: Id)
    | ReadCall(f: Frame)

  predicate Allowed(s: State, call: Call) {
    match call
    case NewCall(_, parent) => Mentions(parent, s.registered)
    case CancelCall(c, _, _, _) => c in s.registered && c < |s.cells| && !s.cells[c].kind.After?
    case StopCall(c) => c in s.registered && c < |s.cells| && s.cells[c].kind.After?
    case ReadCall(f) => f.c in s.registered && (f.DoneCall? || f.ErrCall? || f.TimerSet?)
  }

  /** WithCancel, WithDeadline and AfterFunc make a cell and propagate to it; a CancelFunc, a
      firing timer or an expired deadline cancels; stop takes the once and then cancels. */
  function Begin(s: State, call: Call): State
    requires Allowed(s, call)
  {
    match call
    case NewCall(kind, parent) =>
      s.(cells := s.cells + [Cell(kind, parent, None, NoChan, None, None, None, false, 0, 0)],
         threads := s.threads + [[Prop(|s.cells|, GetDone)]])
    case CancelCall(c, remove, err, why) =>
      var cause := if why.Some? then why.value else err;
      s.(threads := s.threads + [[Cancel(c, Enter, remove, err, cause)]], direct := s.direct + {(c, err, cause)})
    case StopCall(c) =>
      if s.cells[c].once then s
      else
        s.(cells := s.cells[c := s.cells[c].(once := true, stops := s.cells[c].stops + 1)],
           threads := s.threads + [[Cancel(c, Enter, true, Canceled, Canceled)]],
           direct := s.direct + {(c, Canceled, Canceled)})
    case ReadCall(f) => s.(threads := s.threads + [[f]])
  }

  const Init := State([], [], {}, {})

  ghost predicate Steps(s: State, s': State, t: Tid, x: Id) {
    Enabled(s, t, x).Some? && Enabled(s, t, x).value.at < |s.cells| && s' == Apply(s, t, Enabled(s, t, x).value)
  }

  ghost predicate Begins(s: State, s': State, call: Call) {
    Allowed(s, call) && s' == Begin(s, call)
  }

  ghost predicate Next(s: State, s': State) {
    (exists t: Tid, x: Id :: Steps(s, s', t, x)) || (exists call: Call :: Begins(s, s', call))
  }

  /** A run: any interleaving of steps and new calls, from nothing. */
  ghost predicate Run(states: seq<State>) {
    |states| > 0 && states[0] == Init && forall n :: 0 <= n < |states| - 1 ==> Next(states[n], states[n + 1])
  }
}
