/** The synchronous in-memory pipe of go/src/io/pipe.go: any number of read, write and close
    calls, stepping between channel, mutex and error-cell operations. */
module Pipe {

  import opened Wrappers

  type Tid = nat
  type Byte = int

  datatype Err = ErrClosedPipe | EOF | Other(code: nat)

  /** Where a read is: the first look at done, the second select, copying from the slice it
      received, answering on rdCh, loading the two errors, back with a result. */
  datatype ReadPc =
    | RCheck | RSelect | RCopy(bw: seq<Byte>) | RReply | RLoad | RLoadOther(rerr: Option<Err>)
    | RReturned(n: nat, err: Option<Err>)

  /** Where a write is. held: the write holds wrMu, which the deferred Unlock releases. WPanic is
      the slice b[nw:] with nw out of range. */
  datatype WritePc =
    | WCheck | WLock | WLoop(once: bool) | WWait | WLoad(held: bool) | WLoadOther(held: bool, werr: Option<Err>)
    | WUnlock(err: Option<Err>) | WReturned(err: Option<Err>) | WPanic

  datatype ClosePc = CStore | CDone | CReturned

  /** A call. A reader's got is what it copied into its buffer of length size; a writer's data is
      the argument, b what is left of it and n the count to be returned. */
  datatype Proc =
    | Reader(size: nat, rpc: ReadPc, got: seq<Byte>)
    | Writer(data: seq<Byte>, wpc: WritePc, b: seq<Byte>, n: nat)
    | Closer(readEnd: bool, err: Err, cpc: ClosePc)

  /** wrMu is the goroutine holding the mutex. Two logs: locks, the writes in the order they took
      wrMu, and takes, the reads in the order they received from wrCh. */
  datatype State = State(wrMu: Option<Tid>, done: bool, rerr: Option<Err>, werr: Option<Err>,
                         procs: seq<Proc>, locks: seq<Tid>, takes: seq<Tid>)

  const Init := State(None, false, None, None, [], [], [])

  function Min(a: nat, b: nat): nat { if a < b then a else b }

  /** A step of one call by itself. SeeDone is the done branch of the second select. */
  datatype Move = Local(t: Tid) | SeeDone(t: Tid) | Send(w: Tid, r: Tid) | Ack(r: Tid, w: Tid) | Start(call: Call)

  datatype Call = ReadCall(size: nat) | WriteCall(data: seq<Byte>) | CloseReadCall(err: Option<Err>) | CloseWriteCall(err: Option<Err>)

  function NewProc(call: Call): Proc {
    match call
    case ReadCall(size) => Reader(size, RCheck, [])
    case WriteCall(data) => Writer(data, WCheck, data, 0)
    case CloseReadCall(err) => Closer(true, if err.Some? then err.value else ErrClosedPipe, CStore)
    case CloseWriteCall(err) => Closer(false, if err.Some? then err.value else EOF, CStore)
  }

  /** The test of the write loop. */
  predicate Looping(p: Proc)
    requires p.Writer? && p.wpc.WLoop?
  {
    p.wpc.once || |p.b| > 0
  }

  predicate CanRead(s: State, pc: ReadPc) {
    pc.RCheck? || pc.RCopy? || pc.RLoad? || pc.RLoadOther?
  }

  predicate CanWrite(s: State, p: Proc)
    requires p.Writer?
  {
    match p.wpc
    case WCheck => true
    case WLock => s.wrMu.None?
    case WLoop(_) => !Looping(p)
    case WLoad(_) => true
    case WLoadOther(_, _) => true
    case WUnlock(_) => true
    case _ => false
  }

  /** The calls that can take a given step now. */
  predicate Can(s: State, m: Move) {
    match m
    case Local(t) =>
      t < |s.procs| &&
      (match s.procs[t]
       case Reader(_, pc, _) => CanRead(s, pc)
       case Writer(_, _, _, _) => CanWrite(s, s.procs[t])
       case Closer(_, _, pc) => !pc.CReturned?)
    case SeeDone(t) =>
      t < |s.procs| && s.done &&
      (match s.procs[t]
       case Reader(_, pc, _) => pc.RSelect?
       case Writer(_, pc, _, _) => pc.WLoop? && Looping(s.procs[t])
       case Closer(_, _, _) => false)
    case Send(w, r) =>
      w < |s.procs| && r < |s.procs| && s.procs[w].Writer? && s.procs[w].wpc.WLoop? && Looping(s.procs[w])
      && s.procs[r].Reader? && s.procs[r].rpc.RSelect?
    case Ack(r, w) =>
      w < |s.procs| && r < |s.procs| && s.procs[w].Writer? && s.procs[w].wpc.WWait?
      && s.procs[r].Reader? && s.procs[r].rpc.RReply?
    case Start(_) => true
  }

  /** A read that finds done not closed goes on; readCloseError prefers the writer's error. */
  function ReadStep(s: State, t: Tid): State
    requires Can(s, Local(t)) && s.procs[t].Reader?
  {
    var p := s.procs[t];
    match p.rpc
    case RCheck => s.(procs := s.procs[t := p.(rpc := if s.done then RLoad else RSelect)])
    case RCopy(bw) => s.(procs := s.procs[t := p.(rpc := RReply, got := bw[..Min(p.size, |bw|)])])
    case RLoad => s.(procs := s.procs[t := p.(rpc := RLoadOther(s.rerr))])
    case RLoadOther(rerr) =>
      s.(procs := s.procs[t := p.(rpc := RReturned(0, if rerr.None? && s.werr.Some? then s.werr else Some(ErrClosedPipe)))])
    case _ => s
  }

  function WriteStep(s: State, t: Tid): State
    requires Can(s, Local(t)) && s.procs[t].Writer?
  {
    var p := s.procs[t];
    match p.wpc
    case WCheck => s.(procs := s.procs[t := p.(wpc := if s.done then WLoad(false) else WLock)])
    case WLock => s.(procs := s.procs[t := p.(wpc := WLoop(true))], wrMu := Some(t), locks := s.locks + [t])
    case WLoop(_) => s.(procs := s.procs[t := p.(wpc := WUnlock(None))])
    case WLoad(held) => s.(procs := s.procs[t := p.(wpc := WLoadOther(held, s.werr))])
    case WLoadOther(held, werr) =>
      var err := if werr.None? && s.rerr.Some? then s.rerr else Some(ErrClosedPipe);
      s.(procs := s.procs[t := p.(wpc := if held then WUnlock(err) else WReturned(err))])
    case WUnlock(err) => s.(procs := s.procs[t := p.(wpc := WReturned(err))], wrMu := None)
    case _ => s
  }

  /** onceError.Store keeps the first error; once.Do closes done at most once. */
  function CloseStep(s: State, t: Tid): State
    requires Can(s, Local(t)) && s.procs[t].Closer?
  {
    var p := s.procs[t];
    if p.cpc.CStore? then
      var s1 := s.(procs := s.procs[t := p.(cpc := CDone)]);
      if p.readEnd then (if s.rerr.None? then s1.(rerr := Some(p.err)) else s1)
      else if s.werr.None? then s1.(werr := Some(p.err)) else s1
    else
      s.(procs := s.procs[t := p.(cpc := CReturned)], done := true)
  }

  function SeeDoneStep(s: State, t: Tid): State
    requires Can(s, SeeDone(t))
  {
    var p := s.procs[t];
    if p.Reader? then s.(procs := s.procs[t := p.(rpc := RLoad)])
    else if p.Writer? then s.(procs := s.procs[t := p.(wpc := WLoad(true))])
    else s
  }

  /** The rendezvous on wrCh: the reader receives the writer's slice. */
  function SendStep(s: State, w: Tid, r: Tid): State
    requires Can(s, Send(w, r))
  {
    s.(procs := s.procs[w := s.procs[w].(wpc := WWait)][r := s.procs[r].(rpc := RCopy(s.procs[w].b))],
       takes := s.takes + [r])
  }

  /** The rendezvous on rdCh: the writer learns how much was copied. Whichever reader is sending
      and whichever writer is receiving can meet. */
  function AckStep(s: State, r: Tid, w: Tid): State
    requires Can(s, Ack(r, w))
  {
    var nw, p := |s.procs[r].got|, s.procs[w];
    var p' := if nw <= |p.b| then p.(wpc := WLoop(false), b := p.b[nw..], n := p.n + nw) else p.(wpc := WPanic);
    s.(procs := s.procs[w := p'][r := s.procs[r].(rpc := RReturned(nw, None))])
  }

  function Step(s: State, m: Move): State
    requires Can(s, m)
  {
    match m
    case Local(t) =>
      if s.procs[t].Reader? then ReadStep(s, t) else if s.procs[t].Writer? then WriteStep(s, t) else CloseStep(s, t)
    case SeeDone(t) => SeeDoneStep(s, t)
    case Send(w, r) => SendStep(s, w, r)
    case Ack(r, w) => AckStep(s, r, w)
    case Start(call) => s.(procs := s.procs + [NewProc(call)])
  }

  ghost predicate Next(s: State, s': State) {
    exists m: Move :: Can(s, m) && s' == Step(s, m)
  }

  /** A run: any interleaving of calls, from a fresh pipe. */
  ghost predicate Run(states: seq<State>) {
    |states| > 0 && states[0] == Init && forall n :: 0 <= n < |states| - 1 ==> Next(states[n], states[n + 1])
  }
}
