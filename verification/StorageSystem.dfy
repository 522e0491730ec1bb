/** The interleaved storage system: threads with program counters sharing the store of
    storage_kernel.c and the mirror of storage_mirror_kernel.c. Each mutex is held by at
    most one thread, lock bits are examined one sector at a time, and every copy moves one
    byte at a time, in any order, until it ends or faults. The step that faults may change
    the whole requested range at once, and a backup's kernel_write takes its bytes in one
    step. A schedule says which thread acts next and resolves what the environment decides
    (faults, signals, short writes). */
module StorageSystem {
  import opened Kernel
  import opened StorageSpec

  type Tid = nat
  type Keys = seq<Option<byte>>

  datatype Call = Op(req: Request) | Mirror(sector: int) | Backup(emptyPath: bool)

  /** Everything the threads share. `sm` and `mm` say who holds storage_mutex and
      mirror_mutex. */
  datatype Shared = Shared(store: Store, mirror: seq<byte>, sm: Option<Tid>, mm: Option<Tid>)

  /** Program counter and local variables of a thread. `todo` holds the byte positions a
      copy has still to move. */
  datatype Local =
    | Idle
    | Entered(call: Call)
      // handlers that use storage_mutex
    | Waiting(req: Request)
    | Checking(req: Request, s: int)
    | Reading(req: Request, buf: seq<byte>, todo: set<nat>)
    | Writing(req: Request, todo: set<nat>)
    | Body(req: Request)
    | Erasing(req: Request, todo: set<nat>)
    | Scanning(req: Request, info: seq<bool>)
    | Leaving(req: Request, env: Env, reply: Reply)
    | CopyingInfo(reply: Reply)
      // mirror_sector
    | MirrorWaiting(sector: nat)
    | Mirroring(sector: nat, todo: set<nat>)
    | MirrorLeaving(sector: nat)
      // vblock_backup_to_file
    | BackupWaiting
    | Dumping(file: seq<byte>, pos: nat, written: nat)
    | BackupLeaving(file: seq<byte>, written: nat, ret: int)
    | Finished(call: Call, reply: Reply)

  datatype Action =
    | Invoke(call: Call)
    | Go                        // the thread's next step, where nothing else decides it
    | Acquire
    | Release
    | Interrupt                 // a signal ends an interruptible wait for a mutex
    | ArgFault                  // copying the ioctl argument faults
    | CopyByte(j: nat)
    | CopyFault(junk: seq<byte>)
    | OpenError(err: int)
    | KernelWrite(rc: int)

  datatype Move = Move(sh: Shared, l: Local)

  /** What the VFS guarantees about the arguments of a call. */
  predicate Sane(call: Call) {
    match call
    case Op(Read(off, length)) => off + length <= LLONG_MAX
    case Op(Write(off, data)) => off + |data| <= LLONG_MAX
    case _ => true
  }

  predicate LockedAt(st: Store, s: int) {
    0 <= s < |st.locks| && st.locks[s]
  }

  function Entry(keys: Keys, sh: Shared, call: Call, a: Action): Option<Move> {
    match a
    case ArgFault =>
      if call.Op? && !TakesArgument(call.req) then None
      else Some(Move(sh, Finished(call, Code(-EFAULT))))
    case OpenError(err) =>
      if call.Backup? && !call.emptyPath && err < 0 then Some(Move(sh, Finished(call, Code(err)))) else None
    case Go =>
      (match call
       case Op(req) =>
         var early := EarlyReply(keys, req);
         Some(Move(sh, if early.Some? then Finished(call, early.value) else Waiting(req)))
       case Mirror(s) =>
         Some(Move(sh, if SectorInRange(s) then MirrorWaiting(s) else Finished(call, Code(-EINVAL))))
       case Backup(emptyPath) =>
         Some(Move(sh, if emptyPath then Finished(call, Code(-EINVAL)) else BackupWaiting)))
    case _ => None
  }

  /** Where a handler goes once it holds storage_mutex. */
  function FirstStep(req: Request): Local {
    match req
    case Read(off, length) =>
      var n := if off < STORAGE_TOTAL_SIZE then Clamped(off, length) else 0;
      Reading(req, Zeros(n), Range(n))
    case Write(off, _) => Checking(req, SectorOf(off))
    case LockInfo => Scanning(req, [])
    case _ => Body(req)
  }

  function Wait(sh: Shared, t: Tid, req: Request, a: Action): Option<Move> {
    match a
    case Acquire => if sh.sm.None? then Some(Move(sh.(sm := Some(t)), FirstStep(req))) else None
    case Interrupt =>
      if Interruptible(req) then Some(Move(sh, Finished(Op(req), Interrupted(req)))) else None
    case _ => None
  }

  function WriteLength(req: Request): nat
    requires req.Write?
  {
    if req.off < STORAGE_TOTAL_SIZE then Clamped(req.off, |req.data|) else 0
  }

  function Check(sh: Shared, req: Request, s: int, a: Action): Option<Move> {
    if !a.Go? || !req.Write? then None
    else
      var n := WriteLength(req);
      if s > LastSector(req.off, n) then Some(Move(sh, Writing(req, Range(n))))
      else if LockedAt(sh.store, s) then Some(Move(sh, Leaving(req, Fine, At(-EPERM, req.off))))
      else Some(Move(sh, Checking(req, s + 1)))
  }

  function CopyOut(sh: Shared, req: Request, buf: seq<byte>, todo: set<nat>, a: Action): Option<Move> {
    if !req.Read? then None else
    match a
    case CopyByte(j) =>
      if j in todo && j < |buf| && req.off + j < |sh.store.bytes|
      then Some(Move(sh, Reading(req, buf[j := sh.store.bytes[req.off + j]], todo - {j})))
      else None
    case CopyFault(_) =>
      if todo != {} then Some(Move(sh, Leaving(req, Faulted([]), At(-EFAULT, req.off)))) else None
    case Go =>
      if todo == {} then Some(Move(sh, Leaving(req, Fine, Reply(|buf|, req.off + |buf|, buf, [])))) else None
    case _ => None
  }

  function CopyIn(sh: Shared, req: Request, todo: set<nat>, a: Action): Option<Move> {
    if !req.Write? then None else
    var n := WriteLength(req);
    var bytes := sh.store.bytes;
    match a
    case CopyByte(j) =>
      if j in todo && j < |req.data| && req.off + j < |bytes|
      then Some(Move(sh.(store := sh.store.(bytes := bytes[req.off + j := req.data[j]])), Writing(req, todo - {j})))
      else None
    case CopyFault(junk) =>
      if todo != {} && req.off + n <= |bytes|
      then
        var bytes' := Scribble(bytes, req.off, n, junk);
        Some(Move(sh.(store := sh.store.(bytes := bytes')),
                  Leaving(req, Faulted(bytes'[req.off..req.off + n]), At(-EFAULT, req.off))))
      else None
    case Go =>
      if todo == {} then Some(Move(sh, Leaving(req, Fine, At(n, req.off + n)))) else None
    case _ => None
  }

  function RunBody(sh: Shared, req: Request, a: Action): Option<Move> {
    if !a.Go? then None else
    match req
    case Lock(s) =>
      if !(0 <= s < |sh.store.locks|) then None
      else Some(Move(sh.(store := sh.store.(locks := sh.store.locks[s := true])), Leaving(req, Fine, Code(0))))
    case Unlock(s, _) =>
      if !(0 <= s < |sh.store.locks|) then None
      else Some(Move(sh.(store := sh.store.(locks := sh.store.locks[s := false])), Leaving(req, Fine, Code(0))))
    case Erase(s) =>
      if LockedAt(sh.store, s) then Some(Move(sh, Leaving(req, Fine, Code(-EPERM))))
      else Some(Move(sh, Erasing(req, Range(STORAGE_SECTOR_SIZE))))
    case _ => None
  }

  function Clear(sh: Shared, req: Request, todo: set<nat>, a: Action): Option<Move> {
    if !req.Erase? then None else
    match a
    case CopyByte(j) =>
      var i := req.sector * STORAGE_SECTOR_SIZE + j;
      if j in todo && 0 <= i < |sh.store.bytes|
      then Some(Move(sh.(store := sh.store.(bytes := sh.store.bytes[i := 0])), Erasing(req, todo - {j})))
      else None
    case Go => if todo == {} then Some(Move(sh, Leaving(req, Fine, Code(0)))) else None
    case _ => None
  }

  function Scan(sh: Shared, req: Request, info: seq<bool>, a: Action): Option<Move> {
    if !a.Go? then None
    else if |info| < STORAGE_NUM_SECTORS then
      if |info| < |sh.store.locks| then Some(Move(sh, Scanning(req, info + [sh.store.locks[|info|]]))) else None
    else Some(Move(sh, Leaving(req, Fine, Reply(0, 0, [], info))))
  }

  function Leave(sh: Shared, t: Tid, req: Request, reply: Reply, a: Action): Option<Move> {
    if a.Release? && sh.sm == Some(t)
    then Some(Move(sh.(sm := None), if req.LockInfo? then CopyingInfo(reply) else Finished(Op(req), reply)))
    else None
  }

  /** The lock vector goes to user space after the mutex was released. */
  function CopyInfo(sh: Shared, reply: Reply, a: Action): Option<Move> {
    match a
    case Go => Some(Move(sh, Finished(Op(LockInfo), reply)))
    case CopyFault(_) => Some(Move(sh, Finished(Op(LockInfo), Code(-EFAULT))))
    case _ => None
  }

  /** The mirror's part of the system; it reads the store without storage_mutex. */
  function MirrorStep(sh: Shared, t: Tid, l: Local, a: Action): Option<Move> {
    match l
    case MirrorWaiting(s) =>
      if a.Acquire? && sh.mm.None? then Some(Move(sh.(mm := Some(t)), Mirroring(s, Range(STORAGE_SECTOR_SIZE))))
      else if a.Interrupt? then Some(Move(sh, Finished(Mirror(s), Code(0))))   // mirror_sector returns silently
      else None
    case Mirroring(s, todo) =>
      (match a
       case CopyByte(j) =>
         var i := s * STORAGE_SECTOR_SIZE + j;
         if j in todo && i < |sh.mirror| && i < |sh.store.bytes|
         then Some(Move(sh.(mirror := sh.mirror[i := sh.store.bytes[i]]), Mirroring(s, todo - {j})))
         else None
       case Go => if todo == {} then Some(Move(sh, MirrorLeaving(s))) else None
       case _ => None)
    case MirrorLeaving(s) =>
      if a.Release? && sh.mm == Some(t) then Some(Move(sh.(mm := None), Finished(Mirror(s), Code(0)))) else None
    case _ => None
  }

  function BackupCode(written: nat, ret: int): int {
    if ret != 0 then ret else if written == STORAGE_TOTAL_SIZE then 0 else -EIO
  }

  function BackupStep(sh: Shared, t: Tid, l: Local, a: Action): Option<Move> {
    match l
    case BackupWaiting =>
      if a.Acquire? && sh.mm.None? then Some(Move(sh.(mm := Some(t)), Dumping([], 0, 0)))
      else if a.Interrupt? then Some(Move(sh, Finished(Backup(false), Code(-ERESTARTSYS))))
      else None
    case Dumping(file, pos, written) =>
      if pos >= STORAGE_TOTAL_SIZE then
        if a.Go? then Some(Move(sh, BackupLeaving(file, written, 0))) else None
      else if a.KernelWrite? && a.rc <= STORAGE_TOTAL_SIZE - pos then
        if a.rc < 0 then Some(Move(sh, BackupLeaving(file, written, a.rc)))
        else if a.rc == 0 then Some(Move(sh, BackupLeaving(file, written, -EIO)))
        else if pos + a.rc <= |sh.mirror|
        then Some(Move(sh, Dumping(file + sh.mirror[pos..pos + a.rc], pos + a.rc, written + a.rc)))
        else None
      else None
    case BackupLeaving(file, written, ret) =>
      if a.Release? && sh.mm == Some(t)
      then Some(Move(sh.(mm := None), Finished(Backup(false), Code(BackupCode(written, ret)))))
      else None
    case _ => None
  }

  /** One step of thread `t`: None when the action is not enabled. */
  function LocalStep(keys: Keys, sh: Shared, t: Tid, l: Local, a: Action): Option<Move> {
    match l
    case Idle => if a.Invoke? && Sane(a.call) then Some(Move(sh, Entered(a.call))) else None
    case Entered(call) => Entry(keys, sh, call, a)
    case Waiting(req) => Wait(sh, t, req, a)
    case Checking(req, s) => Check(sh, req, s, a)
    case Reading(req, buf, todo) => CopyOut(sh, req, buf, todo, a)
    case Writing(req, todo) => CopyIn(sh, req, todo, a)
    case Body(req) => RunBody(sh, req, a)
    case Erasing(req, todo) => Clear(sh, req, todo, a)
    case Scanning(req, info) => Scan(sh, req, info, a)
    case Leaving(req, _, reply) => Leave(sh, t, req, reply, a)
    case CopyingInfo(reply) => CopyInfo(sh, reply, a)
    case MirrorWaiting(_) => MirrorStep(sh, t, l, a)
    case Mirroring(_, _) => MirrorStep(sh, t, l, a)
    case MirrorLeaving(_) => MirrorStep(sh, t, l, a)
    case BackupWaiting => BackupStep(sh, t, l, a)
    case Dumping(_, _, _) => BackupStep(sh, t, l, a)
    case BackupLeaving(_, _, _) => BackupStep(sh, t, l, a)
    case Finished(_, _) => if a.Go? then Some(Move(sh, Idle)) else None
  }

  datatype Sys = Sys(sh: Shared, th: seq<Local>)

  /** Both modules freshly loaded, `n` threads idle. */
  function Init(n: nat): Sys {
    Sys(Shared(FRESH_STORE, Zeros(STORAGE_TOTAL_SIZE), None, None), seq(n, i => Idle))
  }

  datatype Turn = Turn(t: Tid, a: Action)

  function Step(keys: Keys, s: Sys, turn: Turn): Option<Sys> {
    if turn.t >= |s.th| then None
    else
      match LocalStep(keys, s.sh, turn.t, s.th[turn.t], turn.a)
      case None => None
      case Some(m) => Some(Sys(m.sh, s.th[turn.t := m.l]))
  }

  /** The state after a whole schedule, if every turn of it was enabled. */
  function Run(keys: Keys, s: Sys, sched: seq<Turn>): Option<Sys> {
    if sched == [] then Some(s)
    else
      match Run(keys, s, sched[..|sched| - 1])
      case None => None
      case Some(s') => Step(keys, s', sched[|sched| - 1])
  }

  /** A critical section of storage_mutex that ran to its end. */
  datatype Event = Event(t: Tid, req: Request, env: Env, reply: Reply)

  /** The critical section that a turn completes, if it completes one. */
  function Commit(s: Sys, turn: Turn): seq<Event> {
    if turn.t < |s.th| && turn.a.Release? && s.th[turn.t].Leaving? then
      var l := s.th[turn.t];
      [Event(turn.t, l.req, l.env, l.reply)]
    else []
  }

  function Commits(keys: Keys, s: Sys, sched: seq<Turn>): seq<Event> {
    if sched == [] then []
    else
      var before := sched[..|sched| - 1];
      match Run(keys, s, before)
      case None => []
      case Some(s') => Commits(keys, s, before) + Commit(s', sched[|sched| - 1])
  }

  /** The atomic specification run over a log of critical sections, one at a time in the
      order of the log: None as soon as a logged reply is not the specified one. */
  ghost function Replay(keys: Keys, st: Store, log: seq<Event>): (r: Option<Store>)
    requires st.Valid()
    ensures r.Some? ==> r.value.Valid()
  {
    if log == [] then Some(st)
    else
      var e := log[|log| - 1];
      match Replay(keys, st, log[..|log| - 1])
      case None => None
      case Some(st') =>
        var o := Exec(keys, st', e.req, e.env);
        if o.reply == e.reply then Some(o.store) else None
  }
}
