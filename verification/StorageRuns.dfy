/** What holds over whole runs of the interleaved storage system. */
module StorageRuns {
  import opened Kernel
  import opened StorageSpec
  import opened StorageSystem
  import opened StorageRefinement

  /** The invariant: every thread's view of the simulation holds, and mutex holders are
      threads of the system. */
  ghost predicate Inv(keys: Keys, s: Sys, base: Store) {
    && base.Valid() && s.sh.store.Valid() && |s.sh.mirror| == STORAGE_TOTAL_SIZE
    && (s.sh.sm.Some? ==> s.sh.sm.value < |s.th|)
    && (s.sh.mm.Some? ==> s.sh.mm.value < |s.th|)
    && (s.sh.sm.None? ==> s.sh.store == base)
    && forall t :: 0 <= t < |s.th| ==> Sim(keys, t, s.sh, s.th[t], base)
  }

  lemma InitInv(keys: Keys, n: nat)
    ensures Inv(keys, Init(n), FRESH_STORE)
  {
    var s := Init(n);
    forall t | 0 <= t < |s.th|
      ensures Sim(keys, t, s.sh, s.th[t], FRESH_STORE)
    {
      assert s.th[t] == Idle;
    }
  }

  /** The specification's store after a turn. */
  ghost function BaseAfter(keys: Keys, s: Sys, turn: Turn, base: Store): (b: Store)
    requires base.Valid()
    ensures b.Valid()
  {
    if turn.t < |s.th| then NextBase(keys, s.th[turn.t], turn.a, base) else base
  }

  lemma OtherThreadSim(keys: Keys, s: Sys, turn: Turn, base: Store, u: Tid)
    requires Inv(keys, s, base) && Step(keys, s, turn).Some?
    requires u < |s.th| && u != turn.t
    ensures var s' := Step(keys, s, turn).value;
            Sim(keys, u, s'.sh, s'.th[u], BaseAfter(keys, s, turn, base))
  {
    LocalStepSim(keys, turn.t, s.sh, s.th[turn.t], turn.a, base);
    assert Sim(keys, u, s.sh, s.th[u], base);
    var s' := Step(keys, s, turn).value;
    assert s'.th[u] == s.th[u];
    if s.sh.sm == Some(u) {
      assert !HoldsStorage(s.th[turn.t]);
    }
  }

  lemma StepInv(keys: Keys, s: Sys, turn: Turn, base: Store)
    requires Inv(keys, s, base) && Step(keys, s, turn).Some?
    ensures Inv(keys, Step(keys, s, turn).value, BaseAfter(keys, s, turn, base))
  {
    var s' := Step(keys, s, turn).value;
    var base' := BaseAfter(keys, s, turn, base);
    LocalStepSim(keys, turn.t, s.sh, s.th[turn.t], turn.a, base);
    assert Sim(keys, turn.t, s'.sh, s'.th[turn.t], base');
    forall u | 0 <= u < |s'.th|
      ensures Sim(keys, u, s'.sh, s'.th[u], base')
    {
      if u != turn.t {
        OtherThreadSim(keys, s, turn, base, u);
      }
    }
  }

  lemma ReplayOne(keys: Keys, st: Store, log: seq<Event>, e: Event)
    requires st.Valid() && Replay(keys, st, log).Some?
    requires Exec(keys, Replay(keys, st, log).value, e.req, e.env).reply == e.reply
    ensures Replay(keys, st, log + [e])
            == Some(Exec(keys, Replay(keys, st, log).value, e.req, e.env).store)
  {
    assert (log + [e])[..|log|] == log;
  }

  /** From any state that satisfies the invariant, the completed critical sections replay
      through the specification, and the invariant holds of where the replay ends. */
  lemma {:induction false} RunKeepsInv(keys: Keys, s: Sys, base: Store, sched: seq<Turn>)
    requires Inv(keys, s, base) && Run(keys, s, sched).Some?
    ensures var spec := Replay(keys, base, Commits(keys, s, sched));
            spec.Some? && Inv(keys, Run(keys, s, sched).value, spec.value)
  {
    if sched != [] {
      var before, turn := sched[..|sched| - 1], sched[|sched| - 1];
      RunKeepsInv(keys, s, base, before);
      var s' := Run(keys, s, before).value;
      var log := Commits(keys, s, before);
      var base' := Replay(keys, base, log).value;
      StepInv(keys, s', turn, base');
      var done := Commit(s', turn);
      if done == [] {
        assert log + done == log;
      } else {
        assert Sim(keys, turn.t, s'.sh, s'.th[turn.t], base');
        ReplayOne(keys, base, log, done[0]);
        assert log + done == log + [done[0]];
      }
    }
  }

  /** Every state a run from load reaches satisfies the invariant. */
  lemma ReachableInv(keys: Keys, n: nat, sched: seq<Turn>)
    requires Run(keys, Init(n), sched).Some?
    ensures var spec := Replay(keys, FRESH_STORE, Commits(keys, Init(n), sched));
            spec.Some? && Inv(keys, Run(keys, Init(n), sched).value, spec.value)
  {
    InitInv(keys, n);
    RunKeepsInv(keys, Init(n), FRESH_STORE, sched);
  }

  /** Refinement. After any schedule, replaying the completed critical sections one at a
      time through the atomic specification gives every one of them the reply it gave, and
      reaches the very store of the system whenever storage_mutex is free (`ReachableInv` says how
      far the holder has got when it is not). */
  lemma RunRefinesSpec(keys: Keys, n: nat, sched: seq<Turn>)
    requires Run(keys, Init(n), sched).Some?
    ensures Replay(keys, FRESH_STORE, Commits(keys, Init(n), sched)).Some?
    ensures var s := Run(keys, Init(n), sched).value;
            s.sh.sm.None? ==> Replay(keys, FRESH_STORE, Commits(keys, Init(n), sched)) == Some(s.sh.store)
  {
    ReachableInv(keys, n, sched);
  }

  // ---- Replies ----

  /** What a backup wrote to its file, the mirror at the instant it released mirror_mutex, and
      what the last kernel_write returned. */
  datatype Dump = Dump(file: seq<byte>, mirror: seq<byte>, rc: int)

  /** What thread `t` has done since its last invocation: the call it invoked, its last step,
      how often it acquired and released a mutex, what its last kernel_write returned, and the
      critical section of storage_mutex or the dump of the mirror that it completed. */
  datatype Since =
    Since(call: Option<Call>, last: Option<Action>, acquired: nat, released: nat, rc: int,
          commit: Option<Event>, dump: Option<Dump>)

  const NOTHING_YET := Since(None, None, 0, 0, 0, None, None)

  function NextSince(h: Since, sh: Shared, l: Local, a: Action, done: seq<Event>): Since {
    var h' := h.(last := Some(a));
    match a
    case Invoke(call) => NOTHING_YET.(call := Some(call), last := Some(a))
    case Acquire => h'.(acquired := h.acquired + 1)
    case KernelWrite(rc) => h'.(rc := rc)
    case Release =>
      h'.(released := h.released + 1,
          commit := if done == [] then h.commit else Some(done[0]),
          dump := if l.BackupLeaving? then Some(Dump(l.file, sh.mirror, h.rc)) else h.dump)
    case _ => h'
  }

  function SinceInvoke(keys: Keys, s: Sys, sched: seq<Turn>, t: Tid): Since {
    if sched == [] then NOTHING_YET
    else
      var before, turn := sched[..|sched| - 1], sched[|sched| - 1];
      var h := SinceInvoke(keys, s, before, t);
      if turn.t != t then h
      else
        match Run(keys, s, before)
        case None => h
        case Some(s') => if t < |s'.th| then NextSince(h, s'.sh, s'.th[t], turn.a, Commit(s', turn)) else h
  }

  /** The call that a program counter belongs to. */
  function CallOf(l: Local): Option<Call> {
    match l
    case Idle => None
    case Entered(call) => Some(call)
    case Waiting(req) => Some(Op(req))
    case Checking(req, _) => Some(Op(req))
    case Reading(req, _, _) => Some(Op(req))
    case Writing(req, _) => Some(Op(req))
    case Body(req) => Some(Op(req))
    case Erasing(req, _) => Some(Op(req))
    case Scanning(req, _) => Some(Op(req))
    case Leaving(req, _, _) => Some(Op(req))
    case CopyingInfo(_) => Some(Op(LockInfo))
    case MirrorWaiting(s) => Some(Mirror(s))
    case Mirroring(s, _) => Some(Mirror(s))
    case MirrorLeaving(s) => Some(Mirror(s))
    case BackupWaiting => Some(Backup(false))
    case Dumping(_, _, _) => Some(Backup(false))
    case BackupLeaving(_, _, _) => Some(Backup(false))
    case Finished(call, _) => Some(call)
  }

  /** What a backup that dumped the mirror returns: 0 exactly when its file is the whole mirror,
      and otherwise, with a proper prefix of it in the file, the error of kernel_write, or -EIO
      when it wrote nothing. */
  predicate DumpReply(code: int, d: Dump) {
    && |d.mirror| == STORAGE_TOTAL_SIZE && d.file <= d.mirror
    && (code == 0 <==> d.file == d.mirror)
    && code == if d.rc < 0 then d.rc else if d.rc == 0 then -EIO else 0
  }

  /** Replies a call gives without having completed a critical section or a dump: they depend
      on its arguments and on the step that ended it, not on what the threads share. A mirror
      call that went through also counts here: its reply says nothing about the copy. */
  predicate Unshared(keys: Keys, call: Call, last: Action, reply: Reply) {
    match last
    case ArgFault => (call.Op? ==> call.req.Lock? || call.req.Unlock? || call.req.Erase?) && reply == Code(-EFAULT)
    case OpenError(err) => call == Backup(false) && err < 0 && reply == Code(err)
    case Interrupt =>
      (match call
       case Op(Read(off, _)) => reply == At(-ERESTARTSYS, off)
       case Op(Write(off, _)) => reply == At(-ERESTARTSYS, off)
       case Op(Unlock(_, _)) => reply == Code(-ERESTARTSYS)
       case Op(_) => false
       case Mirror(_) => reply == Code(0)
       case Backup(_) => reply == Code(-ERESTARTSYS))
    case Go =>
      (match call
       case Op(req) => EarlyReply(keys, req) == Some(reply)
       case Mirror(s) => !SectorInRange(s) && reply == Code(-EINVAL)
       case Backup(emptyPath) => emptyPath && reply == Code(-EINVAL))
    case Release => call.Mirror? && SectorInRange(call.sector) && reply == Code(0)
    case _ => false
  }

  /** What each program counter implies about the call so far. */
  ghost predicate CallSoFar(keys: Keys, t: Tid, l: Local, h: Since) {
    && (l != Idle ==> h.call == CallOf(l))
    && (!l.Idle? && !l.Finished? ==> h.dump.None?)
    && StageSoFar(keys, t, l, h)
  }

  ghost predicate StageSoFar(keys: Keys, t: Tid, l: Local, h: Since) {
    match l
    case Idle => true
    case Finished(call, reply) =>
      && h.acquired == h.released <= 1 && h.last.Some?
      && (h.dump.Some? ==> call.Backup? && h.commit.None? && DumpReply(reply.code, h.dump.value))
      && (h.commit.Some? ==>
            var e := h.commit.value;
            && h.acquired == 1 && e.t == t && call == Op(e.req)
            && reply == if h.last.value.CopyFault? && e.req.LockInfo? then Code(-EFAULT) else e.reply)
      && (h.commit.None? && h.dump.None? ==> Unshared(keys, call, h.last.value, reply))
    case CopyingInfo(reply) =>
      && h.acquired == h.released == 1
      && h.commit.Some? && h.commit.value.t == t && h.commit.value.req == LockInfo && h.commit.value.reply == reply
    case _ =>
      && h.commit.None? && h.released == 0
      && h.acquired == (if HoldsStorage(l) || HoldsMirror(l) then 1 else 0)
      && LastWrite(l, h.rc)
  }

  /** What a backup's program counter implies about the result of its last kernel_write. */
  predicate LastWrite(l: Local, rc: int) {
    match l
    case Dumping(_, pos, _) => pos > 0 ==> rc > 0
    case BackupLeaving(_, _, ret) => ret == if rc < 0 then rc else if rc == 0 then -EIO else 0
    case _ => true
  }

  ghost predicate StepTracked(keys: Keys, t: Tid, sh: Shared, l: Local, a: Action, h: Since) {
    var done := if a.Release? && l.Leaving? then [Event(t, l.req, l.env, l.reply)] else [];
    match LocalStep(keys, sh, t, l, a)
    case None => true
    case Some(m) => CallSoFar(keys, t, m.l, NextSince(h, sh, l, a, done))
  }

  lemma EntryTracked(keys: Keys, t: Tid, sh: Shared, l: Local, a: Action, base: Store, h: Since)
    requires l.Entered? || l.Waiting? || l.Idle? || l.Finished? || l.CopyingInfo?
    requires Sim(keys, t, sh, l, base) && CallSoFar(keys, t, l, h)
    ensures StepTracked(keys, t, sh, l, a, h)
  {
  }

  lemma StorageTracked(keys: Keys, t: Tid, sh: Shared, l: Local, a: Action, base: Store, h: Since)
    requires HoldsStorage(l)
    requires Sim(keys, t, sh, l, base) && CallSoFar(keys, t, l, h)
    ensures StepTracked(keys, t, sh, l, a, h)
  {
  }

  lemma MirrorTracked(keys: Keys, t: Tid, sh: Shared, l: Local, a: Action, base: Store, h: Since)
    requires l.MirrorWaiting? || l.Mirroring? || l.MirrorLeaving?
    requires Sim(keys, t, sh, l, base) && CallSoFar(keys, t, l, h)
    ensures StepTracked(keys, t, sh, l, a, h)
  {
  }

  lemma BackupTracked(keys: Keys, t: Tid, sh: Shared, l: Local, a: Action, base: Store, h: Since)
    requires l.BackupWaiting? || l.Dumping? || l.BackupLeaving?
    requires Sim(keys, t, sh, l, base) && CallSoFar(keys, t, l, h)
    ensures StepTracked(keys, t, sh, l, a, h)
  {
  }

  lemma CallSoFarStep(keys: Keys, t: Tid, sh: Shared, l: Local, a: Action, base: Store, h: Since)
    requires Sim(keys, t, sh, l, base) && CallSoFar(keys, t, l, h)
    ensures StepTracked(keys, t, sh, l, a, h)
  {
    if HoldsStorage(l) {
      StorageTracked(keys, t, sh, l, a, base, h);
    } else if l.MirrorWaiting? || l.Mirroring? || l.MirrorLeaving? {
      MirrorTracked(keys, t, sh, l, a, base, h);
    } else if l.BackupWaiting? || l.Dumping? || l.BackupLeaving? {
      BackupTracked(keys, t, sh, l, a, base, h);
    } else {
      EntryTracked(keys, t, sh, l, a, base, h);
    }
  }

  /** Mutex discipline and replies, at every moment of every run: a thread holds a mutex
      exactly while its call is between its one acquisition and its one release, never both
      mutexes at once; and a finished call, which is the one the thread invoked, returns the
      reply of the critical section it completed (a lock-info call whose copy to user space
      then faulted: -EFAULT), or the outcome of the dump it completed, or else exactly what
      its arguments and the step that ended it say. */
  lemma {:induction false} EveryCallIsDisciplined(keys: Keys, n: nat, sched: seq<Turn>, t: Tid)
    requires Run(keys, Init(n), sched).Some? && t < n
    ensures var s := Run(keys, Init(n), sched).value;
            && |s.th| == n
            && CallSoFar(keys, t, s.th[t], SinceInvoke(keys, Init(n), sched, t))
            && (s.sh.sm == Some(t) <==> HoldsStorage(s.th[t]))
            && (s.sh.mm == Some(t) <==> HoldsMirror(s.th[t]))
            && !(s.sh.sm == Some(t) && s.sh.mm == Some(t))
  {
    ReachableInv(keys, n, sched);
    if sched != [] {
      var before, turn := sched[..|sched| - 1], sched[|sched| - 1];
      EveryCallIsDisciplined(keys, n, before, t);
      ReachableInv(keys, n, before);
      if turn.t == t {
        var s' := Run(keys, Init(n), before).value;
        var base := Replay(keys, FRESH_STORE, Commits(keys, Init(n), before)).value;
        assert Sim(keys, t, s'.sh, s'.th[t], base);
        CallSoFarStep(keys, t, s'.sh, s'.th[t], turn.a, base, SinceInvoke(keys, Init(n), before, t));
      }
    }
    var s := Run(keys, Init(n), sched).value;
    assert Sim(keys, t, s.sh, s.th[t], Replay(keys, FRESH_STORE, Commits(keys, Init(n), sched)).value);
  }

  // ---- Order of critical sections ----

  /** Threads that acquired storage_mutex, in order. */
  function Acquirers(keys: Keys, s: Sys, sched: seq<Turn>): seq<Tid> {
    if sched == [] then []
    else
      var before, turn := sched[..|sched| - 1], sched[|sched| - 1];
      match Run(keys, s, before)
      case None => []
      case Some(s') =>
        Acquirers(keys, s, before)
        + if turn.t < |s'.th| && s'.th[turn.t].Waiting? && turn.a.Acquire? then [turn.t] else []
  }

  function Committers(log: seq<Event>): (r: seq<Tid>)
    ensures |r| == |log|
  {
    seq(|log|, i requires 0 <= i < |log| => log[i].t)
  }

  /** Critical sections complete in the order in which their threads took the mutex; at
      most the last one is still open. */
  lemma {:induction false} CommitOrderIsAcquireOrder(keys: Keys, n: nat, sched: seq<Turn>)
    requires Run(keys, Init(n), sched).Some?
    ensures var s := Run(keys, Init(n), sched).value;
            Acquirers(keys, Init(n), sched)
            == Committers(Commits(keys, Init(n), sched)) + (if s.sh.sm.Some? then [s.sh.sm.value] else [])
  {
    if sched != [] {
      var before, turn := sched[..|sched| - 1], sched[|sched| - 1];
      CommitOrderIsAcquireOrder(keys, n, before);
      ReachableInv(keys, n, before);
      var s := Run(keys, Init(n), before).value;
      var log := Commits(keys, Init(n), before);
      SmStep(keys, s, turn, Replay(keys, FRESH_STORE, log).value);
      CommittersConcat(log, Commit(s, turn));
    }
  }

  lemma CommittersConcat(a: seq<Event>, b: seq<Event>)
    ensures Committers(a + b) == Committers(a) + Committers(b)
  {
  }

  /** storage_mutex changes hands only by Acquire and Release. */
  lemma SmStep(keys: Keys, s: Sys, turn: Turn, base: Store)
    requires Inv(keys, s, base) && Step(keys, s, turn).Some?
    ensures var sm, l := s.sh.sm, s.th[turn.t];
            Step(keys, s, turn).value.sh.sm ==
            if l.Waiting? && turn.a.Acquire? then Some(turn.t)
            else if l.Leaving? && turn.a.Release? then None
            else sm
    ensures s.th[turn.t].Waiting? && turn.a.Acquire? ==> s.sh.sm.None?
    ensures s.th[turn.t].Leaving? && turn.a.Release? ==> s.sh.sm == Some(turn.t)
  {
    assert Sim(keys, turn.t, s.sh, s.th[turn.t], base);
  }
}
