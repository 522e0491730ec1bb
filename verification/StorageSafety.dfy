/** Safety and progress of the interleaved storage system: locked sectors are frozen,
    mirrors of locked sectors and backups are snapshots, and no run gets stuck. */
module StorageSafety {
  import opened Kernel
  import opened StorageSpec
  import opened StorageSystem
  import opened StorageRefinement
  import opened StorageRuns

  // ---- Locked means frozen ----

  /** The step of an unlock that clears the lock bit of sector `k`. */
  predicate UnlockStep(s: Sys, turn: Turn, k: nat) {
    && turn.t < |s.th| && turn.a.Go?
    && s.th[turn.t].Body? && s.th[turn.t].req.Unlock? && s.th[turn.t].req.sector == k
  }

  /** No turn of the schedule is an unlock of sector `k`. */
  predicate NeverUnlocks(keys: Keys, s: Sys, sched: seq<Turn>, k: nat) {
    if sched == [] then true
    else
      var before := sched[..|sched| - 1];
      && NeverUnlocks(keys, s, before, k)
      && Run(keys, s, before).Some?
      && !UnlockStep(Run(keys, s, before).value, sched[|sched| - 1], k)
  }

  /** A byte that the holder of storage_mutex is about to change is in no locked sector. */
  lemma WriterStaysOutOfLockedSectors(keys: Keys, t: Tid, sh: Shared, l: Local, base: Store, i: nat)
    requires Sim(keys, t, sh, l, base) && i < STORAGE_TOTAL_SIZE
    requires l.Writing? ==> l.req.off <= i < l.req.off + WriteLength(l.req)
    requires l.Erasing? ==> l.req.sector == SectorOf(i)
    requires l.Writing? || l.Erasing?
    ensures !sh.store.locks[SectorOf(i)]
  {
  }

  lemma LocalStepFreezes(keys: Keys, t: Tid, sh: Shared, l: Local, a: Action, base: Store, k: nat)
    requires Sim(keys, t, sh, l, base) && LocalStep(keys, sh, t, l, a).Some?
    requires k < STORAGE_NUM_SECTORS && sh.store.locks[k]
    ensures var sh' := LocalStep(keys, sh, t, l, a).value.sh;
            && sh'.store.Valid()
            && Sector(sh'.store.bytes, k) == Sector(sh.store.bytes, k)
            && (!sh'.store.locks[k] ==>
                  a.Go? && l.Body? && l.req.Unlock? && l.req.sector == k && ValidKey(keys, l.req.key))
  {
    LocalStepSim(keys, t, sh, l, a, base);
    var sh' := LocalStep(keys, sh, t, l, a).value.sh;
    forall i: nat | i < STORAGE_TOTAL_SIZE && SectorOf(i) == k
      ensures sh'.store.bytes[i] == sh.store.bytes[i]
    {
      if l.Writing? && l.req.off <= i < l.req.off + WriteLength(l.req) {
        WriterStaysOutOfLockedSectors(keys, t, sh, l, base, i);
        assert false;
      } else if l.Erasing? && l.req.sector == k {
        WriterStaysOutOfLockedSectors(keys, t, sh, l, base, i);
        assert false;
      } else if l.Erasing? && a.CopyByte? {
        assert SectorOf(l.req.sector * STORAGE_SECTOR_SIZE + a.j) == l.req.sector;
      }
    }
    SameSector(sh'.store.bytes, sh.store.bytes, k);
  }

  /** Locked means frozen. From any reachable state in which sector `k` is locked, however
      the threads interleave, as long as no unlock of `k` takes its step the sector stays
      locked and none of its bytes changes. */
  lemma {:induction false} LockedMeansFrozen(keys: Keys, s: Sys, base: Store, ext: seq<Turn>, k: nat)
    requires Inv(keys, s, base) && Run(keys, s, ext).Some?
    requires k < STORAGE_NUM_SECTORS && s.sh.store.locks[k] && NeverUnlocks(keys, s, ext, k)
    ensures var s' := Run(keys, s, ext).value;
            && s'.sh.store.Valid()
            && s'.sh.store.locks[k]
            && Sector(s'.sh.store.bytes, k) == Sector(s.sh.store.bytes, k)
  {
    if ext != [] {
      var before, turn := ext[..|ext| - 1], ext[|ext| - 1];
      LockedMeansFrozen(keys, s, base, before, k);
      RunKeepsInv(keys, s, base, before);
      var s' := Run(keys, s, before).value;
      var base' := Replay(keys, base, Commits(keys, s, before)).value;
      assert Sim(keys, turn.t, s'.sh, s'.th[turn.t], base');
      LocalStepFreezes(keys, turn.t, s'.sh, s'.th[turn.t], turn.a, base', k);
    }
  }

  /** The only step that clears a lock bit is that of an unlock with an accepted key. */
  lemma OnlyUnlockClears(keys: Keys, s: Sys, base: Store, turn: Turn, k: nat)
    requires Inv(keys, s, base) && Step(keys, s, turn).Some?
    requires k < STORAGE_NUM_SECTORS && s.sh.store.locks[k]
    ensures var s' := Step(keys, s, turn).value;
            && s'.sh.store.Valid()
            && (!s'.sh.store.locks[k] ==> UnlockStep(s, turn, k) && ValidKey(keys, s.th[turn.t].req.key))
  {
    assert Sim(keys, turn.t, s.sh, s.th[turn.t], base);
    LocalStepFreezes(keys, turn.t, s.sh, s.th[turn.t], turn.a, base, k);
  }

  // ---- The mirror of a locked sector ----

  /** What a thread has copied of sector `k` so far agrees with the store. */
  ghost predicate CopiedSoFar(sh: Shared, l: Local, k: nat)
    requires sh.store.Valid() && |sh.mirror| == STORAGE_TOTAL_SIZE && k < STORAGE_NUM_SECTORS
  {
    match l
    case Mirroring(k', todo) =>
      k' == k ==>
        forall j: nat :: j < STORAGE_SECTOR_SIZE && j !in todo ==>
          Sector(sh.mirror, k)[j] == Sector(sh.store.bytes, k)[j]
    case MirrorLeaving(k') => k' == k ==> Sector(sh.mirror, k) == Sector(sh.store.bytes, k)
    case _ => true
  }

  /** The copying thread's own steps. */
  lemma OwnCopyStep(keys: Keys, t: Tid, sh: Shared, l: Local, a: Action, k: nat)
    requires sh.store.Valid() && |sh.mirror| == STORAGE_TOTAL_SIZE && k < STORAGE_NUM_SECTORS
    requires CopiedSoFar(sh, l, k) && LocalStep(keys, sh, t, l, a).Some?
    requires l.Mirroring? || l.MirrorLeaving? || l.MirrorWaiting?
    ensures var m := LocalStep(keys, sh, t, l, a).value;
            && m.sh.store == sh.store && |m.sh.mirror| == STORAGE_TOTAL_SIZE
            && CopiedSoFar(m.sh, m.l, k)
  {
    if l.Mirroring? && l.sector == k && a.Go? {
      assert Sector(sh.mirror, k) == Sector(sh.store.bytes, k);
    }
  }

  lemma OtherOwnStep(keys: Keys, t: Tid, sh: Shared, l: Local, a: Action)
    requires LocalStep(keys, sh, t, l, a).Some?
    requires !(l.Mirroring? || l.MirrorLeaving? || l.MirrorWaiting?)
    ensures var l' := LocalStep(keys, sh, t, l, a).value.l; !l'.Mirroring? && !l'.MirrorLeaving?
  {
  }

  /** Another thread's step, if it leaves sector `k` of the store alone. */
  lemma ForeignStep(keys: Keys, s: Sys, turn: Turn, base: Store, t: Tid, k: nat)
    requires Inv(keys, s, base) && Step(keys, s, turn).Some?
    requires t < |s.th| && t != turn.t && k < STORAGE_NUM_SECTORS && CopiedSoFar(s.sh, s.th[t], k)
    requires SameSectorAfter(keys, s, turn, k)
    ensures var s' := Step(keys, s, turn).value;
            && s'.sh.store.Valid() && |s'.sh.mirror| == STORAGE_TOTAL_SIZE
            && CopiedSoFar(s'.sh, s'.th[t], k)
  {
    var l := s.th[turn.t];
    var s' := Step(keys, s, turn).value;
    assert Sim(keys, turn.t, s.sh, l, base);
    assert Sim(keys, t, s.sh, s.th[t], base);
    assert Respects(turn.t, s.sh, s'.sh) && |s'.sh.mirror| == STORAGE_TOTAL_SIZE by {
      LocalStepSim(keys, turn.t, s.sh, l, turn.a, base);
    }
    if HoldsMirror(s.th[t]) {
      assert s'.sh.mirror == s.sh.mirror;
    }
  }

  /** A turn that changes no byte of sector `k` of the store. */
  ghost predicate SameSectorAfter(keys: Keys, s: Sys, turn: Turn, k: nat)
    requires s.sh.store.Valid() && k < STORAGE_NUM_SECTORS
  {
    match Step(keys, s, turn)
    case None => true
    case Some(s') => s'.sh.store.Valid() && Sector(s'.sh.store.bytes, k) == Sector(s.sh.store.bytes, k)
  }

  lemma CopyStep(keys: Keys, s: Sys, turn: Turn, base: Store, t: Tid, k: nat)
    requires Inv(keys, s, base) && Step(keys, s, turn).Some?
    requires t < |s.th| && k < STORAGE_NUM_SECTORS && CopiedSoFar(s.sh, s.th[t], k)
    requires SameSectorAfter(keys, s, turn, k)
    ensures var s' := Step(keys, s, turn).value;
            && s'.sh.store.Valid() && |s'.sh.mirror| == STORAGE_TOTAL_SIZE
            && CopiedSoFar(s'.sh, s'.th[t], k)
  {
    StepInv(keys, s, turn, base);
    var l := s.th[turn.t];
    if turn.t != t {
      ForeignStep(keys, s, turn, base, t, k);
    } else if l.Mirroring? || l.MirrorLeaving? || l.MirrorWaiting? {
      OwnCopyStep(keys, t, s.sh, l, turn.a, k);
    } else {
      OtherOwnStep(keys, t, s.sh, l, turn.a);
    }
  }

  /** No turn of the schedule changes a byte of sector `k`. */
  ghost predicate SectorStable(keys: Keys, s: Sys, sched: seq<Turn>, k: nat)
    requires k < STORAGE_NUM_SECTORS
  {
    if sched == [] then true
    else
      var before := sched[..|sched| - 1];
      && SectorStable(keys, s, before, k)
      && Run(keys, s, before).Some? && Run(keys, s, before).value.sh.store.Valid()
      && SameSectorAfter(keys, Run(keys, s, before).value, sched[|sched| - 1], k)
  }

  /** As long as no byte of sector `k` changes, no interleaving spoils what thread `t` has
      copied of it. */
  lemma {:induction false} CopyStaysExact(keys: Keys, s: Sys, base: Store, ext: seq<Turn>, t: Tid, k: nat)
    requires Inv(keys, s, base) && Run(keys, s, ext).Some?
    requires t < |s.th| && k < STORAGE_NUM_SECTORS
    requires SectorStable(keys, s, ext, k) && CopiedSoFar(s.sh, s.th[t], k)
    ensures var s' := Run(keys, s, ext).value;
            && |s'.th| == |s.th| && s'.sh.store.Valid() && |s'.sh.mirror| == STORAGE_TOTAL_SIZE
            && CopiedSoFar(s'.sh, s'.th[t], k)
            && Sector(s'.sh.store.bytes, k) == Sector(s.sh.store.bytes, k)
  {
    if ext != [] {
      var before, turn := ext[..|ext| - 1], ext[|ext| - 1];
      CopyStaysExact(keys, s, base, before, t, k);
      RunKeepsInv(keys, s, base, before);
      CopyStep(keys, Run(keys, s, before).value, turn,
               Replay(keys, base, Commits(keys, s, before)).value, t, k);
    }
  }

  /** A lock keeps its sector stable. */
  lemma {:induction false} LockedIsStable(keys: Keys, s: Sys, base: Store, ext: seq<Turn>, k: nat)
    requires Inv(keys, s, base) && Run(keys, s, ext).Some?
    requires k < STORAGE_NUM_SECTORS && s.sh.store.locks[k] && NeverUnlocks(keys, s, ext, k)
    ensures SectorStable(keys, s, ext, k)
  {
    if ext != [] {
      var before := ext[..|ext| - 1];
      LockedIsStable(keys, s, base, before, k);
      LockedMeansFrozen(keys, s, base, before, k);
      LockedMeansFrozen(keys, s, base, ext, k);
    }
  }

  /** A mirror call during which no byte of its sector changes ends with an exact copy, even
      if the sector is not locked. */
  lemma MirrorOfStableSectorIsExact(keys: Keys, s: Sys, base: Store, ext: seq<Turn>, t: Tid, k: nat)
    requires Inv(keys, s, base) && Run(keys, s, ext).Some?
    requires t < |s.th| && k < STORAGE_NUM_SECTORS
    requires s.th[t] == Entered(Mirror(k)) && SectorStable(keys, s, ext, k)
    requires t < |Run(keys, s, ext).value.th| && Run(keys, s, ext).value.th[t] == MirrorLeaving(k)
    ensures var s' := Run(keys, s, ext).value;
            && s'.sh.store.Valid() && |s'.sh.mirror| == STORAGE_TOTAL_SIZE
            && Sector(s'.sh.mirror, k) == Sector(s'.sh.store.bytes, k) == Sector(s.sh.store.bytes, k)
  {
    CopyStaysExact(keys, s, base, ext, t, k);
  }

  /** A mirror of a locked sector is an exact snapshot. Start anywhere in a run with thread
      `t` entering a mirror call and sector `k` locked. If `k` is not unlocked, then when
      `t` has completed its copy of `k` the mirror's sector is the store's sector, the same
      as at the start, although the copy took place without storage_mutex. */
  lemma MirrorOfLockedSectorIsExact(keys: Keys, n: nat, sched: seq<Turn>, ext: seq<Turn>, t: Tid, k: nat)
    requires Run(keys, Init(n), sched).Some? && k < STORAGE_NUM_SECTORS
    requires var s := Run(keys, Init(n), sched).value;
             && t < |s.th| && s.th[t] == Entered(Mirror(k))
             && s.sh.store.Valid() && s.sh.store.locks[k]
             && NeverUnlocks(keys, s, ext, k)
             && Run(keys, s, ext).Some?
             && t < |Run(keys, s, ext).value.th|
             && Run(keys, s, ext).value.th[t] == MirrorLeaving(k)
    ensures var s := Run(keys, Init(n), sched).value;
            var s' := Run(keys, s, ext).value;
            && s'.sh.store.Valid() && |s'.sh.mirror| == STORAGE_TOTAL_SIZE
            && Sector(s'.sh.mirror, k) == Sector(s'.sh.store.bytes, k) == Sector(s.sh.store.bytes, k)
  {
    ReachableInv(keys, n, sched);
    var s := Run(keys, Init(n), sched).value;
    var base := Replay(keys, FRESH_STORE, Commits(keys, Init(n), sched)).value;
    LockedIsStable(keys, s, base, ext, k);
    MirrorOfStableSectorIsExact(keys, s, base, ext, t, k);
  }

  // ---- Backups ----

  /** A backup that is about to release mirror_mutex has written a prefix of the mirror as it
      stands at that instant, and is going to return 0 exactly when it wrote all of it. */
  lemma BackupIsSnapshot(keys: Keys, n: nat, sched: seq<Turn>, t: Tid)
    requires Run(keys, Init(n), sched).Some?
    requires var s := Run(keys, Init(n), sched).value; t < |s.th| && s.th[t].BackupLeaving?
    ensures var s := Run(keys, Init(n), sched).value;
            var l := s.th[t];
            && |l.file| <= |s.sh.mirror| && l.file == s.sh.mirror[..|l.file|]
            && (BackupCode(l.written, l.ret) == 0 <==> l.file == s.sh.mirror)
            && BackupCode(l.written, l.ret) <= 0
  {
    ReachableInv(keys, n, sched);
    var s := Run(keys, Init(n), sched).value;
    assert Sim(keys, t, s.sh, s.th[t], Replay(keys, FRESH_STORE, Commits(keys, Init(n), sched)).value);
  }

  /** And when it has returned: it is the backup that the thread invoked. If it dumped the
      mirror, its code is 0 exactly when its file is the whole mirror as of one instant, namely
      the one at which it released mirror_mutex; otherwise the file is a proper prefix of that
      and the code tells why. If it dumped nothing, its code is an error. */
  lemma FinishedBackupIsSnapshot(keys: Keys, n: nat, sched: seq<Turn>, t: Tid)
    requires Run(keys, Init(n), sched).Some? && t < n
    requires var s := Run(keys, Init(n), sched).value;
             t < |s.th| && s.th[t].Finished? && s.th[t].call.Backup?
    ensures var l := Run(keys, Init(n), sched).value.th[t];
            var h := SinceInvoke(keys, Init(n), sched, t);
            && h.call == Some(l.call)
            && match h.dump
               case Some(d) => DumpReply(l.reply.code, d)
               case None => l.reply.code < 0
  {
    EveryCallIsDisciplined(keys, n, sched, t);
  }

  // ---- Progress ----

  /** An upper bound on the steps a thread can still take before it is idle. */
  function Rank(l: Local): nat {
    match l
    case Idle => 0
    case Entered(_) => 10000
    case Waiting(_) => 9000
    case Checking(_, s) => if s <= STORAGE_NUM_SECTORS then 5000 + (STORAGE_NUM_SECTORS - s) else 4999
    case Reading(_, _, todo) => 4 + |todo|
    case Writing(_, todo) => 4 + |todo|
    case Body(_) => 600
    case Erasing(_, todo) => 4 + |todo|
    case Scanning(_, info) => if |info| <= STORAGE_NUM_SECTORS then 4 + (STORAGE_NUM_SECTORS - |info|) else 4
    case Leaving(_, _, _) => 3
    case CopyingInfo(_) => 2
    case MirrorWaiting(_) => 600
    case Mirroring(_, todo) => 3 + |todo|
    case MirrorLeaving(_) => 2
    case BackupWaiting => 5000
    case Dumping(_, pos, _) => if pos <= STORAGE_TOTAL_SIZE then 3 + (STORAGE_TOTAL_SIZE - pos) else 3
    case BackupLeaving(_, _, _) => 2
    case Finished(_, _) => 1
  }

  lemma RankOfCopyOut(sh: Shared, req: Request, buf: seq<byte>, todo: set<nat>, a: Action)
    requires CopyOut(sh, req, buf, todo, a).Some?
    ensures Rank(CopyOut(sh, req, buf, todo, a).value.l) < 4 + |todo|
  {
  }

  lemma RankOfCopyIn(sh: Shared, req: Request, todo: set<nat>, a: Action)
    requires CopyIn(sh, req, todo, a).Some?
    ensures Rank(CopyIn(sh, req, todo, a).value.l) < 4 + |todo|
  {
  }

  lemma RankOfClear(sh: Shared, req: Request, todo: set<nat>, a: Action)
    requires Clear(sh, req, todo, a).Some?
    ensures Rank(Clear(sh, req, todo, a).value.l) < 4 + |todo|
  {
  }

  lemma RankOfMirror(sh: Shared, t: Tid, l: Local, a: Action)
    requires l.Mirroring? && MirrorStep(sh, t, l, a).Some?
    ensures Rank(MirrorStep(sh, t, l, a).value.l) < 3 + |l.todo|
  {
  }

  lemma RankOfEntries(keys: Keys, t: Tid, sh: Shared, l: Local, a: Action)
    requires l.Entered? || l.Waiting? || l.Body? || l.MirrorWaiting?
    requires l.Waiting? ==> EarlyReply(keys, l.req).None?
    requires LocalStep(keys, sh, t, l, a).Some?
    ensures Rank(LocalStep(keys, sh, t, l, a).value.l) < Rank(l)
  {
    RangeSize(STORAGE_SECTOR_SIZE);
    if l.Waiting? {
      RangeSize(|FirstStepBuffer(l.req)|);
    }
  }

  lemma RankDecreases(keys: Keys, t: Tid, sh: Shared, l: Local, a: Action, base: Store)
    requires Sim(keys, t, sh, l, base) && LocalStep(keys, sh, t, l, a).Some? && !a.Invoke?
    ensures Rank(LocalStep(keys, sh, t, l, a).value.l) < Rank(l)
  {
    if l.Reading? {
      RankOfCopyOut(sh, l.req, l.buf, l.todo, a);
    } else if l.Writing? {
      RankOfCopyIn(sh, l.req, l.todo, a);
    } else if l.Erasing? {
      RankOfClear(sh, l.req, l.todo, a);
    } else if l.Mirroring? {
      RankOfMirror(sh, t, l, a);
    } else if l.Entered? || l.Waiting? || l.Body? || l.MirrorWaiting? {
      RankOfEntries(keys, t, sh, l, a);
    } else if l.Checking? {
      RangeSize(WriteLength(l.req));
      LastSectorValue(l.req.off, WriteLength(l.req));
    }
  }

  function FirstStepBuffer(req: Request): seq<byte> {
    var l := FirstStep(req);
    if l.Reading? then l.buf else []
  }

  function TotalRank(th: seq<Local>): nat {
    if th == [] then 0 else TotalRank(th[..|th| - 1]) + Rank(th[|th| - 1])
  }

  lemma {:induction false} TotalRankUpdate(th: seq<Local>, t: nat, l: Local)
    requires t < |th|
    ensures TotalRank(th[t := l]) == TotalRank(th) - Rank(th[t]) + Rank(l)
  {
    var last := |th| - 1;
    if t < last {
      TotalRankUpdate(th[..last], t, l);
      assert th[t := l][..last] == th[..last][t := l];
    } else {
      assert th[t := l][..last] == th[..last];
    }
  }

  lemma TurnLowersTotalRank(keys: Keys, s: Sys, turn: Turn, base: Store)
    requires Inv(keys, s, base) && Step(keys, s, turn).Some? && !turn.a.Invoke?
    ensures TotalRank(Step(keys, s, turn).value.th) < TotalRank(s.th)
  {
    var l := s.th[turn.t];
    assert Sim(keys, turn.t, s.sh, l, base);
    RankDecreases(keys, turn.t, s.sh, l, turn.a, base);
    TotalRankUpdate(s.th, turn.t, LocalStep(keys, s.sh, turn.t, l, turn.a).value.l);
  }

  predicate InvokeFree(sched: seq<Turn>) {
    forall i :: 0 <= i < |sched| ==> !sched[i].a.Invoke?
  }

  /** Without new calls every run is finite: its length is bounded by the state it starts in. */
  lemma {:induction false} RunsAreBounded(keys: Keys, s: Sys, base: Store, ext: seq<Turn>)
    requires Inv(keys, s, base) && Run(keys, s, ext).Some? && InvokeFree(ext)
    ensures |ext| + TotalRank(Run(keys, s, ext).value.th) <= TotalRank(s.th)
  {
    if ext != [] {
      var before, turn := ext[..|ext| - 1], ext[|ext| - 1];
      RunsAreBounded(keys, s, base, before);
      RunKeepsInv(keys, s, base, before);
      var s' := Run(keys, s, before).value;
      TurnLowersTotalRank(keys, s', turn, Replay(keys, base, Commits(keys, s, before)).value);
    }
  }

  predicate WaitsForMutex(l: Local) {
    l.Waiting? || l.MirrorWaiting? || l.BackupWaiting?
  }

  /** A thread with an unfinished call can step unless it waits for a mutex that is held. */
  lemma CanStep(keys: Keys, t: Tid, sh: Shared, l: Local, base: Store) returns (a: Action)
    requires Sim(keys, t, sh, l, base) && l != Idle
    requires l.Waiting? ==> sh.sm.None?
    requires l.MirrorWaiting? || l.BackupWaiting? ==> sh.mm.None?
    ensures !a.Invoke? && LocalStep(keys, sh, t, l, a).Some?
  {
    if WaitsForMutex(l) {
      a := Acquire;
    } else if l.Leaving? || l.MirrorLeaving? || l.BackupLeaving? {
      a := Release;
    } else if l.Dumping? && l.pos < STORAGE_TOTAL_SIZE {
      a := KernelWrite(0);
    } else if (l.Reading? || l.Writing? || l.Erasing? || l.Mirroring?) && l.todo != {} {
      var j: nat :| j in l.todo;
      a := CopyByte(j);
    } else {
      a := Go;
    }
  }

  predicate AllIdle(s: Sys) {
    forall t :: 0 <= t < |s.th| ==> s.th[t] == Idle
  }

  /** No deadlock: while any call is unfinished, some thread can take a step. */
  lemma NeverStuck(keys: Keys, s: Sys, base: Store) returns (turn: Turn)
    requires Inv(keys, s, base) && !AllIdle(s)
    ensures !turn.a.Invoke? && Step(keys, s, turn).Some?
  {
    var t: Tid :| t < |s.th| && s.th[t] != Idle;
    if s.th[t].Waiting? && s.sh.sm.Some? {
      t := s.sh.sm.value;
    } else if (s.th[t].MirrorWaiting? || s.th[t].BackupWaiting?) && s.sh.mm.Some? {
      t := s.sh.mm.value;
    }
    assert Sim(keys, t, s.sh, s.th[t], base);
    var a := CanStep(keys, t, s.sh, s.th[t], base);
    turn := Turn(t, a);
  }

  lemma {:induction false} RunPrepend(keys: Keys, s: Sys, turn: Turn, rest: seq<Turn>)
    requires Step(keys, s, turn).Some?
    ensures Run(keys, s, [turn] + rest) == Run(keys, Step(keys, s, turn).value, rest)
  {
    var all := [turn] + rest;
    if rest == [] {
      assert all[..|all| - 1] == [];
    } else {
      assert all[..|all| - 1] == [turn] + rest[..|rest| - 1];
      RunPrepend(keys, s, turn, rest[..|rest| - 1]);
    }
  }

  /** Every unfinished call can be finished: from any reachable state the threads can go on,
      without new calls, until all of them are idle. With `RunsAreBounded` this means that
      every run without new calls that goes on as long as it can ends that way. */
  lemma {:induction false} AllCallsFinish(keys: Keys, s: Sys, base: Store) returns (ext: seq<Turn>)
    requires Inv(keys, s, base)
    ensures InvokeFree(ext) && Run(keys, s, ext).Some? && AllIdle(Run(keys, s, ext).value)
    decreases TotalRank(s.th)
  {
    if AllIdle(s) {
      ext := [];
    } else {
      var turn := NeverStuck(keys, s, base);
      TurnLowersTotalRank(keys, s, turn, base);
      StepInv(keys, s, turn, base);
      var rest := AllCallsFinish(keys, Step(keys, s, turn).value, BaseAfter(keys, s, turn, base));
      RunPrepend(keys, s, turn, rest);
      ext := [turn] + rest;
    }
  }
}
