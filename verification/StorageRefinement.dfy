/** The interleaved storage system refines the atomic specification. */
module StorageRefinement {
  import opened Kernel
  import opened StorageSpec
  import opened StorageSystem

  predicate HoldsStorage(l: Local) {
    l.Checking? || l.Reading? || l.Writing? || l.Body? || l.Erasing? || l.Scanning? || l.Leaving?
  }

  predicate HoldsMirror(l: Local) {
    l.Mirroring? || l.MirrorLeaving? || l.Dumping? || l.BackupLeaving?
  }

  /** `cur` is `base` with the positions of `data` that are no longer in `todo` written
      from `off` on. */
  ghost predicate Partial(cur: seq<byte>, base: seq<byte>, off: nat, data: seq<byte>, todo: set<nat>) {
    && |cur| == |base|
    && off + |data| <= |base|
    && todo <= Range(|data|)
    && forall i :: 0 <= i < |base| ==>
         cur[i] == if off <= i < off + |data| && i - off !in todo then data[i - off] else base[i]
  }

  /** What a thread's local variables always satisfy. */
  ghost predicate LocalOk(keys: Keys, l: Local) {
    match l
    case Waiting(req) => EarlyReply(keys, req).None?
    case Checking(req, s) => req.Write? && EarlyReply(keys, req).None? && SectorOf(req.off) <= s
    case Reading(req, buf, todo) =>
      req.Read? && EarlyReply(keys, req).None? && |buf| == Clamped(req.off, req.length) && todo <= Range(|buf|)
    case Writing(req, todo) => req.Write? && EarlyReply(keys, req).None? && todo <= Range(WriteLength(req))
    case Body(req) => TakesArgument(req) && EarlyReply(keys, req).None?
    case Erasing(req, todo) =>
      req.Erase? && EarlyReply(keys, req).None? && todo <= Range(STORAGE_SECTOR_SIZE)
    case Scanning(req, info) => req.LockInfo? && |info| <= STORAGE_NUM_SECTORS
    case Leaving(req, env, _) => EarlyReply(keys, req).None?
    case MirrorWaiting(s) => s < STORAGE_NUM_SECTORS
    case Mirroring(s, todo) => s < STORAGE_NUM_SECTORS && todo <= Range(STORAGE_SECTOR_SIZE)
    case MirrorLeaving(s) => s < STORAGE_NUM_SECTORS
    case _ => true
  }

  /** How far the holder of storage_mutex has taken the store from `base`, the store at
      the start of its critical section, to `cur`. */
  ghost predicate Progress(keys: Keys, l: Local, cur: Store, base: Store)
    requires cur.Valid() && base.Valid() && LocalOk(keys, l)
  {
    match l
    case Checking(req, s) => cur == base && CheckedUpTo(base.locks, SectorOf(req.off), s)
    case Reading(req, buf, todo) =>
      && cur == base
      && forall j :: 0 <= j < |buf| && j !in todo ==> buf[j] == base.bytes[req.off + j]
    case Writing(req, todo) =>
      && cur.locks == base.locks
      && !Refused(base.locks, req.off, WriteLength(req))
      && Partial(cur.bytes, base.bytes, req.off, req.data[..WriteLength(req)], todo)
    case Body(req) => cur == base
    case Erasing(req, todo) =>
      && cur.locks == base.locks
      && !base.locks[req.sector]
      && Partial(cur.bytes, base.bytes, req.sector * STORAGE_SECTOR_SIZE, Zeros(STORAGE_SECTOR_SIZE), todo)
    case Scanning(req, info) => cur == base && info == base.locks[..|info|]
    case Leaving(req, env, reply) => Exec(keys, base, req, env) == Outcome(cur, reply)
    case _ => true
  }

  ghost predicate CheckedUpTo(locks: seq<bool>, first: int, s: int) {
    forall k :: first <= k < s && 0 <= k < |locks| ==> !locks[k]
  }

  /** The dump loop of a backup: `written == pos`, and the file is the mirror's prefix of
      that length. */
  ghost predicate DumpOk(l: Local, mirror: seq<byte>)
    requires |mirror| == STORAGE_TOTAL_SIZE
  {
    match l
    case Dumping(file, pos, written) =>
      written == pos && pos <= STORAGE_TOTAL_SIZE && file == mirror[..pos]
    case BackupLeaving(file, written, ret) =>
      && written <= STORAGE_TOTAL_SIZE && file == mirror[..written]
      && ret <= 0 && (ret == 0 <==> written == STORAGE_TOTAL_SIZE)
    case _ => true
  }

  /** Thread `t`'s view of the simulation: `base` is the store of the specification. */
  ghost predicate Sim(keys: Keys, t: Tid, sh: Shared, l: Local, base: Store) {
    && base.Valid() && sh.store.Valid() && |sh.mirror| == STORAGE_TOTAL_SIZE
    && (sh.sm == Some(t) <==> HoldsStorage(l))
    && (sh.mm == Some(t) <==> HoldsMirror(l))
    && (sh.sm.None? ==> sh.store == base)
    && LocalOk(keys, l)
    && (HoldsStorage(l) ==> Progress(keys, l, sh.store, base))
    && DumpOk(l, sh.mirror)
  }

  /** What a step of `t` may do to the rest of the system: it leaves alone whatever a
      mutex held by another thread protects, and other threads' mutexes. */
  ghost predicate Respects(t: Tid, sh: Shared, sh': Shared) {
    && (sh.sm.Some? && sh.sm.value != t ==> sh'.sm == sh.sm && sh'.store == sh.store)
    && (sh.mm.Some? && sh.mm.value != t ==> sh'.mm == sh.mm && sh'.mirror == sh.mirror)
    && (sh.sm == Some(t) || sh.sm.None? ==> sh'.sm == Some(t) || sh'.sm.None?)
    && (sh.mm == Some(t) || sh.mm.None? ==> sh'.mm == Some(t) || sh'.mm.None?)
  }

  /** The specification's store after a step: it moves when a critical section ends. */
  ghost function NextBase(keys: Keys, l: Local, a: Action, base: Store): (b: Store)
    requires base.Valid()
    ensures b.Valid()
  {
    if l.Leaving? && a.Release? then Exec(keys, base, l.req, l.env).store else base
  }

  ghost predicate Simulates(keys: Keys, t: Tid, sh: Shared, l: Local, a: Action, base: Store, m: Move)
    requires base.Valid()
  {
    && Sim(keys, t, m.sh, m.l, NextBase(keys, l, a, base))
    && Respects(t, sh, m.sh)
  }

  lemma EntrySim(keys: Keys, t: Tid, sh: Shared, l: Local, a: Action, base: Store)
    requires l.Entered? || l.Waiting? || l.Idle? || l.Finished? || l.CopyingInfo?
    requires Sim(keys, t, sh, l, base) && LocalStep(keys, sh, t, l, a).Some?
    ensures Simulates(keys, t, sh, l, a, base, LocalStep(keys, sh, t, l, a).value)
  {
  }

  lemma CheckSim(keys: Keys, t: Tid, sh: Shared, l: Local, a: Action, base: Store)
    requires l.Checking?
    requires Sim(keys, t, sh, l, base) && LocalStep(keys, sh, t, l, a).Some?
    ensures Simulates(keys, t, sh, l, a, base, LocalStep(keys, sh, t, l, a).value)
  {
    var n := WriteLength(l.req);
    LastSectorValue(l.req.off, n);
    SectorCheckIsByteRule(base.locks, l.req.off, n);
    var data := l.req.data[..n];
    assert Partial(sh.store.bytes, base.bytes, l.req.off, data, Range(n));
  }

  lemma ReadSim(keys: Keys, t: Tid, sh: Shared, l: Local, a: Action, base: Store)
    requires l.Reading?
    requires Sim(keys, t, sh, l, base) && LocalStep(keys, sh, t, l, a).Some?
    ensures Simulates(keys, t, sh, l, a, base, LocalStep(keys, sh, t, l, a).value)
  {
    if a.Go? {
      assert l.buf == base.bytes[l.req.off..l.req.off + |l.buf|];
    }
  }

  lemma WriteSim(keys: Keys, t: Tid, sh: Shared, l: Local, a: Action, base: Store)
    requires l.Writing?
    requires Sim(keys, t, sh, l, base) && LocalStep(keys, sh, t, l, a).Some?
    ensures Simulates(keys, t, sh, l, a, base, LocalStep(keys, sh, t, l, a).value)
  {
    var off, n := l.req.off, WriteLength(l.req);
    var m := LocalStep(keys, sh, t, l, a).value;
    match a
    case CopyByte(j) =>
      assert Partial(m.sh.store.bytes, base.bytes, off, l.req.data[..n], l.todo - {j});
    case Go =>
      assert sh.store.bytes == Overlay(base.bytes, off, l.req.data[..n]);
    case CopyFault(_) =>
      var left := m.sh.store.bytes[off..off + n];
      assert m.sh.store.bytes == Scribble(base.bytes, off, n, left);
    case _ =>
  }

  lemma BodySim(keys: Keys, t: Tid, sh: Shared, l: Local, a: Action, base: Store)
    requires l.Body? || l.Scanning?
    requires Sim(keys, t, sh, l, base) && LocalStep(keys, sh, t, l, a).Some?
    ensures Simulates(keys, t, sh, l, a, base, LocalStep(keys, sh, t, l, a).value)
  {
    if l.Scanning? && |l.info| == STORAGE_NUM_SECTORS {
      assert l.info == base.locks;
    }
  }

  lemma EraseSim(keys: Keys, t: Tid, sh: Shared, l: Local, a: Action, base: Store)
    requires l.Erasing?
    requires Sim(keys, t, sh, l, base) && LocalStep(keys, sh, t, l, a).Some?
    ensures Simulates(keys, t, sh, l, a, base, LocalStep(keys, sh, t, l, a).value)
  {
    var off := l.req.sector * STORAGE_SECTOR_SIZE;
    var m := LocalStep(keys, sh, t, l, a).value;
    match a
    case CopyByte(j) =>
      assert Partial(m.sh.store.bytes, base.bytes, off, Zeros(STORAGE_SECTOR_SIZE), l.todo - {j});
    case Go =>
      assert sh.store.bytes == Overlay(base.bytes, off, Zeros(STORAGE_SECTOR_SIZE));
    case _ =>
  }

  lemma LeaveSim(keys: Keys, t: Tid, sh: Shared, l: Local, a: Action, base: Store)
    requires l.Leaving?
    requires Sim(keys, t, sh, l, base) && LocalStep(keys, sh, t, l, a).Some?
    ensures Simulates(keys, t, sh, l, a, base, LocalStep(keys, sh, t, l, a).value)
  {
  }

  lemma MirrorSim(keys: Keys, t: Tid, sh: Shared, l: Local, a: Action, base: Store)
    requires l.MirrorWaiting? || l.Mirroring? || l.MirrorLeaving?
    requires Sim(keys, t, sh, l, base) && LocalStep(keys, sh, t, l, a).Some?
    ensures Simulates(keys, t, sh, l, a, base, LocalStep(keys, sh, t, l, a).value)
  {
  }

  lemma BackupSim(keys: Keys, t: Tid, sh: Shared, l: Local, a: Action, base: Store)
    requires l.BackupWaiting? || l.Dumping? || l.BackupLeaving?
    requires Sim(keys, t, sh, l, base) && LocalStep(keys, sh, t, l, a).Some?
    ensures Simulates(keys, t, sh, l, a, base, LocalStep(keys, sh, t, l, a).value)
  {
    if l.Dumping? && a.KernelWrite? && a.rc > 0 {
      assert sh.mirror[..l.pos] + sh.mirror[l.pos..l.pos + a.rc] == sh.mirror[..l.pos + a.rc];
    }
  }

  /** Every step of every thread keeps its view of the simulation. */
  lemma LocalStepSim(keys: Keys, t: Tid, sh: Shared, l: Local, a: Action, base: Store)
    requires Sim(keys, t, sh, l, base) && LocalStep(keys, sh, t, l, a).Some?
    ensures Simulates(keys, t, sh, l, a, base, LocalStep(keys, sh, t, l, a).value)
  {
    match l
    case Checking(_, _) => CheckSim(keys, t, sh, l, a, base);
    case Reading(_, _, _) => ReadSim(keys, t, sh, l, a, base);
    case Writing(_, _) => WriteSim(keys, t, sh, l, a, base);
    case Body(_) => BodySim(keys, t, sh, l, a, base);
    case Scanning(_, _) => BodySim(keys, t, sh, l, a, base);
    case Erasing(_, _) => EraseSim(keys, t, sh, l, a, base);
    case Leaving(_, _, _) => LeaveSim(keys, t, sh, l, a, base);
    case MirrorWaiting(_) => MirrorSim(keys, t, sh, l, a, base);
    case Mirroring(_, _) => MirrorSim(keys, t, sh, l, a, base);
    case MirrorLeaving(_) => MirrorSim(keys, t, sh, l, a, base);
    case BackupWaiting => BackupSim(keys, t, sh, l, a, base);
    case Dumping(_, _, _) => BackupSim(keys, t, sh, l, a, base);
    case BackupLeaving(_, _, _) => BackupSim(keys, t, sh, l, a, base);
    case _ => EntrySim(keys, t, sh, l, a, base);
  }
}
