/** Sequential histories of both storage modules: what a backup contains. */
module StorageHistory {
  import opened Kernel
  import opened StorageSpec
  import opened StorageMirror
  import opened StorageHandlers

  type Keys = seq<Option<byte>>

  datatype HCall =
    | StoreCall(req: Request, env: Env, signal: bool)
    | MirrorCall(sector: int, fault: bool, signal: bool)
    | BackupCall(emptyPath: bool, openError: int, signal: bool)

  datatype World = World(store: Store, mirror: seq<byte>)

  /** Both modules after a history of calls, one after the other. */
  ghost function After(keys: Keys, calls: seq<HCall>): (w: World)
    ensures w.store.Valid() && |w.mirror| == STORAGE_TOTAL_SIZE
  {
    if calls == [] then World(FRESH_STORE, Zeros(STORAGE_TOTAL_SIZE))
    else
      var w := After(keys, calls[..|calls| - 1]);
      match calls[|calls| - 1]
      case StoreCall(req, env, signal) => w.(store := Perform(keys, w.store, req, env, signal).store)
      case MirrorCall(s, fault, signal) =>
        if fault then w else w.(mirror := Mirrored(w.mirror, w.store.bytes, s, signal))
      case BackupCall(_, _, _) => w
  }

  predicate CompletesMirror(call: HCall, s: nat) {
    call.MirrorCall? && call.sector == s && !call.fault && !call.signal
  }

  /** The last call that completed a mirror of sector `s`. */
  function LastMirror(calls: seq<HCall>, s: nat): (i: Option<nat>)
    ensures i.Some? ==> i.value < |calls| && CompletesMirror(calls[i.value], s)
    ensures forall j :: (if i.Some? then i.value else -1) < j < |calls| ==> !CompletesMirror(calls[j], s)
  {
    if calls == [] then None
    else if CompletesMirror(calls[|calls| - 1], s) then Some(|calls| - 1)
    else LastMirror(calls[..|calls| - 1], s)
  }

  /** What the store held in sector `s` when `s` was last mirrored, or zeros. */
  ghost function LastMirrored(keys: Keys, calls: seq<HCall>, s: nat): seq<byte>
    requires s < STORAGE_NUM_SECTORS
  {
    match LastMirror(calls, s)
    case None => Zeros(STORAGE_SECTOR_SIZE)
    case Some(i) => Sector(After(keys, calls[..i]).store.bytes, s)
  }

  lemma LastMirroredStep(keys: Keys, calls: seq<HCall>, s: nat)
    requires s < STORAGE_NUM_SECTORS && calls != []
    ensures var before := calls[..|calls| - 1];
            LastMirrored(keys, calls, s)
            == if CompletesMirror(calls[|calls| - 1], s) then Sector(After(keys, before).store.bytes, s)
               else LastMirrored(keys, before, s)
  {
    var before := calls[..|calls| - 1];
    if !CompletesMirror(calls[|calls| - 1], s) {
      match LastMirror(before, s)
      case None =>
      case Some(i) => assert before[..i] == calls[..i];
    }
  }

  /** What one call does to sector `s` of the mirror. */
  lemma AfterStep(keys: Keys, calls: seq<HCall>, s: nat)
    requires s < STORAGE_NUM_SECTORS && calls != []
    ensures var w := After(keys, calls[..|calls| - 1]);
            Sector(After(keys, calls).mirror, s)
            == if CompletesMirror(calls[|calls| - 1], s) then Sector(w.store.bytes, s) else Sector(w.mirror, s)
  {
    var w, call := After(keys, calls[..|calls| - 1]), calls[|calls| - 1];
    if call.MirrorCall? {
      MirroredSectors(w.mirror, w.store.bytes, call.sector, call.signal, s);
    }
  }

  /** In every history each sector of the mirror is what the store held there at that
      sector's last completed mirror, or zeros if there was none. */
  lemma {:induction false} MirrorHistory(keys: Keys, calls: seq<HCall>, s: nat)
    requires s < STORAGE_NUM_SECTORS
    ensures Sector(After(keys, calls).mirror, s) == LastMirrored(keys, calls, s)
  {
    if calls == [] {
      assert Sector(Zeros(STORAGE_TOTAL_SIZE), s) == Zeros(STORAGE_SECTOR_SIZE);
    } else {
      MirrorHistory(keys, calls[..|calls| - 1], s);
      LastMirroredStep(keys, calls, s);
      AfterStep(keys, calls, s);
    }
  }

  /** What a backup returned and what its file holds. */
  datatype BackupRecord = BackupRecord(ret: int, file: seq<byte>)

  /** `b` is a possible result of a backup after the given history. */
  ghost predicate BackupOk(keys: Keys, calls: seq<HCall>, b: BackupRecord) {
    && (b.ret == 0 <==> |b.file| == STORAGE_TOTAL_SIZE)
    && (b.ret == 0 ==>
          forall s: nat :: s < STORAGE_NUM_SECTORS ==> Sector(b.file, s) == LastMirrored(keys, calls, s))
  }

  method Handle(dev: StorageDevice, req: Request, env: Env, signal: bool)
    requires dev.Valid()
    requires match req
             case Read(off, length) => off + length <= LLONG_MAX
             case Write(off, data) => off + |data| <= LLONG_MAX
             case _ => true
    modifies dev`mutexHeld, dev.storage, dev.lockState
    ensures dev.Valid()
    ensures dev.Snapshot() == Perform(dev.keys, old(dev.Snapshot()), req, env, signal).store
  {
    match req
    case Read(off, length) => var _ := dev.StorageRead(off, length, env.Faulted?, signal);
    case Write(off, data) => var _ := dev.StorageWrite(off, data, env, signal);
    case Lock(s) => var _ := dev.LockSector(s, env.Faulted?);
    case Unlock(s, key) => var _ := dev.UnlockSector(s, key, env.Faulted?, signal);
    case LockInfo => var _ := dev.GetLockInfo(env.Faulted?);
    case Erase(s) => var _ := dev.EraseSector(s, env.Faulted?);
  }

  ghost predicate SaneCall(call: HCall) {
    match call
    case StoreCall(Read(off, length), _, _) => off + length <= LLONG_MAX
    case StoreCall(Write(off, data), _, _) => off + |data| <= LLONG_MAX
    case BackupCall(_, openError, _) => openError <= 0
    case _ => true
  }

  /** Any history played on freshly loaded modules: whatever kernel_write does to each
      backup, one that returns 0 left a file that holds, sector by sector, what the store
      held at that sector's last completed mirror. */
  method Play(userKeys: Keys, calls: seq<HCall>) returns (keys: Keys, backups: map<nat, BackupRecord>)
    requires forall i :: 0 <= i < |calls| ==> SaneCall(calls[i])
    ensures keys == if userKeys == [] then DEFAULT_KEYS else userKeys
    ensures forall j :: j in backups <==> 0 <= j < |calls| && calls[j].BackupCall?
    ensures forall j :: j in backups ==> BackupOk(keys, calls[..j], backups[j])
  {
    var dev := new StorageDevice(userKeys);
    var mirror := new MirrorModule();
    keys := dev.keys;
    backups := map[];
    for i := 0 to |calls|
      invariant dev.Valid() && mirror.Valid()
      invariant fresh(dev) && fresh(dev.storage) && fresh(dev.lockState) && fresh(mirror) && fresh(mirror.buffer)
      invariant mirror.buffer != dev.storage
      invariant dev.keys == keys
      invariant World(dev.Snapshot(), mirror.buffer[..]) == After(keys, calls[..i])
      invariant forall j :: j in backups <==> 0 <= j < i && calls[j].BackupCall?
      invariant forall j :: j in backups ==> BackupOk(keys, calls[..j], backups[j])
    {
      assert calls[..i + 1][..i] == calls[..i];
      assert SaneCall(calls[i]);
      match calls[i] {
        case StoreCall(req, env, signal) =>
          Handle(dev, req, env, signal);
        case MirrorCall(s, fault, signal) =>
          var _ := dev.MirrorIoctl(mirror, s, fault, signal);
        case BackupCall(emptyPath, openError, signal) =>
          var ret, f := mirror.BackupToFile(emptyPath, openError, signal);
          forall s: nat | s < STORAGE_NUM_SECTORS
            ensures Sector(mirror.buffer[..], s) == LastMirrored(keys, calls[..i], s)
          {
            MirrorHistory(keys, calls[..i], s);
          }
          backups := backups[i := BackupRecord(ret, f.content)];
      }
    }
    assert calls[..|calls|] == calls;
  }
}
