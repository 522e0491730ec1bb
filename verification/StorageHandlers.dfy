/** The handlers of storage_kernel.c, each proved against the atomic specification. */
module StorageHandlers {
  import opened Kernel
  import opened StorageSpec
  import opened StorageMirror

  const DEFAULT_KEYS: seq<Option<byte>> :=
    [Some(65), Some(66), Some(67), Some(68), Some(69), Some(70), Some(71), Some(72)]

  class StorageDevice {
    const keys: seq<Option<byte>>
    const storage: array<byte>
    const lockState: array<bool>
    var mutexHeld: bool

    ghost predicate Valid()
      reads this
    {
      storage.Length == STORAGE_TOTAL_SIZE && lockState.Length == STORAGE_NUM_SECTORS && !mutexHeld
    }

    ghost function Snapshot(): Store
      reads this, storage, lockState
    {
      Store(storage[..], lockState[..])
    }

    /** Module load: the built-in keys are used when the parameter lists none. */
    constructor (userKeys: seq<Option<byte>>)
      ensures Valid() && fresh(storage) && fresh(lockState)
      ensures keys == if userKeys == [] then DEFAULT_KEYS else userKeys
      ensures Snapshot() == FRESH_STORE
    {
      keys := if userKeys == [] then DEFAULT_KEYS else userKeys;
      storage := new byte[STORAGE_TOTAL_SIZE](i => 0);
      lockState := new bool[STORAGE_NUM_SECTORS](i => false);
      mutexHeld := false;
      new;
      assert storage[..] == FRESH_STORE.bytes;
      assert lockState[..] == FRESH_STORE.locks;
    }

    method Lock(signal: bool) returns (interrupted: bool)
      requires !mutexHeld
      modifies this`mutexHeld
      ensures interrupted == signal && mutexHeld == !signal
    {
      interrupted := signal;
      mutexHeld := !signal;
    }

    method Unlock()
      requires mutexHeld
      modifies this`mutexHeld
      ensures !mutexHeld
    {
      mutexHeld := false;
    }

    method StorageRead(off: nat, length: nat, fault: bool, signal: bool) returns (reply: Reply)
      requires Valid() && off + length <= LLONG_MAX
      modifies this`mutexHeld
      ensures Valid()
      ensures reply == Perform(keys, Snapshot(), Read(off, length), if fault then Faulted([]) else Fine, signal).reply
      ensures off >= STORAGE_TOTAL_SIZE ==> reply == Reply(0, off, [], [])
      ensures off < STORAGE_TOTAL_SIZE && (signal || fault) ==>
                reply == Reply(if signal then -ERESTARTSYS else -EFAULT, off, [], [])
      ensures off < STORAGE_TOTAL_SIZE && !signal && !fault ==>
                && reply.code == Min(length, STORAGE_TOTAL_SIZE - off)
                && reply.off == off + reply.code
                && reply.out == storage[off..off + reply.code]
    {
      if off >= STORAGE_TOTAL_SIZE {
        return At(0, off);
      }
      var n := length;
      if off + n > STORAGE_TOTAL_SIZE {
        n := STORAGE_TOTAL_SIZE - off;
      }
      var interrupted := Lock(signal);
      if interrupted {
        return At(-ERESTARTSYS, off);
      }
      if fault {
        Unlock();
        return At(-EFAULT, off);
      }
      var out := storage[off..off + n];
      Unlock();
      return Reply(n, off + n, out, []);
    }

    /** The loop that checks the locks of sectors `first` to `last`. */
    method SomeLocked(first: nat, last: int) returns (locked: bool)
      requires lockState.Length == STORAGE_NUM_SECTORS && last < STORAGE_NUM_SECTORS
      ensures locked <==> exists s :: first <= s <= last && SectorInRange(s) && lockState[..][s]
    {
      var s := first;
      while s <= last
        invariant first <= s
        invariant forall k :: first <= k < s && SectorInRange(k) ==> !lockState[..][k]
      {
        if lockState[s] {
          assert lockState[..][s];
          return true;
        }
        s := s + 1;
      }
      return false;
    }

    method StorageWrite(off: nat, data: seq<byte>, env: Env, signal: bool) returns (reply: Reply)
      requires Valid() && off + |data| <= LLONG_MAX
      modifies this`mutexHeld, storage
      ensures Valid()
      ensures Outcome(Snapshot(), reply) == Perform(keys, old(Snapshot()), Write(off, data), env, signal)
      ensures !signal ==>
                (reply.code == -EPERM <==>
                 off < STORAGE_TOTAL_SIZE && Refused(old(lockState[..]), off, Min(|data|, STORAGE_TOTAL_SIZE - off)))
      ensures reply.code == -EPERM ==> Snapshot() == old(Snapshot())
      ensures reply.code < 0 ==> reply.off == off
      ensures off >= STORAGE_TOTAL_SIZE ==> reply.code == -ENOSPC && Snapshot() == old(Snapshot())
      ensures off < STORAGE_TOTAL_SIZE && signal ==> reply.code == -ERESTARTSYS && Snapshot() == old(Snapshot())
      ensures off < STORAGE_TOTAL_SIZE && !signal && reply.code != -EPERM ==>
                var n := Min(|data|, STORAGE_TOTAL_SIZE - off);
                && (if env.Faulted? then reply.code == -EFAULT else reply.code == n && reply.off == off + n)
                && (env.Fine? ==> forall i :: off <= i < off + n ==> storage[..][i] == data[i - off])
                && forall i :: 0 <= i < storage.Length && !(off <= i < off + n) ==>
                                 storage[..][i] == old(storage[..])[i]
    {
      if off >= STORAGE_TOTAL_SIZE {
        return At(-ENOSPC, off);
      }
      WriteMeaning(keys, Snapshot(), off, data, env);
      var n := |data|;
      if off + n > STORAGE_TOTAL_SIZE {
        n := STORAGE_TOTAL_SIZE - off;
      }
      var sectorEnd := LastSector(off, n);
      var interrupted := Lock(signal);
      if interrupted {
        return At(-ERESTARTSYS, off);
      }
      LastSectorValue(off, n);
      SectorCheckIsByteRule(lockState[..], off, n);
      var refused := SomeLocked(SectorOf(off), sectorEnd);
      if refused {
        Unlock();
        return At(-EPERM, off);
      }
      match env {
        case Faulted(junk) =>
          Put(storage, off, if |junk| <= n then junk else junk[..n]);
          Unlock();
          return At(-EFAULT, off);
        case Fine =>
          Put(storage, off, data[..n]);
          Unlock();
          return At(n, off + n);
      }
    }

    method LockSector(sector: int, fault: bool) returns (reply: Reply)
      requires Valid()
      modifies this`mutexHeld, lockState
      ensures Valid()
      ensures Outcome(Snapshot(), reply)
              == Perform(keys, old(Snapshot()), Request.Lock(sector), if fault then Faulted([]) else Fine, false)
      ensures reply.code == if fault then -EFAULT else if SectorInRange(sector) then 0 else -EINVAL
      ensures lockState[..] == if reply.code == 0 then old(lockState[..])[sector := true] else old(lockState[..])
      ensures storage[..] == old(storage[..])
    {
      if fault {
        return Code(-EFAULT);
      }
      if sector < 0 || sector >= STORAGE_NUM_SECTORS {
        return Code(-EINVAL);
      }
      var _ := Lock(false);
      lockState[sector] := true;
      assert lockState[..] == old(lockState[..])[sector := true];
      Unlock();
      return Code(0);
    }

    method UnlockSector(sector: int, key: byte, fault: bool, signal: bool) returns (reply: Reply)
      requires Valid()
      modifies this`mutexHeld, lockState
      ensures Valid()
      ensures Outcome(Snapshot(), reply)
              == Perform(keys, old(Snapshot()), Request.Unlock(sector, key), if fault then Faulted([]) else Fine, signal)
      ensures reply.code == if fault then -EFAULT
                            else if !SectorInRange(sector) then -EINVAL
                            else if !exists i :: 0 <= i < |keys| && keys[i] == Some(key) then -EPERM
                            else if signal then -ERESTARTSYS
                            else 0
      ensures lockState[..] == if reply.code == 0 then old(lockState[..])[sector := false] else old(lockState[..])
      ensures storage[..] == old(storage[..])
    {
      if fault {
        return Code(-EFAULT);
      }
      if sector < 0 || sector >= STORAGE_NUM_SECTORS {
        return Code(-EINVAL);
      }
      var valid := false;
      var i := 0;
      while i < |keys| && !valid
        invariant 0 <= i <= |keys|
        invariant valid ==> ValidKey(keys, key)
        invariant !valid ==> Some(key) !in keys[..i]
      {
        if keys[i].Some? && key == keys[i].value {
          valid := true;
        }
        i := i + 1;
      }
      assert keys[..|keys|] == keys;
      if !valid {
        return Code(-EPERM);
      }
      var interrupted := Lock(signal);
      if interrupted {
        return Code(-ERESTARTSYS);
      }
      lockState[sector] := false;
      assert lockState[..] == old(lockState[..])[sector := false];
      Unlock();
      return Code(0);
    }

    method GetLockInfo(fault: bool) returns (reply: Reply)
      requires Valid()
      modifies this`mutexHeld
      ensures Valid()
      ensures reply == Perform(keys, Snapshot(), LockInfo, if fault then Faulted([]) else Fine, false).reply
      ensures if fault then reply.code == -EFAULT else reply.code == 0 && reply.info == lockState[..]
    {
      var info := [];
      var _ := Lock(false);
      for i := 0 to STORAGE_NUM_SECTORS
        invariant info == lockState[..i]
      {
        info := info + [lockState[i]];
      }
      Unlock();
      assert info == lockState[..];
      return if fault then Code(-EFAULT) else Reply(0, 0, [], info);
    }

    method EraseSector(sector: int, fault: bool) returns (reply: Reply)
      requires Valid()
      modifies this`mutexHeld, storage
      ensures Valid()
      ensures Outcome(Snapshot(), reply)
              == Perform(keys, old(Snapshot()), Erase(sector), if fault then Faulted([]) else Fine, false)
      ensures reply.code == if fault then -EFAULT
                            else if !SectorInRange(sector) then -EINVAL
                            else if lockState[sector] then -EPERM
                            else 0
      ensures forall i :: 0 <= i < storage.Length ==>
                storage[i] == if reply.code == 0 && SectorOf(i) == sector then 0 else old(storage[i])
      ensures lockState[..] == old(lockState[..])
    {
      if fault {
        return Code(-EFAULT);
      }
      if sector < 0 || sector >= STORAGE_NUM_SECTORS {
        return Code(-EINVAL);
      }
      var _ := Lock(false);
      if lockState[sector] {
        Unlock();
        return Code(-EPERM);
      }
      Put(storage, sector * STORAGE_SECTOR_SIZE, Zeros(STORAGE_SECTOR_SIZE));
      Unlock();
      return Code(0);
    }

    /** The mirror ioctl takes no mutex of its own and returns 0 even when the mirror
        module gave up on a signal. */
    method MirrorIoctl(m: MirrorModule, sector: int, fault: bool, signal: bool) returns (code: int)
      requires Valid() && m.Valid() && m.buffer != storage
      modifies m`mutexHeld, m.buffer
      ensures Valid() && m.Valid()
      ensures code == if fault then -EFAULT else if SectorInRange(sector) then 0 else -EINVAL
      ensures m.buffer[..] == if fault then old(m.buffer[..])
                              else Mirrored(old(m.buffer[..]), storage[..], sector, signal)
    {
      if fault {
        return -EFAULT;
      }
      if sector < 0 || sector >= STORAGE_NUM_SECTORS {
        return -EINVAL;
      }
      m.MirrorSector(sector, storage, sector * STORAGE_SECTOR_SIZE, signal);
      return 0;
    }
  }
}
