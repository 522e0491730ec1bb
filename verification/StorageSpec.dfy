/** The atomic specification of the sector-locked store of
    003_char_block_storage_device/storage_kernel.c: one step per call. */
module StorageSpec {
  import opened Kernel

  const STORAGE_TOTAL_SIZE: nat := 4096
  const STORAGE_SECTOR_SIZE: nat := 512
  const STORAGE_NUM_SECTORS: nat := 8

  datatype Store = Store(bytes: seq<byte>, locks: seq<bool>) {
    ghost predicate Valid() {
      |bytes| == STORAGE_TOTAL_SIZE && |locks| == STORAGE_NUM_SECTORS
    }
  }

  const FRESH_STORE := Store(Zeros(STORAGE_TOTAL_SIZE), [false, false, false, false, false, false, false, false])

  datatype Request =
    | Read(off: nat, length: nat)
    | Write(off: nat, data: seq<byte>)
    | Lock(sector: int)
    | Unlock(sector: int, key: byte)
    | LockInfo
    | Erase(sector: int)

  /** Whether a copy from or to user space faults, and what a faulting copy into the
      store leaves in the requested range. */
  datatype Env = Fine | Faulted(junk: seq<byte>)

  /** Return value, the caller's file offset afterwards, bytes read, lock vector read. */
  datatype Reply = Reply(code: int, off: nat, out: seq<byte>, info: seq<bool>)

  datatype Outcome = Outcome(store: Store, reply: Reply)

  function Code(code: int): Reply {
    Reply(code, 0, [], [])
  }

  function At(code: int, off: nat): Reply {
    Reply(code, off, [], [])
  }

  predicate SectorInRange(s: int) {
    0 <= s < STORAGE_NUM_SECTORS
  }

  function Clamped(off: nat, length: nat): (n: nat)
    requires off < STORAGE_TOTAL_SIZE
    ensures off + n <= STORAGE_TOTAL_SIZE && n <= length
    ensures n < length ==> off + n == STORAGE_TOTAL_SIZE
  {
    if off + length > STORAGE_TOTAL_SIZE then STORAGE_TOTAL_SIZE - off else length
  }

  function SectorOf(i: nat): (s: nat)
    ensures s * STORAGE_SECTOR_SIZE <= i < (s + 1) * STORAGE_SECTOR_SIZE
  {
    i / STORAGE_SECTOR_SIZE
  }

  /** The byte-level rule: a write is refused when it would touch a byte of a locked
      sector. A write of no bytes is still checked against the sector it points into,
      unless it points at the first byte of one. */
  ghost predicate Refused(locks: seq<bool>, off: nat, n: nat)
    requires |locks| == STORAGE_NUM_SECTORS && off < STORAGE_TOTAL_SIZE && off + n <= STORAGE_TOTAL_SIZE
  {
    if n == 0 then
      off % STORAGE_SECTOR_SIZE != 0 && locks[SectorOf(off)]
    else
      exists i :: off <= i < off + n && locks[SectorOf(i)]
  }

  function ToInt32(x: int): int {
    var r := x % 0x1_0000_0000;
    if r >= 0x8000_0000 then r - 0x1_0000_0000 else r
  }

  /** The code's last sector to check: `end - 1` in 64-bit unsigned arithmetic, divided
      by the sector size and stored in an `int`. */
  function LastSector(off: nat, n: nat): int {
    ToInt32(((off + n - 1) % 0x1_0000_0000_0000_0000) / STORAGE_SECTOR_SIZE)
  }

  lemma LastSectorValue(off: nat, n: nat)
    requires off + n <= STORAGE_TOTAL_SIZE
    ensures LastSector(off, n) == if off + n == 0 then -1 else (off + n - 1) / STORAGE_SECTOR_SIZE
    ensures LastSector(off, n) < STORAGE_NUM_SECTORS
  {
    var x := off + n - 1;
    if x < 0 {
      assert x % 0x1_0000_0000_0000_0000 == 0xFFFF_FFFF_FFFF_FFFF;
      assert LastSector(off, n) == ToInt32(0x7F_FFFF_FFFF_FFFF) == -1;
    } else {
      assert x % 0x1_0000_0000_0000_0000 == x;
      assert LastSector(off, n) == ToInt32(x / STORAGE_SECTOR_SIZE);
    }
  }

  /** Checking the sectors one by one refuses exactly what the byte-level rule refuses. */
  lemma SectorCheckIsByteRule(locks: seq<bool>, off: nat, n: nat)
    requires |locks| == STORAGE_NUM_SECTORS && off < STORAGE_TOTAL_SIZE && off + n <= STORAGE_TOTAL_SIZE
    ensures (exists s :: SectorOf(off) <= s <= LastSector(off, n) && SectorInRange(s) && locks[s])
            <==> Refused(locks, off, n)
  {
    LastSectorValue(off, n);
    if Refused(locks, off, n) {
      if n > 0 {
        var i :| off <= i < off + n && locks[SectorOf(i)];
        assert SectorInRange(SectorOf(i)) && SectorOf(off) <= SectorOf(i) <= LastSector(off, n);
      } else {
        assert SectorInRange(SectorOf(off)) && SectorOf(off) <= SectorOf(off) <= LastSector(off, n);
      }
    }
    if s :| SectorOf(off) <= s <= LastSector(off, n) && SectorInRange(s) && locks[s] {
      if n > 0 {
        var i := if s == SectorOf(off) then off else s * STORAGE_SECTOR_SIZE;
        assert off <= i < off + n && SectorOf(i) == s;
      }
    }
  }

  predicate ValidKey(keys: seq<Option<byte>>, key: byte) {
    Some(key) in keys
  }

  predicate Interruptible(req: Request) {
    req.Read? || req.Write? || req.Unlock?
  }

  function Interrupted(req: Request): Reply
    requires Interruptible(req)
  {
    At(-ERESTARTSYS, if req.Unlock? then 0 else req.off)
  }

  /** Requests that copy their argument from user space before anything else. */
  predicate TakesArgument(req: Request) {
    req.Lock? || req.Unlock? || req.Erase?
  }

  /** What a request returns before it gets as far as taking the mutex, if it does. */
  function EarlyReply(keys: seq<Option<byte>>, req: Request): Option<Reply> {
    match req
    case Read(off, _) => if off >= STORAGE_TOTAL_SIZE then Some(At(0, off)) else None
    case Write(off, _) => if off >= STORAGE_TOTAL_SIZE then Some(At(-ENOSPC, off)) else None
    case Lock(s) => if SectorInRange(s) then None else Some(Code(-EINVAL))
    case Unlock(s, key) =>
      if !SectorInRange(s) then Some(Code(-EINVAL))
      else if !ValidKey(keys, key) then Some(Code(-EPERM))
      else None
    case LockInfo => None
    case Erase(s) => if SectorInRange(s) then None else Some(Code(-EINVAL))
  }

  /** One whole uninterrupted call. */
  ghost function Exec(keys: seq<Option<byte>>, st: Store, req: Request, env: Env): (o: Outcome)
    requires st.Valid()
    ensures o.store.Valid()
  {
    if TakesArgument(req) && env.Faulted? then Outcome(st, Code(-EFAULT))
    else if EarlyReply(keys, req).Some? then Outcome(st, EarlyReply(keys, req).value)
    else
      match req
      case Read(off, length) =>
        var n := Clamped(off, length);
        if env.Faulted? then Outcome(st, At(-EFAULT, off))
        else Outcome(st, Reply(n, off + n, st.bytes[off..off + n], []))
      case Write(off, data) =>
        var n := Clamped(off, |data|);
        if Refused(st.locks, off, n) then Outcome(st, At(-EPERM, off))
        else if env.Faulted? then
          Outcome(st.(bytes := Scribble(st.bytes, off, n, env.junk)), At(-EFAULT, off))
        else Outcome(st.(bytes := Overlay(st.bytes, off, data[..n])), At(n, off + n))
      case Lock(s) => Outcome(st.(locks := st.locks[s := true]), Code(0))
      case Unlock(s, _) => Outcome(st.(locks := st.locks[s := false]), Code(0))
      case LockInfo =>
        if env.Faulted? then Outcome(st, Code(-EFAULT)) else Outcome(st, Reply(0, 0, [], st.locks))
      case Erase(s) =>
        if st.locks[s] then Outcome(st, Code(-EPERM))
        else
          Outcome(st.(bytes := Overlay(st.bytes, s * STORAGE_SECTOR_SIZE, Zeros(STORAGE_SECTOR_SIZE))), Code(0))
  }

  /** One whole call, when a signal may end the wait for the mutex. */
  ghost function Perform(keys: seq<Option<byte>>, st: Store, req: Request, env: Env, signal: bool): (o: Outcome)
    requires st.Valid()
    ensures o.store.Valid()
  {
    var argumentFault := TakesArgument(req) && env.Faulted?;
    if signal && Interruptible(req) && !argumentFault && EarlyReply(keys, req).None?
    then Outcome(st, Interrupted(req))
    else Exec(keys, st, req, env)
  }

  /** What an uninterrupted write inside the store does, unless it is refused: it takes as many
      bytes as fit, moves the offset by as many, and touches no other byte. */
  lemma WriteMeaning(keys: seq<Option<byte>>, st: Store, off: nat, data: seq<byte>, env: Env)
    requires st.Valid() && off < STORAGE_TOTAL_SIZE
    ensures var o := Exec(keys, st, Write(off, data), env);
            var n := Min(|data|, STORAGE_TOTAL_SIZE - off);
            && (o.reply.code == -EPERM <==> Refused(st.locks, off, n))
            && o.store.locks == st.locks
            && (o.reply.code == -EPERM ==> o.store == st && o.reply.off == off)
            && (o.reply.code != -EPERM && env.Faulted? ==> o.reply.code == -EFAULT && o.reply.off == off)
            && (o.reply.code != -EPERM && env.Fine? ==>
                  && o.reply.code == n && o.reply.off == off + n
                  && forall i :: off <= i < off + n ==> o.store.bytes[i] == data[i - off])
            && forall i :: 0 <= i < STORAGE_TOTAL_SIZE && !(off <= i < off + n) ==> o.store.bytes[i] == st.bytes[i]
  {
    assert Clamped(off, |data|) == Min(|data|, STORAGE_TOTAL_SIZE - off);
  }

  /** The 512 bytes of sector `s` of a buffer of eight sectors. */
  function Sector(bytes: seq<byte>, s: nat): (r: seq<byte>)
    requires |bytes| == STORAGE_TOTAL_SIZE && s < STORAGE_NUM_SECTORS
    ensures |r| == STORAGE_SECTOR_SIZE
    ensures forall j :: 0 <= j < STORAGE_SECTOR_SIZE ==> r[j] == bytes[s * STORAGE_SECTOR_SIZE + j]
  {
    bytes[s * STORAGE_SECTOR_SIZE..(s + 1) * STORAGE_SECTOR_SIZE]
  }

  lemma SameSector(a: seq<byte>, b: seq<byte>, s: nat)
    requires |a| == |b| == STORAGE_TOTAL_SIZE && s < STORAGE_NUM_SECTORS
    requires forall i: nat :: i < STORAGE_TOTAL_SIZE && SectorOf(i) == s ==> a[i] == b[i]
    ensures Sector(a, s) == Sector(b, s)
  {
    forall i: nat | i < STORAGE_TOTAL_SIZE && s * STORAGE_SECTOR_SIZE <= i < (s + 1) * STORAGE_SECTOR_SIZE
      ensures a[i] == b[i]
    {
      assert SectorOf(i) == s;
    }
  }

  /** A locked sector survives every single call; only an unlock of that very sector
      with an accepted key clears its lock. */
  lemma LockedSectorSurvives(keys: seq<Option<byte>>, st: Store, req: Request, env: Env, s: nat)
    requires st.Valid() && s < STORAGE_NUM_SECTORS && st.locks[s]
    ensures var o := Exec(keys, st, req, env);
            && Sector(o.store.bytes, s) == Sector(st.bytes, s)
            && (!o.store.locks[s] ==> req.Unlock? && req.sector == s && ValidKey(keys, req.key))
  {
    var o := Exec(keys, st, req, env);
    forall i: nat | i < STORAGE_TOTAL_SIZE && SectorOf(i) == s
      ensures o.store.bytes[i] == st.bytes[i]
    {
    }
    SameSector(o.store.bytes, st.bytes, s);
  }
}
