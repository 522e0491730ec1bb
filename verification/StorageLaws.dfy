/** What the replies of the storage calls say about each other, in every interleaved run. The
    reference here is the history of completed critical sections alone: a byte is what the last
    call that wrote it put there, a sector is locked if the last lock or unlock of it was a
    lock, and that decides every later reply. */
module StorageLaws {
  import opened Kernel
  import opened StorageSpec
  import opened StorageSystem
  import opened StorageRuns

  /** What a completed call put at byte `p`, if it changed it. */
  function PutAt(e: Event, p: nat): Option<byte> {
    match e.req
    case Write(off, data) =>
      if e.reply.code >= 0 && off <= p < off + e.reply.code && p - off < |data| then Some(data[p - off])
      else if e.reply.code == -EFAULT && e.env.Faulted? && off <= p && p - off < |data| && p - off < |e.env.junk|
      then Some(e.env.junk[p - off])
      else None
    case Erase(s) =>
      if e.reply.code == 0 && s * STORAGE_SECTOR_SIZE <= p < (s + 1) * STORAGE_SECTOR_SIZE then Some(0) else None
    case _ => None
  }

  /** Byte `p` after a history: what was put there last, or zero. */
  function ByteAfter(log: seq<Event>, p: nat): byte {
    if log == [] then 0
    else
      match PutAt(log[|log| - 1], p)
      case Some(b) => b
      case None => ByteAfter(log[..|log| - 1], p)
  }

  /** The lock of sector `s` as a completed call leaves it, if it concerns it. */
  function SetsLock(e: Event, s: nat): Option<bool> {
    match e.req
    case Lock(s') => if e.reply.code == 0 && s' == s then Some(true) else None
    case Unlock(s', _) => if e.reply.code == 0 && s' == s then Some(false) else None
    case _ => None
  }

  /** Whether sector `s` is locked after a history. */
  function LockedAfter(log: seq<Event>, s: nat): bool {
    if log == [] then false
    else
      match SetsLock(log[|log| - 1], s)
      case Some(b) => b
      case None => LockedAfter(log[..|log| - 1], s)
  }

  /** A write of `n` bytes at `off` would touch a locked sector; one of no bytes counts as
      touching the sector it points into, unless it points at its first byte. */
  ghost predicate HitsLock(log: seq<Event>, off: nat, n: nat) {
    if n == 0 then off % STORAGE_SECTOR_SIZE != 0 && LockedAfter(log, off / STORAGE_SECTOR_SIZE)
    else exists p: nat :: off <= p < off + n && LockedAfter(log, p / STORAGE_SECTOR_SIZE)
  }

  ghost predicate ReadExplained(before: seq<Event>, e: Event)
    requires e.req.Read?
  {
    var off, length := e.req.off, e.req.length;
    if off >= STORAGE_TOTAL_SIZE then e.reply == Reply(0, off, [], [])
    else if e.env.Faulted? then e.reply == Reply(-EFAULT, off, [], [])
    else
      && e.reply.code == |e.reply.out| == (if off + length <= 4096 then length else 4096 - off)
      && e.reply.off == off + e.reply.code
      && forall j :: 0 <= j < |e.reply.out| ==> e.reply.out[j] == ByteAfter(before, off + j)
  }

  ghost predicate WriteExplained(before: seq<Event>, e: Event)
    requires e.req.Write?
  {
    var off, length := e.req.off, |e.req.data|;
    var n := if off + length <= 4096 then length else 4096 - off;
    if off >= STORAGE_TOTAL_SIZE then e.reply.code == -ENOSPC && e.reply.off == off
    else if HitsLock(before, off, n) then e.reply.code == -EPERM && e.reply.off == off
    else if e.env.Faulted? then e.reply.code == -EFAULT && e.reply.off == off
    else e.reply.code == n && e.reply.off == off + n
  }

  /** The reply of the call `e` is the one that the calls completed before it determine. */
  ghost predicate Explained(keys: Keys, before: seq<Event>, e: Event) {
    match e.req
    case Read(_, _) => ReadExplained(before, e)
    case Write(_, _) => WriteExplained(before, e)
    case Lock(s) => e.reply.code == if e.env.Faulted? then -EFAULT else if 0 <= s < 8 then 0 else -EINVAL
    case Unlock(s, key) =>
      e.reply.code == if e.env.Faulted? then -EFAULT
                      else if !(0 <= s < 8) then -EINVAL
                      else if Some(key) !in keys then -EPERM
                      else 0
    case LockInfo =>
      if e.env.Faulted? then e.reply.code == -EFAULT
      else
        && e.reply.code == 0 && |e.reply.info| == 8
        && forall s: nat :: s < 8 ==> e.reply.info[s] == LockedAfter(before, s)
    case Erase(s) =>
      e.reply.code == if e.env.Faulted? then -EFAULT
                      else if !(0 <= s < 8) then -EINVAL
                      else if LockedAfter(before, s) then -EPERM
                      else 0
  }

  ghost predicate Agrees(st: Store, log: seq<Event>)
    requires st.Valid()
  {
    && (forall p :: 0 <= p < STORAGE_TOTAL_SIZE ==> st.bytes[p] == ByteAfter(log, p))
    && (forall s :: 0 <= s < STORAGE_NUM_SECTORS ==> st.locks[s] == LockedAfter(log, s))
  }

  lemma HitsLockIsRefused(st: Store, log: seq<Event>, off: nat, n: nat)
    requires st.Valid() && Agrees(st, log) && off < STORAGE_TOTAL_SIZE && off + n <= STORAGE_TOTAL_SIZE
    ensures HitsLock(log, off, n) <==> Refused(st.locks, off, n)
  {
    forall p: nat | p < STORAGE_TOTAL_SIZE
      ensures SectorOf(p) == p / STORAGE_SECTOR_SIZE && st.locks[SectorOf(p)] == LockedAfter(log, p / STORAGE_SECTOR_SIZE)
    {
    }
    if n > 0 && Refused(st.locks, off, n) {
      var p :| off <= p < off + n && st.locks[SectorOf(p)];
      assert LockedAfter(log, p / STORAGE_SECTOR_SIZE);
    }
  }

  lemma AfterOne(log: seq<Event>, e: Event)
    ensures forall p :: ByteAfter(log + [e], p)
                        == if PutAt(e, p).Some? then PutAt(e, p).value else ByteAfter(log, p)
    ensures forall s :: LockedAfter(log + [e], s)
                        == if SetsLock(e, s).Some? then SetsLock(e, s).value else LockedAfter(log, s)
  {
    assert (log + [e])[..|log|] == log;
  }

  lemma WriteIsExplained(keys: Keys, st: Store, log: seq<Event>, e: Event)
    requires st.Valid() && Agrees(st, log) && e.req.Write? && Exec(keys, st, e.req, e.env).reply == e.reply
    ensures Explained(keys, log, e) && Agrees(Exec(keys, st, e.req, e.env).store, log + [e])
  {
    var off, data := e.req.off, e.req.data;
    AfterOne(log, e);
    if off < STORAGE_TOTAL_SIZE {
      WriteMeaning(keys, st, off, data, e.env);
      HitsLockIsRefused(st, log, off, Min(|data|, STORAGE_TOTAL_SIZE - off));
      var st' := Exec(keys, st, e.req, e.env).store;
      forall p | 0 <= p < STORAGE_TOTAL_SIZE
        ensures st'.bytes[p] == ByteAfter(log + [e], p)
      {
        if e.reply.code == -EFAULT && e.env.Faulted? && off <= p < off + Clamped(off, |data|) {
          assert st'.bytes[p] == if p - off < |e.env.junk| then e.env.junk[p - off] else st.bytes[p];
        }
      }
    }
  }

  lemma OtherIsExplained(keys: Keys, st: Store, log: seq<Event>, e: Event)
    requires st.Valid() && Agrees(st, log) && !e.req.Write? && Exec(keys, st, e.req, e.env).reply == e.reply
    ensures Explained(keys, log, e) && Agrees(Exec(keys, st, e.req, e.env).store, log + [e])
  {
    AfterOne(log, e);
  }

  /** Replaying a log through the atomic specification: every reply is explained by the calls
      before it, and the store at the end is what the whole log says. */
  lemma {:induction false} ReplayIsExplained(keys: Keys, log: seq<Event>)
    requires Replay(keys, FRESH_STORE, log).Some?
    ensures Agrees(Replay(keys, FRESH_STORE, log).value, log)
    ensures forall i :: 0 <= i < |log| ==> Explained(keys, log[..i], log[i])
  {
    if log != [] {
      var before, e := log[..|log| - 1], log[|log| - 1];
      ReplayIsExplained(keys, before);
      var st := Replay(keys, FRESH_STORE, before).value;
      assert log == before + [e];
      if e.req.Write? {
        WriteIsExplained(keys, st, before, e);
      } else {
        OtherIsExplained(keys, st, before, e);
      }
      forall i | 0 <= i < |log|
        ensures Explained(keys, log[..i], log[i])
      {
        if i < |before| {
          assert before[..i] == log[..i] && before[i] == log[i];
        }
      }
    }
  }

  // ---- Every interleaved run ----

  /** In every interleaving each completed call got the reply that the calls completed before
      it determine: reads return the bytes put there last and move the offset past them, writes
      are refused exactly when they hit a sector whose last lock call was a lock, and lock
      vectors list exactly those sectors. Whenever storage_mutex is free, the store is what
      the completed calls left. */
  lemma RepliesAreExplained(keys: Keys, n: nat, sched: seq<Turn>)
    requires Run(keys, Init(n), sched).Some?
    ensures var s, log := Run(keys, Init(n), sched).value, Commits(keys, Init(n), sched);
            && (forall i :: 0 <= i < |log| ==> Explained(keys, log[..i], log[i]))
            && (s.sh.sm.None? ==> s.sh.store.Valid() && Agrees(s.sh.store, log))
  {
    RunRefinesSpec(keys, n, sched);
    ReachableInv(keys, n, sched);
    ReplayIsExplained(keys, Commits(keys, Init(n), sched));
  }

  /** No call completed between positions `i` and `j` of the log unlocks sector `s`. */
  predicate NoUnlock(log: seq<Event>, i: nat, j: nat, s: nat)
    requires j <= |log|
  {
    forall k :: i < k < j ==> !(log[k].req.Unlock? && log[k].req.sector == s && log[k].reply.code == 0)
  }

  lemma {:induction false} StaysLocked(log: seq<Event>, i: nat, j: nat, s: nat)
    requires i < j <= |log| && NoUnlock(log, i, j, s)
    requires log[i].req == Request.Lock(s) && log[i].reply.code == 0
    ensures LockedAfter(log[..j], s)
    decreases j
  {
    assert log[..j][..j - 1] == log[..j - 1];
    if i < j - 1 {
      StaysLocked(log, i, j - 1, s);
    }
  }

  /** A lock call locks. Once one for sector `s` has completed with 0, the sector is locked
      whenever storage_mutex is free, and every write of a byte of it and every erase of it
      that completes before an unlock of `s` does is refused. */
  lemma LockTakesEffect(keys: Keys, n: nat, sched: seq<Turn>, i: nat, j: nat, s: nat)
    requires Run(keys, Init(n), sched).Some? && s < STORAGE_NUM_SECTORS
    requires var log := Commits(keys, Init(n), sched);
             && i < j <= |log| && NoUnlock(log, i, j, s)
             && log[i].req == Request.Lock(s) && log[i].reply.code == 0
    ensures var sys, log := Run(keys, Init(n), sched).value, Commits(keys, Init(n), sched);
            && (j == |log| && sys.sh.sm.None? ==> sys.sh.store.Valid() && sys.sh.store.locks[s])
            && (j < |log| && log[j].req.Write?
                && (exists p: nat :: p < STORAGE_TOTAL_SIZE && p / STORAGE_SECTOR_SIZE == s
                                     && log[j].req.off <= p < log[j].req.off + |log[j].req.data|)
                ==> log[j].reply.code == -EPERM)
            && (j < |log| && log[j].req == Request.Erase(s) && log[j].env.Fine? ==> log[j].reply.code == -EPERM)
            && (j < |log| && log[j].req == LockInfo && log[j].env.Fine? ==>
                  s < |log[j].reply.info| && log[j].reply.info[s])
  {
    var log := Commits(keys, Init(n), sched);
    RepliesAreExplained(keys, n, sched);
    StaysLocked(log, i, j, s);
    if j == |log| {
      assert log[..j] == log;
    } else {
      assert Explained(keys, log[..j], log[j]);
    }
  }

  lemma {:induction false} ByteStays(log: seq<Event>, i: nat, j: nat, p: nat)
    requires i < j <= |log| && PutAt(log[i], p).Some?
    requires Untouched(log, i, j, p)
    ensures ByteAfter(log[..j], p) == PutAt(log[i], p).value
    decreases j
  {
    assert log[..j][..j - 1] == log[..j - 1];
    if i < j - 1 {
      ByteStays(log, i, j - 1, p);
    }
  }

  /** No call completed between positions `i` and `j` puts anything into the `n` bytes at `off`. */
  ghost predicate NothingPut(log: seq<Event>, i: nat, j: nat, off: nat, n: nat)
    requires j <= |log|
  {
    forall p: nat :: off <= p < off + n ==> Untouched(log, i, j, p)
  }

  predicate Untouched(log: seq<Event>, i: nat, j: nat, p: nat)
    requires j <= |log|
  {
    forall k :: i < k < j ==> PutAt(log[k], p).None?
  }

  lemma ReadAfterWrite(log: seq<Event>, i: nat, j: nat)
    requires i < j < |log| && log[i].req.Write? && log[j].req.Read?
    requires WriteExplained(log[..i], log[i]) && log[i].env.Fine? && log[i].reply.code >= 0
    requires ReadExplained(log[..j], log[j]) && log[j].env.Fine?
    requires log[j].req == Request.Read(log[i].req.off, log[i].reply.code)
    requires NothingPut(log, i, j, log[i].req.off, log[i].reply.code)
    ensures log[i].reply.code <= |log[i].req.data| && log[j].reply.out == log[i].req.data[..log[i].reply.code]
  {
    var off, data, out := log[i].req.off, log[i].req.data, log[j].reply.out;
    forall q | 0 <= q < |out|
      ensures out[q] == data[q]
    {
      assert Untouched(log, i, j, off + q);
      ByteStays(log, i, j, off + q);
    }
  }

  /** Read your writes. What an accepted write stored, a later fault-free read of that range
      returns, if no call in between put anything into the range. */
  lemma WriteIsReadBack(keys: Keys, n: nat, sched: seq<Turn>, i: nat, j: nat)
    requires Run(keys, Init(n), sched).Some?
    requires var log := Commits(keys, Init(n), sched);
             && i < j < |log| && log[i].req.Write? && log[i].env.Fine? && log[i].reply.code >= 0
             && log[j].req == Request.Read(log[i].req.off, log[i].reply.code) && log[j].env.Fine?
             && NothingPut(log, i, j, log[i].req.off, log[i].reply.code)
    ensures var log := Commits(keys, Init(n), sched);
            log[i].reply.code <= |log[i].req.data| && log[j].reply.out == log[i].req.data[..log[i].reply.code]
  {
    var log := Commits(keys, Init(n), sched);
    RepliesAreExplained(keys, n, sched);
    assert Explained(keys, log[..i], log[i]) && Explained(keys, log[..j], log[j]);
    ReadAfterWrite(log, i, j);
  }
}
