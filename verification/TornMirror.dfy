/** The lock is what makes a mirror a snapshot: from every state in which a mirror call is
    entered for a sector that is not locked, the threads can go on so that the completed
    mirror is a mixture that no completed call ever left in the store. */
module TornMirror {
  import opened Kernel
  import opened StorageSpec
  import opened StorageSystem
  import opened StorageRuns
  import opened StorageSafety

  /** Who plays: thread `t` has entered a mirror call for sector `k`, thread `u` is idle. */
  datatype Cast = Cast(keys: Keys, from: Sys, t: Tid, u: Tid, k: nat) {
    ghost predicate Valid() {
      && t < |from.th| && u < |from.th| && t != u && k < STORAGE_NUM_SECTORS
      && from.th[t] == Entered(Mirror(k)) && from.th[u] == Idle
      && from.sh.store.Valid() && |from.sh.mirror| == STORAGE_TOTAL_SIZE
      && from.sh.sm.None? && from.sh.mm.None?
    }

    function Off(): nat {
      k * STORAGE_SECTOR_SIZE
    }
  }

  /** `sched` takes the system to the shared state `sh`, `t` to `a` and `u` to `b`, moving no
      other thread and unlocking nothing, and completes the critical sections `log`. */
  ghost predicate Goes(c: Cast, sched: seq<Turn>, sh: Shared, a: Local, b: Local, log: seq<Event>)
    requires c.Valid()
  {
    && Run(c.keys, c.from, sched) == Some(Sys(sh, c.from.th[c.t := a][c.u := b]))
    && Commits(c.keys, c.from, sched) == log
    && NeverUnlocks(c.keys, c.from, sched, c.k)
  }

  lemma OneMoreTurn(keys: Keys, s: Sys, sched: seq<Turn>, turn: Turn, k: nat)
    requires Run(keys, s, sched).Some? && NeverUnlocks(keys, s, sched, k)
    requires !UnlockStep(Run(keys, s, sched).value, turn, k)
    ensures var s', all := Run(keys, s, sched).value, sched + [turn];
            && Run(keys, s, all) == Step(keys, s', turn)
            && Commits(keys, s, all) == Commits(keys, s, sched) + Commit(s', turn)
            && NeverUnlocks(keys, s, all, k)
  {
    var all := sched + [turn];
    assert all[..|all| - 1] == sched && all[|all| - 1] == turn;
  }

  lemma MirrorMoves(c: Cast, sched: seq<Turn>, sh: Shared, a: Local, b: Local, log: seq<Event>, act: Action)
    returns (sched': seq<Turn>, m: Move)
    requires c.Valid() && Goes(c, sched, sh, a, b, log) && !a.Body? && !a.Leaving?
    requires LocalStep(c.keys, sh, c.t, a, act).Some?
    ensures m == LocalStep(c.keys, sh, c.t, a, act).value && Goes(c, sched', m.sh, m.l, b, log)
  {
    m := LocalStep(c.keys, sh, c.t, a, act).value;
    sched' := sched + [Turn(c.t, act)];
    OneMoreTurn(c.keys, c.from, sched, Turn(c.t, act), c.k);
    assert log + [] == log;
    assert c.from.th[c.t := a][c.u := b][c.t := m.l] == c.from.th[c.t := m.l][c.u := b];
  }

  lemma WriterMoves(c: Cast, sched: seq<Turn>, sh: Shared, a: Local, b: Local, log: seq<Event>, act: Action)
    returns (sched': seq<Turn>, m: Move)
    requires c.Valid() && Goes(c, sched, sh, a, b, log) && !b.Body?
    requires LocalStep(c.keys, sh, c.u, b, act).Some?
    ensures m == LocalStep(c.keys, sh, c.u, b, act).value
    ensures Goes(c, sched', m.sh, a, m.l,
                 log + if act.Release? && b.Leaving? then [Event(c.u, b.req, b.env, b.reply)] else [])
  {
    m := LocalStep(c.keys, sh, c.u, b, act).value;
    sched' := sched + [Turn(c.u, act)];
    OneMoreTurn(c.keys, c.from, sched, Turn(c.u, act), c.k);
    assert c.from.th[c.t := a][c.u := b][c.u := m.l] == c.from.th[c.t := a][c.u := m.l];
  }

  function Other(b: byte): byte {
    if b == 0 then 1 else 0
  }

  /** The write that tears the mirror: it changes the first two bytes of the sector. */
  function TornWrite(c: Cast): Request
    requires c.Valid()
  {
    var bytes := c.from.sh.store.bytes;
    Write(c.Off(), [Other(bytes[c.Off()]), Other(bytes[c.Off() + 1])])
  }

  /** The store after that write. */
  function Torn(c: Cast): Store
    requires c.Valid()
  {
    c.from.sh.store.(bytes := Overlay(c.from.sh.store.bytes, c.Off(), TornWrite(c).data))
  }

  function FirstCopied(): set<nat> {
    Range(STORAGE_SECTOR_SIZE) - {0}
  }

  /** Thread `t` takes mirror_mutex and copies byte 0. */
  lemma MirrorStarts(c: Cast) returns (sched: seq<Turn>, sh: Shared)
    requires c.Valid()
    ensures Goes(c, sched, sh, Mirroring(c.k, FirstCopied()), Idle, [])
    ensures sh.store == c.from.sh.store && sh.sm.None? && |sh.mirror| == STORAGE_TOTAL_SIZE
    ensures sh.mirror[c.Off()] == sh.store.bytes[c.Off()]
  {
    assert c.from.th[c.t := Entered(Mirror(c.k))][c.u := Idle] == c.from.th;
    assert Goes(c, [], c.from.sh, Entered(Mirror(c.k)), Idle, []);
    var m;
    sched, m := MirrorMoves(c, [], c.from.sh, Entered(Mirror(c.k)), Idle, [], Go);
    sched, m := MirrorMoves(c, sched, m.sh, m.l, Idle, [], Acquire);
    sched, m := MirrorMoves(c, sched, m.sh, m.l, Idle, [], CopyByte(0));
    sh := m.sh;
  }

  /** Thread `u` enters the write and gets as far as the lock check. */
  lemma WriterEnters(c: Cast) returns (sched: seq<Turn>, sh: Shared)
    requires c.Valid()
    ensures Goes(c, sched, sh, Mirroring(c.k, FirstCopied()), Checking(TornWrite(c), c.k), [])
    ensures sh.store == c.from.sh.store && sh.sm == Some(c.u) && |sh.mirror| == STORAGE_TOTAL_SIZE
    ensures sh.mirror[c.Off()] == sh.store.bytes[c.Off()]
  {
    var m;
    var a := Mirroring(c.k, FirstCopied());
    sched, sh := MirrorStarts(c);
    sched, m := WriterMoves(c, sched, sh, a, Idle, [], Invoke(Op(TornWrite(c))));
    sched, m := WriterMoves(c, sched, m.sh, a, m.l, [], Go);
    sched, m := WriterMoves(c, sched, m.sh, a, m.l, [], Acquire);
    sh := m.sh;
  }

  /** The sector is not locked, so it starts copying. */
  lemma WriterStarts(c: Cast) returns (sched: seq<Turn>, sh: Shared)
    requires c.Valid() && !c.from.sh.store.locks[c.k]
    ensures Goes(c, sched, sh, Mirroring(c.k, FirstCopied()), Writing(TornWrite(c), Range(2)), [])
    ensures sh.store == c.from.sh.store && sh.sm == Some(c.u) && |sh.mirror| == STORAGE_TOTAL_SIZE
    ensures sh.mirror[c.Off()] == sh.store.bytes[c.Off()]
  {
    var m;
    var a := Mirroring(c.k, FirstCopied());
    sched, sh := WriterEnters(c);
    LastSectorValue(c.Off(), 2);
    sched, m := WriterMoves(c, sched, sh, a, Checking(TornWrite(c), c.k), [], Go);
    sched, m := WriterMoves(c, sched, m.sh, a, m.l, [], Go);
    sh := m.sh;
  }

  lemma WriteByteMove(keys: Keys, sh: Shared, t: Tid, req: Request, todo: set<nat>, j: nat)
    requires sh.store.Valid() && req.Write? && j in todo && j < |req.data| && req.off + j < STORAGE_TOTAL_SIZE
    ensures var bytes := sh.store.bytes[req.off + j := req.data[j]];
            LocalStep(keys, sh, t, Writing(req, todo), CopyByte(j))
            == Some(Move(sh.(store := sh.store.(bytes := bytes)), Writing(req, todo - {j})))
  {
  }

  lemma WriterCopies(c: Cast) returns (sched: seq<Turn>, sh: Shared)
    requires c.Valid() && !c.from.sh.store.locks[c.k]
    ensures Goes(c, sched, sh, Mirroring(c.k, FirstCopied()), Writing(TornWrite(c), {}), [])
    ensures sh.store == Torn(c) && sh.sm == Some(c.u) && |sh.mirror| == STORAGE_TOTAL_SIZE
    ensures sh.mirror[c.Off()] == c.from.sh.store.bytes[c.Off()]
  {
    var m;
    var a := Mirroring(c.k, FirstCopied());
    sched, sh := WriterStarts(c);
    WriteByteMove(c.keys, sh, c.u, TornWrite(c), Range(2), 0);
    sched, m := WriterMoves(c, sched, sh, a, Writing(TornWrite(c), Range(2)), [], CopyByte(0));
    WriteByteMove(c.keys, m.sh, c.u, TornWrite(c), Range(2) - {0}, 1);
    sched, m := WriterMoves(c, sched, m.sh, a, m.l, [], CopyByte(1));
    assert Range(2) - {0} - {1} == {};
    sh := m.sh;
    assert sh.store.bytes == Torn(c).bytes;
  }

  /** The critical section of the write. */
  function TornEvent(c: Cast): Event
    requires c.Valid()
  {
    Event(c.u, TornWrite(c), Fine, At(2, c.Off() + 2))
  }

  lemma WriterLeaves(c: Cast) returns (sched: seq<Turn>, sh: Shared)
    requires c.Valid() && !c.from.sh.store.locks[c.k]
    ensures Goes(c, sched, sh, Mirroring(c.k, FirstCopied()), Leaving(TornWrite(c), Fine, TornEvent(c).reply), [])
    ensures sh.store == Torn(c) && sh.sm == Some(c.u) && |sh.mirror| == STORAGE_TOTAL_SIZE
    ensures sh.mirror[c.Off()] == c.from.sh.store.bytes[c.Off()]
  {
    var m;
    sched, sh := WriterCopies(c);
    sched, m := WriterMoves(c, sched, sh, Mirroring(c.k, FirstCopied()), Writing(TornWrite(c), {}), [], Go);
    sh := m.sh;
  }

  /** The whole write happens while the mirror call is in the middle of its copy. */
  lemma WriterFinishes(c: Cast) returns (sched: seq<Turn>, sh: Shared, b: Local)
    requires c.Valid() && !c.from.sh.store.locks[c.k]
    ensures Goes(c, sched, sh, Mirroring(c.k, FirstCopied()), b, [TornEvent(c)])
    ensures sh.store == Torn(c) && |sh.mirror| == STORAGE_TOTAL_SIZE
    ensures sh.mirror[c.Off()] == c.from.sh.store.bytes[c.Off()]
  {
    var m;
    var a := Mirroring(c.k, FirstCopied());
    sched, sh := WriterLeaves(c);
    sched, m := WriterMoves(c, sched, sh, a, Leaving(TornWrite(c), Fine, TornEvent(c).reply), [], Release);
    assert [] + [TornEvent(c)] == [TornEvent(c)];
    sh, b := m.sh, m.l;
  }

  lemma CopyByteMove(keys: Keys, sh: Shared, t: Tid, k: nat, todo: set<nat>, j: nat)
    requires sh.store.Valid() && |sh.mirror| == STORAGE_TOTAL_SIZE && k < STORAGE_NUM_SECTORS
    requires j in todo && j < STORAGE_SECTOR_SIZE
    ensures var i := k * STORAGE_SECTOR_SIZE + j;
            LocalStep(keys, sh, t, Mirroring(k, todo), CopyByte(j))
            == Some(Move(sh.(mirror := sh.mirror[i := sh.store.bytes[i]]), Mirroring(k, todo - {j})))
  {
  }

  /** `m'` is `m` with the positions `todo` of the sector at `off` copied from `bytes`. */
  ghost predicate CopiedOver(m: seq<byte>, m': seq<byte>, bytes: seq<byte>, off: nat, todo: set<nat>)
    requires |m| == |m'| == |bytes| == STORAGE_TOTAL_SIZE && off + STORAGE_SECTOR_SIZE <= STORAGE_TOTAL_SIZE
  {
    forall i :: off <= i < off + STORAGE_SECTOR_SIZE ==> m'[i] == if i - off in todo then bytes[i] else m[i]
  }

  lemma CopiedStep(m: seq<byte>, m': seq<byte>, bytes: seq<byte>, off: nat, todo: set<nat>, j: nat)
    requires |m| == |m'| == |bytes| == STORAGE_TOTAL_SIZE && off + STORAGE_SECTOR_SIZE <= STORAGE_TOTAL_SIZE
    requires j in todo && j < STORAGE_SECTOR_SIZE
    requires CopiedOver(m[off + j := bytes[off + j]], m', bytes, off, todo - {j})
    ensures CopiedOver(m, m', bytes, off, todo)
  {
  }

  /** Thread `t` goes on copying bytes until none is left. */
  lemma {:induction false} CopyRest(c: Cast, sched: seq<Turn>, sh: Shared, todo: set<nat>, b: Local, log: seq<Event>)
    returns (sched': seq<Turn>, sh': Shared)
    requires c.Valid() && Goes(c, sched, sh, Mirroring(c.k, todo), b, log) && todo <= Range(STORAGE_SECTOR_SIZE)
    requires sh.store.Valid() && |sh.mirror| == STORAGE_TOTAL_SIZE
    ensures Goes(c, sched', sh', Mirroring(c.k, {}), b, log)
    ensures sh'.store == sh.store && |sh'.mirror| == STORAGE_TOTAL_SIZE
    ensures CopiedOver(sh.mirror, sh'.mirror, sh.store.bytes, c.Off(), todo)
    decreases |todo|
  {
    if todo == {} {
      sched', sh' := sched, sh;
    } else {
      var j: nat :| j in todo;
      CopyByteMove(c.keys, sh, c.t, c.k, todo, j);
      var sched1, m := MirrorMoves(c, sched, sh, Mirroring(c.k, todo), b, log, CopyByte(j));
      sched', sh' := CopyRest(c, sched1, m.sh, todo - {j}, b, log);
      CopiedStep(sh.mirror, sh'.mirror, sh.store.bytes, c.Off(), todo, j);
    }
  }

  lemma TornSectorDiffers(c: Cast, m: seq<byte>, m': seq<byte>)
    requires c.Valid() && |m| == |m'| == STORAGE_TOTAL_SIZE
    requires m[c.Off()] == c.from.sh.store.bytes[c.Off()]
    requires CopiedOver(m, m', Torn(c).bytes, c.Off(), FirstCopied())
    ensures Sector(m', c.k) != Sector(c.from.sh.store.bytes, c.k)
    ensures Sector(m', c.k) != Sector(Torn(c).bytes, c.k)
  {
    var off, was, now := c.Off(), c.from.sh.store.bytes, Torn(c).bytes;
    assert m'[off] == was[off] != now[off];
    assert m'[off + 1] == now[off + 1] != was[off + 1];
    assert Sector(m', c.k)[0] == m'[off] && Sector(m', c.k)[1] == m'[off + 1];
  }

  lemma TornWriteOutcome(c: Cast)
    requires c.Valid() && !c.from.sh.store.locks[c.k]
    ensures Exec(c.keys, c.from.sh.store, TornWrite(c), Fine) == Outcome(Torn(c), TornEvent(c).reply)
  {
    assert TornWrite(c).data[..2] == TornWrite(c).data;
  }

  /** Wherever a mirror call is entered for a sector that is not locked, both mutexes are free
      and some other thread is idle, the call can end with a torn copy: the only critical
      section completed since then is one write, and the mirror's sector is what the store's
      sector was neither before nor after it. */
  lemma UnlockedMirrorCanTear(c: Cast) returns (sched: seq<Turn>, sh: Shared, b: Local)
    requires c.Valid() && !c.from.sh.store.locks[c.k]
    ensures Goes(c, sched, sh, MirrorLeaving(c.k), b, [TornEvent(c)])
    ensures sh.store.Valid() && |sh.mirror| == STORAGE_TOTAL_SIZE
    ensures Exec(c.keys, c.from.sh.store, TornWrite(c), Fine) == Outcome(sh.store, TornEvent(c).reply)
    ensures Sector(sh.mirror, c.k) != Sector(c.from.sh.store.bytes, c.k)
    ensures Sector(sh.mirror, c.k) != Sector(sh.store.bytes, c.k)
  {
    sched, sh, b := WriterFinishes(c);
    var copied := sh.mirror;
    sched, sh := CopyRest(c, sched, sh, FirstCopied(), b, [TornEvent(c)]);
    TornSectorDiffers(c, copied, sh.mirror);
    var m;
    sched, m := MirrorMoves(c, sched, sh, Mirroring(c.k, {}), b, [TornEvent(c)], Go);
    TornWriteOutcome(c);
  }

  // ---- The exact condition ----

  /** `sector` is what sector `k` of the store was after some number of the critical sections
      in `log`, run one at a time from `st`. */
  ghost predicate WasInStore(keys: Keys, st: Store, log: seq<Event>, sector: seq<byte>, k: nat)
    requires st.Valid() && k < STORAGE_NUM_SECTORS
  {
    exists i :: 0 <= i <= |log| && SectorAfter(keys, st, log[..i], k) == Some(sector)
  }

  ghost function SectorAfter(keys: Keys, st: Store, log: seq<Event>, k: nat): Option<seq<byte>>
    requires st.Valid() && k < STORAGE_NUM_SECTORS
  {
    match Replay(keys, st, log)
    case None => None
    case Some(st') => Some(Sector(st'.bytes, k))
  }

  /** However the threads go on without unlocking sector `k`, if `t` completes the copy of its
      mirror call then the copy is one that the store held in between two calls. */
  ghost predicate AlwaysSnapshot(c: Cast)
    requires c.Valid()
  {
    forall ext :: Completes(c, ext) ==>
      WasInStore(c.keys, c.from.sh.store, Commits(c.keys, c.from, ext),
                 Sector(Run(c.keys, c.from, ext).value.sh.mirror, c.k), c.k)
  }

  ghost predicate Completes(c: Cast, ext: seq<Turn>)
    requires c.Valid()
  {
    && Run(c.keys, c.from, ext).Some? && NeverUnlocks(c.keys, c.from, ext, c.k)
    && var s := Run(c.keys, c.from, ext).value;
       c.t < |s.th| && s.th[c.t] == MirrorLeaving(c.k) && |s.sh.mirror| == STORAGE_TOTAL_SIZE
  }

  /** The lock bit is the exact condition. In every reachable state in which thread `t` has
      entered a mirror call for sector `k`, both mutexes are free and another thread is idle:
      every way to go on mirrors a state of the sector that the store was in if and only if
      the sector is locked. */
  lemma SnapshotIffLocked(c: Cast, n: nat, sched: seq<Turn>)
    requires c.Valid() && Run(c.keys, Init(n), sched) == Some(c.from)
    ensures AlwaysSnapshot(c) <==> c.from.sh.store.locks[c.k]
  {
    ReachableInv(c.keys, n, sched);
    var base := Replay(c.keys, FRESH_STORE, Commits(c.keys, Init(n), sched)).value;
    if c.from.sh.store.locks[c.k] {
      forall ext | Completes(c, ext)
        ensures WasInStore(c.keys, c.from.sh.store, Commits(c.keys, c.from, ext),
                           Sector(Run(c.keys, c.from, ext).value.sh.mirror, c.k), c.k)
      {
        LockedIsStable(c.keys, c.from, base, ext, c.k);
        MirrorOfStableSectorIsExact(c.keys, c.from, base, ext, c.t, c.k);
        assert Commits(c.keys, c.from, ext)[..0] == [];
      }
    } else {
      var ext, sh, b := UnlockedMirrorCanTear(c);
      TornIsNotInStore(c, Sector(sh.mirror, c.k));
      assert Completes(c, ext);
    }
  }

  lemma TornIsNotInStore(c: Cast, sector: seq<byte>)
    requires c.Valid() && !c.from.sh.store.locks[c.k]
    requires Exec(c.keys, c.from.sh.store, TornWrite(c), Fine).reply == TornEvent(c).reply
    requires sector != Sector(c.from.sh.store.bytes, c.k)
    requires sector != Sector(Exec(c.keys, c.from.sh.store, TornWrite(c), Fine).store.bytes, c.k)
    ensures !WasInStore(c.keys, c.from.sh.store, [TornEvent(c)], sector, c.k)
  {
    var log := [TornEvent(c)];
    forall i | 0 <= i <= |log|
      ensures SectorAfter(c.keys, c.from.sh.store, log[..i], c.k) != Some(sector)
    {
      if i == 0 {
        assert log[..0] == [];
      } else {
        ReplayOne(c.keys, c.from.sh.store, [], TornEvent(c));
        assert log[..1] == [] + log;
      }
    }
  }
}
