/** The multi-reader delivery protocol of 012_multi_reader_wait/driver.c: a writer hands one
    message to `total` reads; reads wait for it on a queue. */
module MultiReader {
  import opened Kernel

  const BUFFER_SIZE: nat := 256
  const TOTAL_READERS: nat := 2

  /** The module's globals. */
  datatype Dev = Dev(data: seq<byte>, ready: bool, readers: nat) {
    /** The buffer always ends in a NUL byte. */
    predicate Valid() {
      |data| == BUFFER_SIZE && data[BUFFER_SIZE - 1] == 0
    }
  }

  const FRESH_DEV := Dev(Zeros(BUFFER_SIZE), false, 0)

  /** strlen. */
  function StrLen(s: seq<byte>): (n: nat)
    requires 0 in s
    ensures n < |s| && s[n] == 0 && forall i :: 0 <= i < n ==> s[i] != 0
  {
    if s[0] == 0 then 0 else 1 + StrLen(s[1..])
  }

  /** The string in the buffer, which is what a read delivers. */
  function Text(d: Dev): seq<byte>
    requires d.Valid()
  {
    assert d.data[BUFFER_SIZE - 1] in d.data;
    d.data[..StrLen(d.data)]
  }

  /** What a write of `data` asks the readers to be given: at most 255 bytes, and no more than
      up to the first NUL. */
  function Message(data: seq<byte>): (m: seq<byte>)
    ensures |m| <= 255 && m <= data && 0 !in m
    ensures |m| < Min(|data|, 255) ==> data[|m|] == 0
  {
    var taken := data[..Min(|data|, 255)];
    if 0 in taken then taken[..StrLen(taken)] else taken
  }

  datatype Result = Result(dev: Dev, ret: int, out: seq<byte>)

  /** my_read after its wait has succeeded. */
  function ReadBody(d: Dev, total: nat, fault: bool): (r: Result)
    requires d.Valid()
    ensures r.dev.Valid() && r.dev.data == d.data
  {
    var text := Text(d);
    if fault then Result(d, -EFAULT, [])
    else
      var readers := d.readers + 1;
      Result(if readers >= total then d.(readers := 0, ready := false) else d.(readers := readers), |text|, text)
  }

  /** my_write; `fault` says that the copy faults and what it leaves behind. */
  function WriteBody(d: Dev, data: seq<byte>, fault: Option<seq<byte>>): (r: Result)
    requires d.Valid()
    ensures r.dev.Valid()
  {
    var n := Min(|data|, 255);
    match fault
    case Some(junk) => Result(d.(data := Scribble(d.data, 0, n, junk)), -EFAULT, [])
    case None => Result(Dev(Overlay(d.data, 0, data[..n] + [0]), true, 0), n, [])
  }

  lemma StrLenIs(s: seq<byte>, n: nat)
    requires n < |s| && s[n] == 0 && forall i :: 0 <= i < n ==> s[i] != 0
    ensures 0 in s && StrLen(s) == n
  {
  }

  /** What a write does to the buffer: the bytes taken and a NUL, or, when it faults, anything in
      the requested range; the rest stays. */
  lemma WriteMeaning(d: Dev, data: seq<byte>, fault: Option<seq<byte>>)
    requires d.Valid()
    ensures var d', n := WriteBody(d, data, fault).dev, Min(|data|, 255);
            && (fault.None? ==> d'.data[..n] == data[..n] && d'.data[n] == 0)
            && (fault.Some? ==> d'.data[n] == d.data[n])
            && d'.data[n + 1..] == d.data[n + 1..]
  {
  }

  /** After a write the buffer holds the message. */
  lemma WriteStoresMessage(d: Dev, data: seq<byte>)
    requires d.Valid()
    ensures Text(WriteBody(d, data, None).dev) == Message(data)
  {
    var d' := WriteBody(d, data, None).dev;
    var m := Message(data);
    assert d'.data[|m|] == 0;
    assert forall i :: 0 <= i < |m| ==> d'.data[i] == m[i];
    StrLenIs(d'.data, |m|);
    assert d'.data[..|m|] == m;
  }

  // ---- The driver's code ----

  class Driver {
    const data: array<byte>
    const totalReaders: nat
    var dataReady: bool
    var readersCount: nat

    ghost function Snapshot(): Dev
      reads this, data
    {
      Dev(data[..], dataReady, readersCount)
    }

    ghost predicate Valid()
      reads this, data
    {
      Snapshot().Valid()
    }

    constructor ()
      ensures Valid() && fresh(data) && Snapshot() == FRESH_DEV && totalReaders == TOTAL_READERS
    {
      data := new byte[BUFFER_SIZE](i => 0);
      totalReaders := TOTAL_READERS;
      dataReady := false;
      readersCount := 0;
      new;
      assert data[..] == Zeros(BUFFER_SIZE);
    }

    /** A read that nothing interleaves with: its wait ends at once when data is ready, and
        otherwise by a signal or by the timeout. */
    method MyRead(signal: bool, fault: bool) returns (ret: int, out: seq<byte>)
      requires Valid()
      modifies this
      ensures Valid()
      ensures old(dataReady) ==> Result(Snapshot(), ret, out) == ReadBody(old(Snapshot()), totalReaders, fault)
      ensures !old(dataReady) ==>
                ret == (if signal then -ERESTARTSYS else -ETIMEDOUT) && out == [] && Snapshot() == old(Snapshot())
      ensures old(dataReady) && fault ==> ret == -EFAULT && out == [] && Snapshot() == old(Snapshot())
      ensures old(dataReady) && !fault ==>
                && ret == |out| < BUFFER_SIZE && out == data[..ret] && 0 !in out && data[ret] == 0
                && (if old(readersCount) + 1 < totalReaders
                    then dataReady && readersCount == old(readersCount) + 1
                    else !dataReady && readersCount == 0)
      ensures data[..] == old(data[..])
    {
      out := [];
      var wait := if dataReady then 1 else if signal then -ERESTARTSYS else 0;
      if wait < 0 {
        return -ERESTARTSYS, out;
      }
      if wait == 0 {
        return -ETIMEDOUT, out;
      }
      assert data[..][BUFFER_SIZE - 1] == 0;
      var len := 0;
      while data[len] != 0
        invariant 0 <= len < data.Length && forall i :: 0 <= i < len ==> data[i] != 0
        decreases data.Length - len
      {
        len := len + 1;
      }
      StrLenIs(data[..], len);
      if fault {
        return -EFAULT, out;
      }
      out := data[..][..len];
      readersCount := readersCount + 1;
      if readersCount >= totalReaders {
        readersCount := 0;
        dataReady := false;
      }
      return len, out;
    }

    method MyWrite(buf: seq<byte>, fault: Option<seq<byte>>) returns (ret: int)
      requires Valid()
      modifies this, data
      ensures Valid()
      ensures Result(Snapshot(), ret, []) == WriteBody(old(Snapshot()), buf, fault)
      ensures fault.None? ==> ret == Min(|buf|, 255) && dataReady && readersCount == 0
      ensures fault.Some? ==> ret == -EFAULT && dataReady == old(dataReady) && readersCount == old(readersCount)
    {
      var len := |buf|;
      if len > 255 {
        len := 255;
      }
      assert data[..][BUFFER_SIZE - 1] == 0;
      match fault {
        case Some(junk) =>
          Put(data, 0, if |junk| <= len then junk else junk[..len]);
          ret := -EFAULT;
        case None =>
          Put(data, 0, buf[..len]);
          data[len] := 0;
          assert data[..] == Overlay(old(data[..]), 0, buf[..len] + [0]);
          dataReady := true;
          readersCount := 0;
          ret := len;
      }
    }
  }

  // ---- Reader threads: the wait and what follows it are separate steps ----

  datatype Reader = Idle | Waiting | Woken

  /** The device, its reader threads, and two history variables that no step looks at: how
      many reads succeeded since the last write, and the message of that write (None before
      the first write and after one that faulted). */
  datatype Sys = Sys(dev: Dev, th: seq<Reader>, served: nat, message: Option<seq<byte>>)

  datatype Action =
    | Enter(t: nat)
    | Wake(t: nat)                  // the wait ends because data is ready
    | GiveUp(t: nat)                // it ends by a signal or the timeout
    | Finish(t: nat, fault: bool)   // the rest of the read
    | Write(data: seq<byte>, writeFault: Option<seq<byte>>)

  function Step(s: Sys, total: nat, a: Action): (r: Option<Sys>)
    requires s.dev.Valid()
    ensures r.Some? ==> r.value.dev.Valid() && |r.value.th| == |s.th|
  {
    match a
    case Enter(t) =>
      if t < |s.th| && s.th[t].Idle? then Some(s.(th := s.th[t := Waiting])) else None
    case Wake(t) =>
      if t < |s.th| && s.th[t].Waiting? && s.dev.ready then Some(s.(th := s.th[t := Woken])) else None
    case GiveUp(t) =>
      if t < |s.th| && s.th[t].Waiting? then Some(s.(th := s.th[t := Idle])) else None
    case Finish(t, fault) =>
      if t < |s.th| && s.th[t].Woken?
      then
        var r := ReadBody(s.dev, total, fault);
        Some(Sys(r.dev, s.th[t := Idle], if fault then s.served else s.served + 1, s.message))
      else None
    case Write(data, fault) =>
      var r := WriteBody(s.dev, data, fault);
      Some(if fault.Some? then s.(dev := r.dev, message := None)
           else Sys(r.dev, s.th, 0, Some(Message(data))))
  }

  function Run(s: Sys, total: nat, sched: seq<Action>): (r: Option<Sys>)
    requires s.dev.Valid()
    ensures r.Some? ==> r.value.dev.Valid() && |r.value.th| == |s.th|
  {
    if sched == [] then Some(s)
    else
      match Run(s, total, sched[..|sched| - 1])
      case None => None
      case Some(s') => Step(s', total, sched[|sched| - 1])
  }

  function Init(threads: nat): Sys {
    Sys(FRESH_DEV, seq(threads, i => Idle), 0, None)
  }

  function WokenCount(th: seq<Reader>): (n: nat)
    ensures n <= |th|
  {
    if th == [] then 0 else WokenCount(th[..|th| - 1]) + if th[|th| - 1].Woken? then 1 else 0
  }

  lemma {:induction false} WokenUpdate(th: seq<Reader>, t: nat, r: Reader)
    requires t < |th|
    ensures WokenCount(th[t := r])
            == WokenCount(th) - (if th[t].Woken? then 1 else 0) + (if r.Woken? then 1 else 0)
  {
    var last := |th| - 1;
    if t < last {
      WokenUpdate(th[..last], t, r);
      assert th[t := r][..last] == th[..last][t := r];
    } else {
      assert th[t := r][..last] == th[..last];
    }
  }

  /** The invariant of the protocol. */
  ghost predicate Inv(s: Sys, total: nat)
    requires total >= 1
  {
    && s.dev.Valid()
    && s.dev.readers < total
    && s.dev.readers == s.served % total
    && (s.dev.ready ==> s.served == s.dev.readers)
    && (!s.dev.ready ==> s.served + WokenCount(s.th) <= total + Max(|s.th|, 1) - 1)
    && (s.message.Some? ==> Text(s.dev) == s.message.value)
  }

  lemma NextRemainder(n: nat, total: nat)
    requires total >= 1
    ensures (n + 1) % total == if n % total + 1 >= total then 0 else n % total + 1
  {
    var q, r := n / total, n % total;
    assert n == q * total + r;
    if r + 1 == total {
      assert n + 1 == (q + 1) * total;
      DivMod(n + 1, total, q + 1, 0);
    } else {
      DivMod(n + 1, total, q, r + 1);
    }
  }

  lemma DivMod(n: nat, d: nat, q: nat, r: nat)
    requires d >= 1 && r < d && n == q * d + r
    ensures n % d == r
  {
    var q', r' := n / d, n % d;
    assert (q - q') * d == r' - r;
    if q > q' {
      AtLeast(q - q', d);
    } else if q < q' {
      assert (q' - q) * d == r - r';
      AtLeast(q' - q, d);
    }
  }

  lemma AtLeast(k: int, d: int)
    requires k >= 1 && d >= 0
    ensures k * d >= d
  {
    assert k * d == d + (k - 1) * d;
  }

  lemma FinishInv(s: Sys, total: nat, t: nat, fault: bool)
    requires total >= 1 && Inv(s, total) && t < |s.th| && s.th[t].Woken?
    ensures Inv(Step(s, total, Finish(t, fault)).value, total)
  {
    var s' := Step(s, total, Finish(t, fault)).value;
    assert Text(s'.dev) == Text(s.dev);
    WokenUpdate(s.th, t, Idle);
    if !fault {
      NextRemainder(s.served, total);
    }
  }

  lemma WriteInv(s: Sys, total: nat, data: seq<byte>, fault: Option<seq<byte>>)
    requires total >= 1 && Inv(s, total)
    ensures Inv(Step(s, total, Write(data, fault)).value, total)
  {
    if fault.None? {
      WriteStoresMessage(s.dev, data);
      assert 0 % total == 0;
    }
  }

  lemma StepInv(s: Sys, total: nat, a: Action)
    requires total >= 1 && Inv(s, total) && Step(s, total, a).Some?
    ensures Inv(Step(s, total, a).value, total)
  {
    match a
    case Enter(t) => WokenUpdate(s.th, t, Waiting);
    case Wake(t) => WokenUpdate(s.th, t, Woken);
    case GiveUp(t) => WokenUpdate(s.th, t, Idle);
    case Finish(t, fault) => FinishInv(s, total, t, fault);
    case Write(data, fault) => WriteInv(s, total, data, fault);
  }

  lemma {:induction false} RunInv(threads: nat, total: nat, sched: seq<Action>)
    requires total >= 1 && Run(Init(threads), total, sched).Some?
    ensures Inv(Run(Init(threads), total, sched).value, total)
  {
    if sched == [] {
      var s := Init(threads);
      NoneWoken(s.th);
    } else {
      var before := sched[..|sched| - 1];
      RunInv(threads, total, before);
      StepInv(Run(Init(threads), total, before).value, total, sched[|sched| - 1]);
    }
  }

  lemma {:induction false} NoneWoken(th: seq<Reader>)
    requires forall t :: 0 <= t < |th| ==> !th[t].Woken?
    ensures WokenCount(th) == 0
  {
    if th != [] {
      NoneWoken(th[..|th| - 1]);
    }
  }

  /** Delivery bound. In every state that R reader threads can reach, the count stays below
      the total, and at most total + R - 1 reads have succeeded since the last write. */
  lemma DeliveryBound(threads: nat, total: nat, sched: seq<Action>)
    requires total >= 1 && threads >= 1 && Run(Init(threads), total, sched).Some?
    ensures var s := Run(Init(threads), total, sched).value;
            && s.dev.readers < total
            && s.served <= total + threads - 1
            && (s.dev.ready ==> s.served < total)
  {
    RunInv(threads, total, sched);
  }

  /** The read that a woken thread finishes without a fault delivers the message of the last
      write and returns its length, unless a write has faulted since; one that faults delivers
      nothing, does not count and returns -EFAULT. */
  lemma ReadsDeliverLastMessage(threads: nat, total: nat, sched: seq<Action>)
    requires total >= 1 && Run(Init(threads), total, sched).Some?
    ensures var s := Run(Init(threads), total, sched).value;
            && (s.message.Some? ==>
                  var read := ReadBody(s.dev, total, false);
                  && Text(s.dev) == read.out == s.message.value && read.ret == |s.message.value|)
            && ReadBody(s.dev, total, true) == Result(s.dev, -EFAULT, [])
  {
    RunInv(threads, total, sched);
  }

  // ---- The bound is attained ----

  /** `sched` runs from `threads` idle readers to `s`. */
  ghost predicate Reaches(threads: nat, total: nat, sched: seq<Action>, s: Sys) {
    Run(Init(threads), total, sched) == Some(s)
  }

  lemma Then(threads: nat, total: nat, sched: seq<Action>, s: Sys, a: Action) returns (sched': seq<Action>, s': Sys)
    requires Reaches(threads, total, sched, s) && s.dev.Valid() && Step(s, total, a).Some?
    ensures s' == Step(s, total, a).value && Reaches(threads, total, sched', s')
  {
    sched' := sched + [a];
    assert sched'[..|sched|] == sched;
    s' := Step(s, total, a).value;
  }

  /** The first `k` readers are in state `a`, the others in state `b`. */
  function Split(threads: nat, k: nat, a: Reader, b: Reader): seq<Reader> {
    seq(threads, i => if i < k then a else b)
  }

  lemma {:induction false} AllEnter(threads: nat, total: nat, k: nat) returns (sched: seq<Action>, s: Sys)
    requires k <= threads
    ensures Reaches(threads, total, sched, s) && s == Init(threads).(th := Split(threads, k, Waiting, Idle))
  {
    if k == 0 {
      sched, s := [], Init(threads);
      assert s.th == Split(threads, 0, Waiting, Idle);
    } else {
      sched, s := AllEnter(threads, total, k - 1);
      sched, s := Then(threads, total, sched, s, Enter(k - 1));
      assert s.th == Split(threads, k, Waiting, Idle);
    }
  }

  /** A message is written and the first `k` readers wake up. */
  lemma {:induction false} AllWake(threads: nat, total: nat, k: nat) returns (sched: seq<Action>, s: Sys)
    requires k <= threads
    ensures Reaches(threads, total, sched, s) && s.dev.Valid()
    ensures s.th == Split(threads, k, Woken, Waiting)
    ensures s.dev.ready && s.dev.readers == 0 && s.served == 0 && s.message == Some([])
  {
    if k == 0 {
      sched, s := AllEnter(threads, total, threads);
      sched, s := Then(threads, total, sched, s, Write([], None));
      assert s.th == Split(threads, 0, Woken, Waiting);
    } else {
      sched, s := AllWake(threads, total, k - 1);
      sched, s := Then(threads, total, sched, s, Wake(k - 1));
      assert s.th == Split(threads, k, Woken, Waiting);
    }
  }

  /** Reader 0 alone completes `k` reads, coming back for each; the others stay woken. */
  lemma {:induction false} OneReaderRepeats(threads: nat, total: nat, k: nat) returns (sched: seq<Action>, s: Sys)
    requires threads >= 1 && 1 <= k <= total
    ensures Reaches(threads, total, sched, s) && s.dev.Valid()
    ensures s.th == Split(threads, 1, Idle, Woken) && s.served == k
    ensures s.dev.ready == (k < total) && s.dev.readers == if k < total then k else 0
  {
    if k == 1 {
      sched, s := AllWake(threads, total, threads);
    } else {
      sched, s := OneReaderRepeats(threads, total, k - 1);
      sched, s := Then(threads, total, sched, s, Enter(0));
      sched, s := Then(threads, total, sched, s, Wake(0));
    }
    assert s.th == Split(threads, threads, Woken, Waiting);
    sched, s := Then(threads, total, sched, s, Finish(0, false));
    assert s.th == Split(threads, 1, Idle, Woken);
  }

  /** Then the others, woken while there was data, complete theirs. */
  lemma {:induction false} LateReaders(threads: nat, total: nat, k: nat) returns (sched: seq<Action>, s: Sys)
    requires total >= 1 && 1 <= k <= threads
    ensures Reaches(threads, total, sched, s) && s.dev.Valid()
    ensures s.th == Split(threads, k, Idle, Woken) && s.served == total + k - 1 && !s.dev.ready
  {
    if k == 1 {
      sched, s := OneReaderRepeats(threads, total, total);
    } else {
      sched, s := LateReaders(threads, total, k - 1);
      sched, s := Then(threads, total, sched, s, Finish(k - 1, false));
      assert s.th == Split(threads, k, Idle, Woken);
    }
  }

  /** The delivery bound is exact: for every total and number of readers there is a run in
      which total + R - 1 reads succeed after one write. */
  lemma BoundIsAttained(threads: nat, total: nat) returns (sched: seq<Action>)
    requires total >= 1 && threads >= 1
    ensures var s := Run(Init(threads), total, sched);
            s.Some? && s.value.served == total + threads - 1
  {
    var s;
    sched, s := LateReaders(threads, total, threads);
  }

  // ---- What the count is without data ----

  /** In every reachable state, the count is zero whenever there is no data. */
  ghost predicate CountIsZeroWithoutData(threads: nat, total: nat) {
    forall sched :: Run(Init(threads), total, sched).Some? ==>
      var s := Run(Init(threads), total, sched).value;
      !s.dev.ready ==> s.dev.readers == 0
  }

  /** A single reader is never late: while it is woken there is data. */
  lemma {:induction false} LoneReader(threads: nat, total: nat, sched: seq<Action>)
    requires threads <= 1 && Run(Init(threads), total, sched).Some?
    ensures var s := Run(Init(threads), total, sched).value;
            && (!s.dev.ready ==> s.dev.readers == 0)
            && forall t :: 0 <= t < |s.th| && s.th[t].Woken? ==> s.dev.ready
  {
    if sched != [] {
      LoneReader(threads, total, sched[..|sched| - 1]);
    }
  }

  /** With at least two readers and a total of at least two, a late read leaves the count at
      one although there is no data. */
  lemma CountMayLinger(threads: nat, total: nat) returns (sched: seq<Action>)
    requires threads >= 2 && total >= 2
    ensures var s := Run(Init(threads), total, sched);
            s.Some? && !s.value.dev.ready && s.value.dev.readers == 1
  {
    var s;
    sched, s := LateReaders(threads, total, 2);
    RunInv(threads, total, sched);
    NextRemainder(total, total);
  }

  /** `data_ready == 0` implies `readers_count == 0` in all reachable states exactly when there
      is at most one reader thread or a single read uses up a message. */
  lemma CountWhenNotReady(threads: nat, total: nat)
    requires total >= 1
    ensures CountIsZeroWithoutData(threads, total) <==> threads <= 1 || total == 1
  {
    if threads <= 1 || total == 1 {
      forall sched | Run(Init(threads), total, sched).Some?
        ensures var s := Run(Init(threads), total, sched).value;
                !s.dev.ready ==> s.dev.readers == 0
      {
        RunInv(threads, total, sched);
        if threads <= 1 {
          LoneReader(threads, total, sched);
        }
      }
    } else {
      var sched := CountMayLinger(threads, total);
    }
  }

  // ---- Reads as one atomic step ----

  /** A call that runs from its entry to its end without interleaving. */
  datatype Call =
    | ReadCall(t: nat, fault: bool)
    | LateCall(t: nat)
    | WriteCall(data: seq<byte>, writeFault: Option<seq<byte>>)

  function Actions(call: Call): seq<Action> {
    match call
    case ReadCall(t, fault) => [Enter(t), Wake(t), Finish(t, fault)]
    case LateCall(t) => [Enter(t), GiveUp(t)]
    case WriteCall(data, fault) => [Write(data, fault)]
  }

  /** The schedule that serves the calls one after the other. */
  function OneByOne(calls: seq<Call>): seq<Action> {
    if calls == [] then [] else OneByOne(calls[..|calls| - 1]) + Actions(calls[|calls| - 1])
  }

  /** Between two uninterleaved calls. */
  ghost predicate Quiet(s: Sys, total: nat) {
    && s.served <= total
    && (!s.dev.ready ==> s.dev.readers == 0)
    && forall t :: 0 <= t < |s.th| ==> s.th[t] == Idle
  }

  /** One whole read. */
  lemma AtomicRead(s: Sys, total: nat, t: nat, fault: bool, s1: Sys, s2: Sys, s3: Sys)
    requires total >= 1 && Inv(s, total) && Quiet(s, total)
    requires Step(s, total, Enter(t)) == Some(s1) && s1.dev.Valid()
    requires Step(s1, total, Wake(t)) == Some(s2) && s2.dev.Valid()
    requires Step(s2, total, Finish(t, fault)) == Some(s3)
    ensures Quiet(s3, total)
  {
  }

  lemma RunEnds(threads: nat, total: nat, sched: seq<Action>) returns (before: Sys)
    requires sched != [] && Run(Init(threads), total, sched).Some?
    ensures Run(Init(threads), total, sched[..|sched| - 1]) == Some(before) && before.dev.Valid()
    ensures Step(before, total, sched[|sched| - 1]) == Run(Init(threads), total, sched)
  {
    before := Run(Init(threads), total, sched[..|sched| - 1]).value;
  }

  lemma AfterAtomicRead(threads: nat, total: nat, sched: seq<Action>, t: nat, fault: bool)
    requires total >= 1 && Run(Init(threads), total, sched + [Enter(t), Wake(t), Finish(t, fault)]).Some?
    requires Run(Init(threads), total, sched).Some? ==> Quiet(Run(Init(threads), total, sched).value, total)
    ensures Quiet(Run(Init(threads), total, sched + [Enter(t), Wake(t), Finish(t, fault)]).value, total)
  {
    var all := sched + [Enter(t), Wake(t), Finish(t, fault)];
    var s2 := RunEnds(threads, total, all);
    assert all[..|all| - 1] == sched + [Enter(t), Wake(t)];
    var s1 := RunEnds(threads, total, sched + [Enter(t), Wake(t)]);
    assert (sched + [Enter(t), Wake(t)])[..|sched| + 1] == sched + [Enter(t)];
    var s := RunEnds(threads, total, sched + [Enter(t)]);
    assert (sched + [Enter(t)])[..|sched|] == sched;
    RunInv(threads, total, sched);
    AtomicRead(s, total, t, fault, s1, s2, Run(Init(threads), total, all).value);
  }

  lemma AfterGivingUp(threads: nat, total: nat, sched: seq<Action>, t: nat)
    requires total >= 1 && Run(Init(threads), total, sched + [Enter(t), GiveUp(t)]).Some?
    requires Run(Init(threads), total, sched).Some? ==> Quiet(Run(Init(threads), total, sched).value, total)
    ensures Quiet(Run(Init(threads), total, sched + [Enter(t), GiveUp(t)]).value, total)
  {
    var s1 := RunEnds(threads, total, sched + [Enter(t), GiveUp(t)]);
    assert (sched + [Enter(t), GiveUp(t)])[..|sched| + 1] == sched + [Enter(t)];
    var s := RunEnds(threads, total, sched + [Enter(t)]);
    assert (sched + [Enter(t)])[..|sched|] == sched;
  }

  lemma {:induction false} RunOfPrefix(threads: nat, total: nat, sched: seq<Action>, k: nat)
    requires k <= |sched| && Run(Init(threads), total, sched).Some?
    ensures Run(Init(threads), total, sched[..k]).Some?
  {
    if k < |sched| {
      RunOfPrefix(threads, total, sched[..|sched| - 1], k);
      assert sched[..|sched| - 1][..k] == sched[..k];
    } else {
      assert sched[..k] == sched;
    }
  }

  lemma AfterCall(threads: nat, total: nat, sched: seq<Action>, call: Call)
    requires total >= 1 && Run(Init(threads), total, sched + Actions(call)).Some?
    requires Run(Init(threads), total, sched).Some? ==> Quiet(Run(Init(threads), total, sched).value, total)
    ensures Quiet(Run(Init(threads), total, sched + Actions(call)).value, total)
  {
    match call
    case ReadCall(t, fault) => AfterAtomicRead(threads, total, sched, t, fault);
    case LateCall(t) => AfterGivingUp(threads, total, sched, t);
    case WriteCall(data, fault) =>
      var s := RunEnds(threads, total, sched + [Write(data, fault)]);
      assert (sched + [Write(data, fault)])[..|sched|] == sched;
  }

  /** When every read runs from its entry to its end without interleaving, no more than
      `total` reads succeed per write, and without data the count is zero. */
  lemma {:induction false} AtomicDeliveryBound(threads: nat, total: nat, calls: seq<Call>)
    requires total >= 1 && Run(Init(threads), total, OneByOne(calls)).Some?
    ensures var s := Run(Init(threads), total, OneByOne(calls)).value;
            && s.served <= total
            && (!s.dev.ready ==> s.dev.readers == 0)
            && forall t :: 0 <= t < |s.th| ==> s.th[t] == Idle
  {
    if calls != [] {
      var before, call := OneByOne(calls[..|calls| - 1]), calls[|calls| - 1];
      RunOfPrefix(threads, total, before + Actions(call), |before|);
      assert (before + Actions(call))[..|before|] == before;
      AtomicDeliveryBound(threads, total, calls[..|calls| - 1]);
      AfterCall(threads, total, before, call);
    }
  }
}
