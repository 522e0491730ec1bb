/** Loading and unloading 010_multi_char_driver/driver.c: staged acquisition of resources for
    any number of devices, rollback from every point of failure, and the exit path.
    Registration with the kernel is an acquire event that may fail and a release event. */
module DeviceInit {
  import opened Kernel

  datatype Resource =
    | Region                 // the range of device numbers
    | DeviceClass
    | Memory                 // the array of devices
    | Cdev(i: nat)
    | Node(i: nat)           // the device made by device_create
    | DataAttr(i: nat)
    | StatsAttr(i: nat)
    | ResetAttr(i: nat)

  /** The device a resource belongs to, or -1. */
  function Owner(r: Resource): int {
    match r
    case Region => -1
    case DeviceClass => -1
    case Memory => -1
    case Cdev(i) => i
    case Node(i) => i
    case DataAttr(i) => i
    case StatsAttr(i) => i
    case ResetAttr(i) => i
  }

  /** What must be held as long as a resource is: attributes sit on their device, a device in
      its class, a cdev lives in the allocated array and uses the number range. */
  function Needs(r: Resource): set<Resource> {
    match r
    case Region => {}
    case DeviceClass => {}
    case Memory => {}
    case Cdev(_) => {Region, Memory}
    case Node(i) => {DeviceClass, Region, Cdev(i)}
    case DataAttr(i) => {Node(i), Memory}
    case StatsAttr(i) => {Node(i), Memory}
    case ResetAttr(i) => {Node(i), Memory}
  }

  datatype Event = Acquired(r: Resource) | Released(r: Resource)

  /** The resource acquired `j`th for device `i`. */
  function Slot(i: nat, j: nat): Resource
    requires j < 5
  {
    match j
    case 0 => Cdev(i)
    case 1 => Node(i)
    case 2 => DataAttr(i)
    case 3 => StatsAttr(i)
    case _ => ResetAttr(i)
  }

  function DeviceResources(i: nat): (o: seq<Resource>)
    ensures |o| == 5
  {
    seq(5, j requires 0 <= j < 5 => Slot(i, j))
  }

  /** Everything a load for `n` devices acquires, in order. */
  function AcquireOrder(n: nat): seq<Resource> {
    if n == 0 then [Region, DeviceClass, Memory] else AcquireOrder(n - 1) + DeviceResources(n - 1)
  }

  /** The order, spelled out: the shared resources, and then device by device the cdev, the
      device and its data, stats and reset attributes. */
  lemma {:induction false} AcquireOrderIs(n: nat)
    ensures var o := AcquireOrder(n);
            && |o| == 3 + 5 * n && o[0] == Region && o[1] == DeviceClass && o[2] == Memory
            && forall i: nat :: i < n ==>
                 && o[3 + 5 * i] == Cdev(i) && o[4 + 5 * i] == Node(i) && o[5 + 5 * i] == DataAttr(i)
                 && o[6 + 5 * i] == StatsAttr(i) && o[7 + 5 * i] == ResetAttr(i)
  {
    if n > 0 {
      AcquireOrderIs(n - 1);
    }
  }

  lemma {:induction false} AcquireOrderMembers(n: nat)
    ensures forall r :: r in AcquireOrder(n) <==> Owner(r) < n
  {
    if n > 0 {
      AcquireOrderMembers(n - 1);
      forall r | Owner(r) == n - 1
        ensures r in DeviceResources(n - 1)
      {
        var j := match r case Cdev(_) => 0 case Node(_) => 1 case DataAttr(_) => 2 case StatsAttr(_) => 3 case _ => 4;
        assert DeviceResources(n - 1)[j] == r;
      }
    }
  }

  function Acquiring(rs: seq<Resource>): (t: seq<Event>)
    ensures |t| == |rs|
  {
    seq(|rs|, i requires 0 <= i < |rs| => Acquired(rs[i]))
  }

  /** Releasing `rs` in reverse. */
  function Undoing(rs: seq<Resource>): (t: seq<Event>)
    ensures |t| == |rs|
  {
    seq(|rs|, i requires 0 <= i < |rs| => Released(rs[|rs| - 1 - i]))
  }

  ghost predicate StillNeeded(r: Resource, held: set<Resource>) {
    exists q :: q in held && r in Needs(q)
  }

  ghost function Next(held: set<Resource>, e: Event): Option<set<Resource>> {
    match e
    case Acquired(r) => if r !in held && Needs(r) <= held then Some(held + {r}) else None
    case Released(r) => if r in held && !StillNeeded(r, held) then Some(held - {r}) else None
  }

  /** What is held after a trace: None as soon as a step acquires something already held or
      before what it needs, or releases something not held or still needed. */
  ghost function HeldAfter(trace: seq<Event>): Option<set<Resource>> {
    if trace == [] then Some({})
    else
      match HeldAfter(trace[..|trace| - 1])
      case None => None
      case Some(held) => Next(held, trace[|trace| - 1])
  }

  function Elements(rs: seq<Resource>): set<Resource> {
    set r | r in rs
  }

  lemma HeldAfterOne(trace: seq<Event>, held: set<Resource>, e: Event)
    requires HeldAfter(trace) == Some(held)
    ensures HeldAfter(trace + [e]) == Next(held, e)
  {
    assert (trace + [e])[..|trace|] == trace;
  }

  /** Each resource is new and comes after everything it needs. */
  ghost predicate WellOrdered(rs: seq<Resource>) {
    rs != [] ==>
      var before, r := rs[..|rs| - 1], rs[|rs| - 1];
      WellOrdered(before) && r !in before && forall q :: q in Needs(r) ==> q in before
  }

  lemma {:induction false} PrefixIsWellOrdered(rs: seq<Resource>, k: nat)
    requires WellOrdered(rs) && k <= |rs|
    ensures WellOrdered(rs[..k])
  {
    if k < |rs| {
      PrefixIsWellOrdered(rs[..|rs| - 1], k);
      assert rs[..|rs| - 1][..k] == rs[..k];
    } else {
      assert rs[..k] == rs;
    }
  }

  lemma AppendWellOrdered(rs: seq<Resource>, r: Resource)
    requires WellOrdered(rs) && r !in rs && forall q :: q in Needs(r) ==> q in rs
    ensures WellOrdered(rs + [r])
  {
    assert (rs + [r])[..|rs|] == rs;
  }

  lemma AppendCdevAndNode(o: seq<Resource>, i: nat)
    requires WellOrdered(o) && Region in o && DeviceClass in o && Memory in o
    requires Cdev(i) !in o && Node(i) !in o
    ensures WellOrdered(o + [Cdev(i)] + [Node(i)])
  {
    AppendWellOrdered(o, Cdev(i));
    AppendWellOrdered(o + [Cdev(i)], Node(i));
  }

  lemma AppendDevice(o: seq<Resource>, i: nat)
    requires WellOrdered(o) && Region in o && DeviceClass in o && Memory in o
    requires forall r :: r in o ==> Owner(r) < i
    ensures WellOrdered(o + DeviceResources(i))
  {
    AppendCdevAndNode(o, i);
    AppendAttributes(o + [Cdev(i)] + [Node(i)], i);
    assert o + DeviceResources(i)
           == o + [Cdev(i)] + [Node(i)] + [DataAttr(i)] + [StatsAttr(i)] + [ResetAttr(i)];
  }

  lemma AppendAttributes(o: seq<Resource>, i: nat)
    requires WellOrdered(o) && Node(i) in o && Memory in o
    requires DataAttr(i) !in o && StatsAttr(i) !in o && ResetAttr(i) !in o
    ensures WellOrdered(o + [DataAttr(i)] + [StatsAttr(i)] + [ResetAttr(i)])
  {
    AppendWellOrdered(o, DataAttr(i));
    AppendWellOrdered(o + [DataAttr(i)], StatsAttr(i));
    AppendWellOrdered(o + [DataAttr(i)] + [StatsAttr(i)], ResetAttr(i));
  }

  lemma GlobalsAreWellOrdered()
    ensures WellOrdered([Region, DeviceClass, Memory])
  {
    AppendWellOrdered([], Region);
    AppendWellOrdered([] + [Region], DeviceClass);
    AppendWellOrdered([] + [Region] + [DeviceClass], Memory);
    assert [Region, DeviceClass, Memory] == [] + [Region] + [DeviceClass] + [Memory];
  }

  lemma {:induction false} AcquireOrderIsWellOrdered(n: nat)
    ensures WellOrdered(AcquireOrder(n))
  {
    if n == 0 {
      GlobalsAreWellOrdered();
    } else {
      AcquireOrderIsWellOrdered(n - 1);
      AcquireOrderMembers(n - 1);
      AppendDevice(AcquireOrder(n - 1), n - 1);
    }
  }

  lemma {:induction false} AcquiringHoldsAll(rs: seq<Resource>)
    requires WellOrdered(rs)
    ensures HeldAfter(Acquiring(rs)) == Some(Elements(rs))
  {
    if rs == [] {
      assert Elements(rs) == {};
    } else {
      var before, r := rs[..|rs| - 1], rs[|rs| - 1];
      AcquiringHoldsAll(before);
      assert Acquiring(rs) == Acquiring(before) + [Acquired(r)];
      HeldAfterOne(Acquiring(before), Elements(before), Acquired(r));
      assert Elements(rs) == Elements(before) + {r};
    }
  }

  lemma {:induction false} NeedsStayInside(rs: seq<Resource>, q: Resource, p: Resource)
    requires WellOrdered(rs) && q in rs && p in Needs(q)
    ensures p in rs
  {
    if q != rs[|rs| - 1] {
      NeedsStayInside(rs[..|rs| - 1], q, p);
    }
  }

  lemma {:induction false} UndoingReleasesAll(trace: seq<Event>, rs: seq<Resource>)
    requires WellOrdered(rs) && HeldAfter(trace) == Some(Elements(rs))
    ensures HeldAfter(trace + Undoing(rs)) == Some({})
    decreases |rs|
  {
    if rs == [] {
      assert trace + Undoing(rs) == trace && Elements(rs) == {};
    } else {
      var before, r := rs[..|rs| - 1], rs[|rs| - 1];
      if q :| q in Elements(rs) && r in Needs(q) {
        if q in before {
          NeedsStayInside(before, q, r);
        }
        assert false;
      }
      HeldAfterOne(trace, Elements(rs), Released(r));
      assert Elements(rs) - {r} == Elements(before);
      UndoingReleasesAll(trace + [Released(r)], before);
      assert trace + Undoing(rs) == trace + [Released(r)] + Undoing(before);
    }
  }

  /** The trace of a load that stops after acquiring the first `k` resources. */
  function Rollback(n: nat, k: nat): seq<Event>
    requires k <= |AcquireOrder(n)|
  {
    Acquiring(AcquireOrder(n)[..k]) + Undoing(AcquireOrder(n)[..k])
  }

  /** Whatever the point of failure, a rolled-back load respects every dependency, releases
      exactly what it holds, and ends with nothing held. */
  lemma RollbackIsClean(n: nat, k: nat)
    requires k <= |AcquireOrder(n)|
    ensures HeldAfter(Rollback(n, k)) == Some({})
  {
    var rs := AcquireOrder(n)[..k];
    AcquireOrderIsWellOrdered(n);
    PrefixIsWellOrdered(AcquireOrder(n), k);
    AcquiringHoldsAll(rs);
    UndoingReleasesAll(Acquiring(rs), rs);
  }

  /** The exit path takes the devices in ascending order. */
  function ExitDevices(n: nat): seq<Event> {
    if n == 0 then [] else ExitDevices(n - 1) + Undoing(DeviceResources(n - 1))
  }

  function ExitTrace(n: nat): seq<Event> {
    ExitDevices(n) + [Released(Memory), Released(DeviceClass), Released(Region)]
  }

  /** What is still held when the first `i` of `n` devices are gone. */
  ghost function HeldFrom(i: nat, n: nat): set<Resource> {
    set r | r in AcquireOrder(n) && (Owner(r) < 0 || Owner(r) >= i)
  }

  lemma ReleaseNext(trace: seq<Event>, held: set<Resource>, r: Resource)
    requires HeldAfter(trace) == Some(held) && r in held && !StillNeeded(r, held)
    ensures HeldAfter(trace + [Released(r)]) == Some(held - {r})
  {
    HeldAfterOne(trace, held, Released(r));
  }

  lemma ExitAttributes(trace: seq<Event>, held: set<Resource>, i: nat)
    requires HeldAfter(trace) == Some(held)
    requires DataAttr(i) in held && StatsAttr(i) in held && ResetAttr(i) in held
    ensures HeldAfter(trace + [Released(ResetAttr(i)), Released(StatsAttr(i)), Released(DataAttr(i))])
            == Some(held - {ResetAttr(i), StatsAttr(i), DataAttr(i)})
  {
    var t1 := trace + [Released(ResetAttr(i))];
    ReleaseNext(trace, held, ResetAttr(i));
    var t2 := t1 + [Released(StatsAttr(i))];
    ReleaseNext(t1, held - {ResetAttr(i)}, StatsAttr(i));
    ReleaseNext(t2, held - {ResetAttr(i)} - {StatsAttr(i)}, DataAttr(i));
    assert trace + [Released(ResetAttr(i)), Released(StatsAttr(i)), Released(DataAttr(i))]
           == t2 + [Released(DataAttr(i))];
    assert held - {ResetAttr(i), StatsAttr(i), DataAttr(i)}
           == held - {ResetAttr(i)} - {StatsAttr(i)} - {DataAttr(i)};
  }

  lemma ExitOneDevice(trace: seq<Event>, i: nat, n: nat)
    requires i < n && HeldAfter(trace) == Some(HeldFrom(i, n))
    ensures HeldAfter(trace + Undoing(DeviceResources(i))) == Some(HeldFrom(i + 1, n))
  {
    var attrs := [Released(ResetAttr(i)), Released(StatsAttr(i)), Released(DataAttr(i))];
    var held := HeldFrom(i, n) - {ResetAttr(i), StatsAttr(i), DataAttr(i)};
    HeldFromStep(i, n);
    ExitAttributes(trace, HeldFrom(i, n), i);
    ReleaseNext(trace + attrs, held, Node(i));
    ReleaseNext(trace + attrs + [Released(Node(i))], held - {Node(i)}, Cdev(i));
    assert trace + Undoing(DeviceResources(i)) == trace + attrs + [Released(Node(i))] + [Released(Cdev(i))];
  }

  lemma HeldFromStep(i: nat, n: nat)
    requires i < n
    ensures var held := HeldFrom(i, n) - {ResetAttr(i), StatsAttr(i), DataAttr(i)};
            && ResetAttr(i) in HeldFrom(i, n) && StatsAttr(i) in HeldFrom(i, n) && DataAttr(i) in HeldFrom(i, n)
            && Node(i) in held && !StillNeeded(Node(i), held)
            && Cdev(i) in held - {Node(i)} && !StillNeeded(Cdev(i), held - {Node(i)})
            && held - {Node(i)} - {Cdev(i)} == HeldFrom(i + 1, n)
  {
    AcquireOrderMembers(n);
  }

  lemma {:induction false} ExitDevicesReleases(trace: seq<Event>, i: nat, n: nat)
    requires i <= n && HeldAfter(trace) == Some(HeldFrom(0, n))
    ensures HeldAfter(trace + ExitDevices(i)) == Some(HeldFrom(i, n))
  {
    if i == 0 {
      assert trace + ExitDevices(0) == trace;
    } else {
      ExitDevicesReleases(trace, i - 1, n);
      var t := trace + ExitDevices(i - 1);
      ExitOneDevice(t, i - 1, n);
      assert trace + ExitDevices(i) == t + Undoing(DeviceResources(i - 1));
    }
  }

  /** A successful load followed by an unload releases everything exactly once and never
      something that is still needed: attributes before their device, the device before the
      class, the cdev before the memory it lives in and the number range. */
  lemma LoadThenUnloadIsClean(n: nat)
    ensures HeldAfter(Acquiring(AcquireOrder(n)) + ExitTrace(n)) == Some({})
  {
    var t := Acquiring(AcquireOrder(n));
    AcquireOrderIsWellOrdered(n);
    AcquiringHoldsAll(AcquireOrder(n));
    AllIsHeld(n);
    ExitDevicesReleases(t, n, n);
    NothingLeft(n);
    ExitRest(t + ExitDevices(n));
    assert t + ExitTrace(n)
           == t + ExitDevices(n) + [Released(Memory), Released(DeviceClass), Released(Region)];
  }

  lemma AllIsHeld(n: nat)
    ensures Elements(AcquireOrder(n)) == HeldFrom(0, n)
  {
  }

  lemma NothingLeft(n: nat)
    ensures HeldFrom(n, n) == {Region, DeviceClass, Memory}
  {
    AcquireOrderMembers(n);
  }

  lemma ExitRest(trace: seq<Event>)
    requires HeldAfter(trace) == Some({Region, DeviceClass, Memory})
    ensures HeldAfter(trace + [Released(Memory), Released(DeviceClass), Released(Region)]) == Some({})
  {
    var t1 := trace + [Released(Memory)];
    ReleaseNext(trace, {Region, DeviceClass, Memory}, Memory);
    assert {Region, DeviceClass, Memory} - {Memory} == {Region, DeviceClass};
    var t2 := t1 + [Released(DeviceClass)];
    ReleaseNext(t1, {Region, DeviceClass}, DeviceClass);
    assert {Region, DeviceClass} - {DeviceClass} == {Region};
    ReleaseNext(t2, {Region}, Region);
    assert {Region} - {Region} == {};
    assert trace + [Released(Memory), Released(DeviceClass), Released(Region)] == t2 + [Released(Region)];
  }

  // ---- The code ----

  /** Acquiring `o[k]` fails, and nothing before it does. */
  predicate FailsFirst(o: seq<Resource>, error: Resource -> int, k: int) {
    0 <= k < |o| && error(o[k]) != 0 && forall j :: 0 <= j < k ==> error(o[j]) == 0
  }

  /** The first `k` resources of `o` are acquired in order and then released in reverse: the
      second half of the trace is the mirror image of the first. */
  predicate MirrorImage(trace: seq<Event>, o: seq<Resource>, k: nat)
    requires k <= |o|
  {
    && |trace| == 2 * k
    && forall j :: 0 <= j < k ==> trace[j] == Acquired(o[j]) && trace[2 * k - 1 - j] == Released(o[j])
  }

  /** Whichever acquisition is the first to fail, `ret` is its error (-12 for the memory, which
      kcalloc reports by a null pointer), and the trace rolls back exactly what came before it. */
  ghost predicate ReportsFailure(o: seq<Resource>, error: Resource -> int, ret: int, trace: seq<Event>) {
    forall k :: FailsFirst(o, error, k) ==>
      ret == (if o[k] == Memory then -12 else error(o[k])) && MirrorImage(trace, o, k)
  }

  lemma RollbackReports(n: nat, error: Resource -> int, ret: int)
    requires var o, k := AcquireOrder(n), FailurePoint(AcquireOrder(n), error);
             k < |o| ==> ret == if o[k] == Memory then -ENOMEM else error(o[k])
    ensures ReportsFailure(AcquireOrder(n), error, ret, Rollback(n, FailurePoint(AcquireOrder(n), error)))
  {
    var o := AcquireOrder(n);
    forall k | FailsFirst(o, error, k)
      ensures k == FailurePoint(o, error) && MirrorImage(Rollback(n, k), o, k)
    {
      FirstFailure(o, error, k);
      RollbackIsMirrorImage(n, k);
    }
  }

  lemma FirstFailure(o: seq<Resource>, error: Resource -> int, k: int)
    requires FailsFirst(o, error, k)
    ensures FailurePoint(o, error) == k
  {
  }

  lemma RollbackIsMirrorImage(n: nat, k: nat)
    requires k <= |AcquireOrder(n)|
    ensures MirrorImage(Rollback(n, k), AcquireOrder(n), k)
  {
  }

  datatype DevPointer = NullPointer | ErrorPointer | DevicePointer

  /** Where the first acquisition fails: the least index whose error code is not 0. */
  function FailurePoint(order: seq<Resource>, error: Resource -> int): (k: nat)
    ensures k <= |order|
    ensures forall i :: 0 <= i < k ==> error(order[i]) == 0
    ensures k < |order| ==> error(order[k]) != 0
  {
    if order == [] then 0
    else
      var k := FailurePoint(order[..|order| - 1], error);
      if k < |order| - 1 then k else if error(order[|order| - 1]) != 0 then k else k + 1
  }

  /** How many of device `i`'s resources are acquired before one fails. */
  function DeviceStage(i: nat, error: Resource -> int): (k: nat)
    ensures k <= 5
  {
    if error(Cdev(i)) != 0 then 0
    else if error(Node(i)) != 0 then 1
    else if error(DataAttr(i)) != 0 then 2
    else if error(StatsAttr(i)) != 0 then 3
    else if error(ResetAttr(i)) != 0 then 4
    else 5
  }

  /** What one pass of the loop does to the trace. */
  function DeviceTrace(i: nat, k: nat): seq<Event>
    requires k <= 5
  {
    var got := DeviceResources(i)[..k];
    if k == 5 then Acquiring(got) else Acquiring(got) + Undoing(got)
  }

  /** How many of device `i`'s attributes are made before one fails. */
  function AttributesStage(i: nat, error: Resource -> int): (k: nat)
    ensures k <= 3
  {
    if error(DataAttr(i)) != 0 then 0
    else if error(StatsAttr(i)) != 0 then 1
    else if error(ResetAttr(i)) != 0 then 2
    else 3
  }

  /** The attributes of device `i`, or the first ones of them made and removed again. */
  function AttributesTrace(i: nat, k: nat): seq<Event>
    requires k <= 3
  {
    var got := DeviceResources(i)[2..2 + k];
    if k == 3 then Acquiring(got) else Acquiring(got) + Undoing(got)
  }

  /** The trace `t` as the attributes extend it, event by event. */
  lemma AttributesPass(t: seq<Event>, i: nat, k: nat)
    requires k <= 3
    ensures t + AttributesTrace(i, k)
            == if k == 0 then t
               else if k == 1 then t + [Acquired(DataAttr(i))] + [Released(DataAttr(i))]
               else
                 var made := t + [Acquired(DataAttr(i))] + [Acquired(StatsAttr(i))];
                 if k == 3 then made + [Acquired(ResetAttr(i))]
                 else made + [Released(StatsAttr(i))] + [Released(DataAttr(i))]
  {
    var got, d, s, r := DeviceResources(i)[2..2 + k], DataAttr(i), StatsAttr(i), ResetAttr(i);
    match k
    case 0 => assert got == [];
    case 1 => assert got == [d];
    case 2 =>
      assert got == [d, s];
      assert Acquiring(got) + Undoing(got) == [Acquired(d), Acquired(s), Released(s), Released(d)];
    case _ =>
      assert got == [d, s, r];
      assert Acquiring(got) == [Acquired(d), Acquired(s), Acquired(r)];
  }

  /** The trace of one pass, with that of the attributes inside it. */
  lemma DeviceRollback(i: nat, k: nat)
    requires 2 <= k <= 5
    ensures DeviceTrace(i, k)
            == [Acquired(Cdev(i)), Acquired(Node(i))] + AttributesTrace(i, k - 2)
               + if k == 5 then [] else [Released(Node(i)), Released(Cdev(i))]
  {
    var first, rest := DeviceResources(i)[..2], DeviceResources(i)[2..k];
    assert DeviceResources(i)[..k] == first + rest;
    AcquiringConcat(first, rest);
    assert Acquiring(first) == [Acquired(Cdev(i)), Acquired(Node(i))];
    assert Undoing(first) == [Released(Node(i)), Released(Cdev(i))];
  }

  lemma SixPieces<T>(t: seq<T>, a: T, b: T, s: seq<T>, c: T, d: T)
    ensures t + ([a, b] + s + []) == t + [a] + [b] + s
    ensures t + ([a, b] + s + [c, d]) == t + [a] + [b] + s + [c] + [d]
  {
  }

  /** The trace `t` as one pass extends it, event by event. */
  lemma DevicePass(t: seq<Event>, i: nat, k: nat)
    requires k <= 5
    ensures t + DeviceTrace(i, k)
            == if k == 0 then t
               else if k == 1 then t + [Acquired(Cdev(i))] + [Released(Cdev(i))]
               else
                 var made := t + [Acquired(Cdev(i))] + [Acquired(Node(i))] + AttributesTrace(i, k - 2);
                 if k == 5 then made else made + [Released(Node(i))] + [Released(Cdev(i))]
  {
    if k == 1 {
      assert DeviceResources(i)[..1] == [Cdev(i)];
    } else if k >= 2 {
      DeviceRollback(i, k);
      SixPieces(t, Acquired(Cdev(i)), Acquired(Node(i)), AttributesTrace(i, k - 2), Released(Node(i)), Released(Cdev(i)));
    }
  }

  lemma {:induction false} AcquireOrderPrefix(i: nat, n: nat)
    requires i <= n
    ensures |AcquireOrder(i)| == 3 + 5 * i <= |AcquireOrder(n)|
    ensures AcquireOrder(i) == AcquireOrder(n)[..3 + 5 * i]
    decreases n
  {
    if i < n {
      AcquireOrderPrefix(i, n - 1);
    } else if i > 0 {
      AcquireOrderPrefix(i - 1, n - 1);
    }
  }

  lemma AcquiringConcat(a: seq<Resource>, b: seq<Resource>)
    ensures Acquiring(a + b) == Acquiring(a) + Acquiring(b)
    ensures Undoing(a + b) == Undoing(b) + Undoing(a)
  {
  }

  lemma PrefixSlots<T>(o: seq<T>, a: seq<T>, b: seq<T>, j: nat)
    requires a + b <= o && j < |b|
    ensures o[..|a|] == a && o[|a| + j] == b[j] && o[..|a| + j] == a + b[..j]
  {
    assert (a + b)[|a| + j] == b[j];
    assert o[..|a| + j] == (a + b)[..|a| + j];
  }

  lemma DeviceSlots(i: nat, n: nat, j: nat)
    requires i < n && j < 5
    ensures var o, m := AcquireOrder(n), |AcquireOrder(i)|;
            && m + 5 <= |o| && o[..m] == AcquireOrder(i)
            && o[m + j] == Slot(i, j)
            && o[..m + j] == AcquireOrder(i) + DeviceResources(i)[..j]
  {
    AcquireOrderPrefix(i + 1, n);
    PrefixSlots(AcquireOrder(n), AcquireOrder(i), DeviceResources(i), j);
  }

  lemma StageResources(i: nat, error: Resource -> int, j: nat)
    requires j < 5 && j <= DeviceStage(i, error)
    ensures error(Slot(i, j)) == 0 <==> j < DeviceStage(i, error)
  {
  }

  /** The failure point of the whole load is device `i`'s, when everything before worked. */
  lemma LoadFailurePoint(i: nat, n: nat, error: Resource -> int)
    requires i < n && DeviceStage(i, error) < 5
    requires forall r :: r in AcquireOrder(i) ==> error(r) == 0
    ensures FailurePoint(AcquireOrder(n), error) == |AcquireOrder(i)| + DeviceStage(i, error)
  {
    var o, k, stage, m := AcquireOrder(n), FailurePoint(AcquireOrder(n), error), DeviceStage(i, error), |AcquireOrder(i)|;
    DeviceSlots(i, n, stage);
    StageResources(i, error, stage);
    assert k <= m + stage;
    if m <= k < m + stage {
      DeviceSlots(i, n, k - m);
      StageResources(i, error, k - m);
    }
  }

  lemma Regroup(t: seq<Event>, a: seq<Resource>, b: seq<Resource>)
    ensures t + Acquiring(a) + (Acquiring(b) + Undoing(b)) + Undoing(a) == t + (Acquiring(a + b) + Undoing(a + b))
  {
    AcquiringConcat(a, b);
  }

  lemma FailingSlots(i: nat, n: nat, error: Resource -> int)
    requires i < n && DeviceStage(i, error) < 5
    requires forall r :: r in AcquireOrder(i) ==> error(r) == 0
    ensures var o, k := AcquireOrder(n), FailurePoint(AcquireOrder(n), error);
            && k < |o| && o[k] == Slot(i, DeviceStage(i, error))
            && o[..k] == AcquireOrder(i) + DeviceResources(i)[..DeviceStage(i, error)]
  {
    LoadFailurePoint(i, n, error);
    DeviceSlots(i, n, DeviceStage(i, error));
  }

  /** The trace of a load that fails at device `i`. */
  lemma FailingLoad(t: seq<Event>, i: nat, n: nat, error: Resource -> int)
    requires i < n && DeviceStage(i, error) < 5
    requires forall r :: r in AcquireOrder(i) ==> error(r) == 0
    ensures var o, k := AcquireOrder(n), FailurePoint(AcquireOrder(n), error);
            && k < |o| && o[k] == Slot(i, DeviceStage(i, error))
            && t + Acquiring(AcquireOrder(i)) + DeviceTrace(i, DeviceStage(i, error)) + Undoing(AcquireOrder(i))
               == t + Rollback(n, k)
  {
    FailingSlots(i, n, error);
    Regroup(t, AcquireOrder(i), DeviceResources(i)[..DeviceStage(i, error)]);
  }

  lemma WorkingDevice(t: seq<Event>, i: nat, error: Resource -> int)
    requires DeviceStage(i, error) == 5
    requires forall r :: r in AcquireOrder(i) ==> error(r) == 0
    ensures forall r :: r in AcquireOrder(i + 1) ==> error(r) == 0
    ensures t + Acquiring(AcquireOrder(i)) + DeviceTrace(i, 5) == t + Acquiring(AcquireOrder(i + 1))
  {
    AcquiringConcat(AcquireOrder(i), DeviceResources(i));
    assert DeviceResources(i)[..5] == DeviceResources(i);
    forall r | r in DeviceResources(i)
      ensures error(r) == 0
    {
    }
  }

  class Driver {
    var trace: seq<Event>
    const error: Resource -> int    // the error with which acquiring a resource fails, or 0

    constructor (error: Resource -> int)
      ensures trace == [] && this.error == error
    {
      trace := [];
      this.error := error;
    }

    method Acquire(r: Resource) returns (err: int)
      modifies this`trace
      ensures err == error(r)
      ensures trace == if err == 0 then old(trace) + [Acquired(r)] else old(trace)
    {
      err := error(r);
      if err == 0 {
        trace := trace + [Acquired(r)];
      }
    }

    method Release(r: Resource)
      modifies this`trace
      ensures trace == old(trace) + [Released(r)]
    {
      trace := trace + [Released(r)];
    }

    /** The three attributes, with the labels err_attr_reset and err_attr_stats. */
    method InitAttributes(i: nat) returns (ret: int)
      modifies this`trace
      ensures trace == old(trace) + AttributesTrace(i, AttributesStage(i, error))
      ensures var k := AttributesStage(i, error);
              if k == 3 then ret == 0 else ret == error(Slot(i, 2 + k)) != 0
    {
      AttributesPass(trace, i, AttributesStage(i, error));
      ret := Acquire(DataAttr(i));
      if ret != 0 {
        return;
      }
      ret := Acquire(StatsAttr(i));
      if ret != 0 {
        Release(DataAttr(i));
        return;
      }
      ret := Acquire(ResetAttr(i));
      if ret != 0 {
        Release(StatsAttr(i));
        Release(DataAttr(i));
      }
    }

    /** One pass of the loop: acquires device `i`'s resources or undoes the ones it got. */
    method InitDevice(i: nat, devs: array<DevPointer>) returns (ret: int)
      requires i < devs.Length
      modifies this`trace, devs
      ensures forall j :: 0 <= j < devs.Length && j != i ==> devs[j] == old(devs[j])
      ensures trace == old(trace) + DeviceTrace(i, DeviceStage(i, error))
      ensures var k := DeviceStage(i, error);
              if k == 5 then ret == 0 && devs[i] == DevicePointer else ret == error(Slot(i, k)) != 0
    {
      DevicePass(trace, i, DeviceStage(i, error));
      ret := Acquire(Cdev(i));
      if ret != 0 {
        return;
      }
      ret := Acquire(Node(i));
      if ret != 0 {
        devs[i] := ErrorPointer;
        Release(Cdev(i));
        return;
      }
      devs[i] := DevicePointer;
      ret := InitAttributes(i);
      if ret != 0 {
        Release(Node(i));          // err_attr
        Release(Cdev(i));
      }
    }

    /** Releases the devices below `i`, newest first, and the three shared resources. */
    method RollBack(i: nat, devs: array<DevPointer>)
      requires i <= devs.Length && forall j :: 0 <= j < i ==> devs[j] == DevicePointer
      modifies this`trace
      ensures trace == old(trace) + Undoing(AcquireOrder(i))
    {
      var j := i;
      while j > 0
        invariant 0 <= j <= i
        invariant trace + Undoing(AcquireOrder(j)) == old(trace) + Undoing(AcquireOrder(i))
      {
        j := j - 1;
        ghost var before := trace;
        AcquiringConcat(AcquireOrder(j), DeviceResources(j));
        if devs[j] == DevicePointer {
          Release(ResetAttr(j));
          Release(StatsAttr(j));
          Release(DataAttr(j));
          Release(Node(j));
        }
        Release(Cdev(j));
        assert trace == before + Undoing(DeviceResources(j));
        assert trace + Undoing(AcquireOrder(j)) == before + (Undoing(DeviceResources(j)) + Undoing(AcquireOrder(j)));
      }
      Release(Memory);
      Release(DeviceClass);
      Release(Region);
      assert Undoing(AcquireOrder(0)) == [Released(Memory), Released(DeviceClass), Released(Region)];
    }

    /** The three shared resources; on failure everything got so far is released again. */
    method InitShared() returns (ret: int)
      modifies this`trace
      ensures trace == old(trace) + SharedTrace(SharedStage(error))
      ensures var o, k := AcquireOrder(0), SharedStage(error);
              if k == |o| then ret == 0 else ret == (if o[k] == Memory then -ENOMEM else error(o[k])) != 0
    {
      SharedPass(trace, SharedStage(error));
      ret := Acquire(Region);
      if ret != 0 {
        return;
      }
      ret := Acquire(DeviceClass);
      if ret != 0 {
        Release(Region);
        return;
      }
      ret := Acquire(Memory);
      if ret != 0 {
        ret := -ENOMEM;
        Release(DeviceClass);
        Release(Region);
      }
    }

    /** The loop over the devices; `before` is the trace before the shared resources. */
    method InitDevices(n: nat, ghost before: seq<Event>) returns (ret: int)
      requires trace == before + Acquiring(AcquireOrder(0))
      requires forall r :: r in AcquireOrder(0) ==> error(r) == 0
      modifies this`trace
      ensures var o, k := AcquireOrder(n), FailurePoint(AcquireOrder(n), error);
              if k == |o| then ret == 0 && trace == before + Acquiring(o)
              else ret == (if o[k] == Memory then -ENOMEM else error(o[k])) != 0 && trace == before + Rollback(n, k)
    {
      var devs := new DevPointer[n](i => NullPointer);
      var i := 0;
      while i < n
        invariant 0 <= i <= n
        invariant forall j :: 0 <= j < i ==> devs[j] == DevicePointer
        invariant forall r :: r in AcquireOrder(i) ==> error(r) == 0
        invariant trace == before + Acquiring(AcquireOrder(i))
      {
        ret := InitDevice(i, devs);
        if ret != 0 {
          FailingLoad(before, i, n, error);
          RollBack(i, devs);
          return;
        }
        WorkingDevice(before, i, error);
        i := i + 1;
      }
      NothingFails(n, error);
      ret := 0;
    }

    /** Loading the module for `n` devices. Whichever acquisition fails first, the load
        returns its error and has released, in reverse, exactly what it had acquired; if none
        fails it returns 0 and has released nothing. */
    method Init(n: nat) returns (ret: int)
      modifies this`trace
      ensures var o, k := AcquireOrder(n), FailurePoint(AcquireOrder(n), error);
              if k == |o| then ret == 0 && trace == old(trace) + Acquiring(o)
              else ret == (if o[k] == Memory then -ENOMEM else error(o[k])) != 0 && trace == old(trace) + Rollback(n, k)
    {
      SharedPrefixFails(n, error);
      ret := InitShared();
      if ret != 0 {
        return;
      }
      SharedTraces(3);
      ret := InitDevices(n, old(trace));
    }

    /** Unloading the module. */
    method Exit(n: nat)
      modifies this`trace
      ensures trace == old(trace) + ExitTrace(n)
    {
      for i := 0 to n
        invariant trace == old(trace) + ExitDevices(i)
      {
        ghost var before := trace;
        Release(ResetAttr(i));
        Release(StatsAttr(i));
        Release(DataAttr(i));
        Release(Node(i));
        Release(Cdev(i));
        assert trace == before + Undoing(DeviceResources(i));
        assert ExitDevices(i + 1) == ExitDevices(i) + Undoing(DeviceResources(i));
      }
      Release(Memory);
      Release(DeviceClass);
      Release(Region);
    }
  }

  /** How many of the shared resources are acquired before one fails. */
  function SharedStage(error: Resource -> int): (k: nat)
    ensures k <= 3
  {
    if error(Region) != 0 then 0 else if error(DeviceClass) != 0 then 1 else if error(Memory) != 0 then 2 else 3
  }

  function SharedTrace(k: nat): seq<Event>
    requires k <= 3
  {
    var got := AcquireOrder(0)[..k];
    if k == 3 then Acquiring(got) else Acquiring(got) + Undoing(got)
  }

  /** The trace `t` as the shared resources extend it, event by event. */
  lemma SharedPass(t: seq<Event>, k: nat)
    requires k <= 3
    ensures t + SharedTrace(k)
            == if k == 0 then t
               else if k == 1 then t + [Acquired(Region)] + [Released(Region)]
               else
                 var made := t + [Acquired(Region)] + [Acquired(DeviceClass)];
                 if k == 3 then made + [Acquired(Memory)]
                 else made + [Released(DeviceClass)] + [Released(Region)]
  {
    assert AcquireOrder(0)[..k] == [Region, DeviceClass, Memory][..k];
  }

  lemma SharedTraces(k: nat)
    requires k <= 3
    ensures SharedTrace(k) == if k == 3 then Acquiring(AcquireOrder(0)) else Rollback(0, k)
  {
    assert AcquireOrder(0) == [Region, DeviceClass, Memory];
  }

  /** A failure among the shared resources is the failure of the whole load. */
  lemma SharedPrefixFails(n: nat, error: Resource -> int)
    ensures var o, k := AcquireOrder(n), SharedStage(error);
            && 3 <= |o|
            && (k < 3 ==>
                  && FailurePoint(o, error) == k
                  && o[k] == AcquireOrder(0)[k] && (if o[k] == Memory then -ENOMEM else error(o[k])) != 0
                  && SharedTrace(k) == Rollback(n, k))
            && (k == 3 ==> forall r :: r in AcquireOrder(0) ==> error(r) == 0)
  {
    AcquireOrderPrefix(0, n);
    var o, k := AcquireOrder(n), SharedStage(error);
    var k' := FailurePoint(o, error);
    assert o[..3] == [Region, DeviceClass, Memory];
    assert o[0] == o[..3][0] == Region && o[1] == o[..3][1] == DeviceClass && o[2] == o[..3][2] == Memory;
    SharedTraces(k);
    if k < 3 {
      assert error(o[k]) != 0 && k' <= k;
      assert o[..k] == AcquireOrder(0)[..k];
    }
  }

  lemma NothingFails(n: nat, error: Resource -> int)
    requires forall r :: r in AcquireOrder(n) ==> error(r) == 0
    ensures FailurePoint(AcquireOrder(n), error) == |AcquireOrder(n)|
  {
  }

  /** A whole life of the module, for any number of devices and any pattern of failures:
      at its end nothing is held, and no step on the way acquired something twice, released
      something not held, or released something still needed. */
  method LoadAndUnload(n: nat, error: Resource -> int) returns (ret: int, trace: seq<Event>)
    ensures HeldAfter(trace) == Some({})
    ensures ret == 0 <==> forall r :: r in AcquireOrder(n) ==> error(r) == 0
    ensures ReportsFailure(AcquireOrder(n), error, ret, trace)
  {
    var driver := new Driver(error);
    ret := driver.Init(n);
    ghost var o, k := AcquireOrder(n), FailurePoint(AcquireOrder(n), error);
    if ret == 0 {
      driver.Exit(n);
      LoadThenUnloadIsClean(n);
      assert driver.trace == [] + Acquiring(o) + ExitTrace(n) == Acquiring(o) + ExitTrace(n);
    } else {
      RollbackIsClean(n, k);
      RollbackReports(n, error, ret);
      assert driver.trace == [] + Rollback(n, k) == Rollback(n, k);
      assert error(o[k]) != 0 && o[k] in o;
    }
    trace := driver.trace;
  }
}
