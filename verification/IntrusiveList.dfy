/** The circular doubly linked list of 024_linked_list/list.c at the level of the heap: the
    list primitives are pointer updates, kfree ends the life of a node, and a node may only be
    read or written while it is alive. */
module IntrusiveList {

  class Node {
    const data: int
    var next: Node?
    var prev: Node?
    var alive: bool

    /** kmalloc, the value, and INIT_LIST_HEAD. */
    constructor (value: int)
      ensures data == value && next == this && prev == this && alive
    {
      data := value;
      next := this;
      prev := this;
      alive := true;
    }

    function Next(): Node
      requires alive && next != null
      reads this
    {
      next
    }

    function Prev(): Node
      requires alive && prev != null
      reads this
    {
      prev
    }

    function Data(): int
      requires alive
      reads this
    {
      data
    }

    method SetNext(n: Node?)
      requires alive
      modifies this`next
      ensures next == n
    {
      next := n;
    }

    method SetPrev(n: Node?)
      requires alive
      modifies this`prev
      ensures prev == n
    {
      prev := n;
    }

    /** A double free or the use of a freed node violates a precondition. */
    method Kfree()
      requires alive
      modifies this`alive
      ensures !alive
    {
      alive := false;
    }
  }

  function After(i: nat, n: nat): nat
    requires i < n
  {
    if i + 1 == n then 0 else i + 1
  }

  function Before(i: nat, n: nat): nat
    requires i < n
  {
    if i == 0 then n - 1 else i - 1
  }

  ghost predicate Distinct(s: seq<Node>) {
    s != [] ==> Distinct(s[..|s| - 1]) && s[|s| - 1] !in s[..|s| - 1]
  }

  lemma {:induction false} DistinctAt(s: seq<Node>)
    ensures Distinct(s) <==> forall i, j :: 0 <= i < j < |s| ==> s[i] != s[j]
  {
    if s != [] {
      DistinctAt(s[..|s| - 1]);
    }
  }

  lemma DistinctWithout(s: seq<Node>, i: nat)
    requires Distinct(s) && i < |s|
    ensures Distinct(s[..i] + s[i + 1..]) && s[i] !in s[..i] + s[i + 1..]
  {
    DistinctAt(s);
    DistinctAt(s[..i] + s[i + 1..]);
  }

  ghost predicate LinkedAt(s: seq<Node>, i: nat)
    requires i < |s|
    reads s
  {
    s[i].alive && s[i].next == s[After(i, |s|)] && s[i].prev == s[Before(i, |s|)]
  }

  /** The nodes of `s`, in this order, form a ring of live nodes. */
  ghost predicate IsRing(s: seq<Node>)
    reads s
  {
    s != [] && Distinct(s) && forall i :: 0 <= i < |s| ==> LinkedAt(s, i)
  }

  /** Every node ever allocated is on the ring behind its head or was freed, once. */
  ghost predicate Accounted(spine: seq<Node>, freed: seq<Node>, everAllocated: seq<Node>)
    requires spine != []
  {
    Distinct(everAllocated) && multiset(everAllocated) == multiset(spine[1..]) + multiset(freed)
  }

  lemma AccountedAdd(spine: seq<Node>, freed: seq<Node>, everAllocated: seq<Node>, n: Node)
    requires spine != [] && Accounted(spine, freed, everAllocated) && n !in everAllocated
    ensures Accounted(spine + [n], freed, everAllocated + [n])
  {
    assert (spine + [n])[1..] == spine[1..] + [n];
    assert (everAllocated + [n])[..|everAllocated|] == everAllocated;
  }

  lemma AccountedUnlink(spine: seq<Node>, freed: seq<Node>, everAllocated: seq<Node>, at: nat)
    requires 0 < at < |spine| && Accounted(spine, freed, everAllocated)
    ensures Accounted(spine[..at] + spine[at + 1..], freed + [spine[at]], everAllocated)
  {
    assert spine[1..] == spine[1..at] + [spine[at]] + spine[at + 1..];
    assert (spine[..at] + spine[at + 1..])[1..] == spine[1..at] + spine[at + 1..];
  }

  lemma WholeRingAllocated(spine: seq<Node>, freed: seq<Node>, everAllocated: seq<Node>, n: Node)
    requires spine != [] && Accounted(spine, freed, everAllocated)
    requires n in everAllocated
    ensures n in spine || n in freed
  {
    assert n in multiset(everAllocated);
  }

  function DataOf(nodes: seq<Node>): (r: seq<int>)
    ensures |r| == |nodes|
  {
    seq(|nodes|, i requires 0 <= i < |nodes| => nodes[i].data)
  }

  /** The nodes that do not hold `value`, in order. */
  function Keeping(nodes: seq<Node>, value: int): seq<Node> {
    if nodes == [] then []
    else
      Keeping(nodes[..|nodes| - 1], value)
      + if nodes[|nodes| - 1].data == value then [] else [nodes[|nodes| - 1]]
  }

  /** The nodes that hold `value`, in order. */
  function Matching(nodes: seq<Node>, value: int): seq<Node> {
    if nodes == [] then []
    else
      Matching(nodes[..|nodes| - 1], value)
      + if nodes[|nodes| - 1].data == value then [nodes[|nodes| - 1]] else []
  }

  /** The list with every occurrence of `value` left out. */
  function Without(values: seq<int>, value: int): seq<int> {
    if values == [] then []
    else
      Without(values[..|values| - 1], value)
      + if values[|values| - 1] == value then [] else [values[|values| - 1]]
  }

  lemma {:induction false} KeepingData(nodes: seq<Node>, value: int)
    ensures DataOf(Keeping(nodes, value)) == Without(DataOf(nodes), value)
  {
    if nodes != [] {
      KeepingData(nodes[..|nodes| - 1], value);
      assert DataOf(nodes)[..|nodes| - 1] == DataOf(nodes[..|nodes| - 1]);
    }
  }

  /** Keeping and matching split the nodes between them. */
  lemma {:induction false} KeepingAndMatching(nodes: seq<Node>, value: int)
    ensures multiset(Keeping(nodes, value)) + multiset(Matching(nodes, value)) == multiset(nodes)
    ensures forall n :: n in Matching(nodes, value) <==> n in nodes && n.data == value
    ensures forall n :: n in Keeping(nodes, value) <==> n in nodes && n.data != value
  {
    if nodes != [] {
      var last := |nodes| - 1;
      KeepingAndMatching(nodes[..last], value);
      assert nodes == nodes[..last] + [nodes[last]];
    }
  }

  /** list_add_tail: `s` is the ring that `head` starts. */
  method ListAddTail(added: Node, head: Node, ghost s: seq<Node>)
    requires IsRing(s) && s[0] == head && added.alive && added !in s
    modifies (set n | n in s)`next, (set n | n in s)`prev, added`next, added`prev
    ensures IsRing(s + [added])
  {
    DistinctAt(s);
    assert LinkedAt(s, 0);
    var prev := head.Prev();
    var next := head;
    assert LinkedAt(s, |s| - 1);
    next.SetPrev(added);
    added.SetNext(next);
    added.SetPrev(prev);
    prev.SetNext(added);
    ghost var s' := s + [added];
    assert s'[..|s|] == s;
    forall i | 0 <= i < |s'|
      ensures LinkedAt(s', i)
    {
      assert i < |s| ==> old(LinkedAt(s, i));
    }
  }

  /** list_del of the `i`th node of the ring `s`; the links of the deleted node are
      poisoned, which the model writes as null. */
  method ListDel(entry: Node, ghost s: seq<Node>, ghost i: nat)
    requires IsRing(s) && 0 < i < |s| && s[i] == entry
    modifies (set n | n in s)`next, (set n | n in s)`prev
    ensures IsRing(s[..i] + s[i + 1..])
    ensures entry.next == null && entry.prev == null
  {
    DistinctAt(s);
    DistinctWithout(s, i);
    assert LinkedAt(s, i);
    var prev := entry.Prev();
    var next := entry.Next();
    assert LinkedAt(s, After(i, |s|)) && LinkedAt(s, Before(i, |s|));
    next.SetPrev(prev);
    prev.SetNext(next);
    entry.SetNext(null);
    entry.SetPrev(null);
    ghost var s' := s[..i] + s[i + 1..];
    forall j | 0 <= j < |s'|
      ensures LinkedAt(s', j)
    {
      assert old(LinkedAt(s, if j < i then j else j + 1));
    }
  }

  /** The ring while remove_node is about to visit node `k` of `nodes`, and where in it that
      node (or, at the end, the head) is. */
  function Visiting(head: Node, nodes: seq<Node>, k: nat, value: int): seq<Node>
    requires k <= |nodes|
  {
    [head] + Keeping(nodes[..k], value) + nodes[k..]
  }

  function VisitingAt(nodes: seq<Node>, k: nat, value: int): nat
    requires k <= |nodes|
  {
    if k == |nodes| then 0 else 1 + |Keeping(nodes[..k], value)|
  }

  lemma VisitingPosition(head: Node, nodes: seq<Node>, k: nat, value: int)
    requires k <= |nodes|
    ensures var s, at := Visiting(head, nodes, k, value), VisitingAt(nodes, k, value);
            && at < |s|
            && s[at] == (if k == |nodes| then head else nodes[k])
            && (k < |nodes| ==> at > 0 && s[After(at, |s|)] == if k + 1 == |nodes| then head else nodes[k + 1])
  {
  }

  lemma VisitingStep(head: Node, nodes: seq<Node>, k: nat, value: int, f: seq<Node>)
    requires k < |nodes|
    ensures var s, at := Visiting(head, nodes, k, value), VisitingAt(nodes, k, value);
            && at < |s|
            && Visiting(head, nodes, k + 1, value)
               == (if nodes[k].data == value then s[..at] + s[at + 1..] else s)
            && f + Matching(nodes[..k + 1], value)
               == (f + Matching(nodes[..k], value)) + (if nodes[k].data == value then [nodes[k]] else [])
  {
    assert nodes[..k + 1][..k] == nodes[..k];
    assert nodes[k..] == [nodes[k]] + nodes[k + 1..];
  }

  /** Where remove_node's loop starts and ends. */
  lemma VisitingEnds(s: seq<Node>, value: int, f: seq<Node>)
    requires s != []
    ensures Visiting(s[0], s[1..], 0, value) == s && f + Matching(s[1..][..0], value) == f
    ensures Visiting(s[0], s[1..], |s| - 1, value) == [s[0]] + Keeping(s[1..], value)
    ensures f + Matching(s[1..][..|s| - 1], value) == f + Matching(s[1..], value)
    ensures DataOf(([s[0]] + Keeping(s[1..], value))[1..]) == Without(DataOf(s[1..]), value)
  {
    var nodes := s[1..];
    assert nodes[..0] == [] && nodes[..|nodes|] == nodes && nodes[|nodes|..] == [];
    KeepingData(nodes, value);
    assert ([s[0]] + Keeping(nodes, value))[1..] == Keeping(nodes, value);
  }

  lemma HeadIsNoElement(s: seq<Node>)
    requires s != [] && Distinct(s)
    ensures s[0] !in s[1..]
  {
    DistinctAt(s);
  }

  lemma CleaningStep(head: Node, nodes: seq<Node>, k: nat, f: seq<Node>)
    requires k < |nodes|
    ensures var s := [head] + nodes[k..];
            && s[1] == nodes[k] && s[..1] + s[2..] == [head] + nodes[k + 1..]
            && s[After(1, |s|)] == (if k + 1 == |nodes| then head else nodes[k + 1])
    ensures f + nodes[..k + 1] == (f + nodes[..k]) + [nodes[k]]
  {
  }

  class List {
    const head: Node
    ghost var spine: seq<Node>           // the ring, head first
    ghost var everAllocated: seq<Node>   // every node ever allocated
    ghost var freed: seq<Node>           // every node freed, in order

    ghost predicate Valid()
      reads this, spine, freed
    {
      && IsRing(spine) && spine[0] == head
      && (forall n :: n in freed ==> !n.alive)
      && Accounted(spine, freed, everAllocated)
    }

    ghost function Nodes(): set<Node>
      reads this
    {
      set n | n in spine
    }

    ghost function Contents(): seq<int>
      requires spine != []
      reads this
    {
      DataOf(spine[1..])
    }

    constructor ()
      ensures Valid() && fresh(head) && Contents() == [] && everAllocated == [] && freed == []
      ensures spine == [head]
    {
      var h := new Node(0);
      head := h;
      spine := [h];
      everAllocated := [];
      freed := [];
    }

    /** add_node; kmalloc may fail, and then nothing happens. */
    method AddNode(value: int, allocationWorks: bool)
      requires Valid()
      modifies this, Nodes()
      ensures Valid() && fresh(Nodes() - old(Nodes()))
      ensures freed == old(freed)
      ensures Contents() == old(Contents()) + if allocationWorks then [value] else []
      ensures |everAllocated| == |old(everAllocated)| + if allocationWorks then 1 else 0
    {
      if !allocationWorks {
        return;
      }
      var n := new Node(value);
      assert n !in everAllocated by {
        if n in everAllocated {
          WholeRingAllocated(spine, freed, everAllocated, n);
        }
      }
      AccountedAdd(spine, freed, everAllocated, n);
      assert DataOf((spine + [n])[1..]) == DataOf(spine[1..]) + [value];
      ListAddTail(n, head, spine);
      spine := spine + [n];
      everAllocated := everAllocated + [n];
    }

    /** traverse_list: what it prints, and the count. */
    method Traverse() returns (printed: seq<int>, count: nat)
      requires Valid()
      ensures printed == Contents() && count == |Contents()|
    {
      DistinctAt(spine);
      printed, count := [], 0;
      assert LinkedAt(spine, 0);
      var temp := head.Next();
      ghost var k := 1;
      while temp != head
        invariant 1 <= k <= |spine| && temp == if k == |spine| then head else spine[k]
        invariant printed == DataOf(spine[1..k]) && count == k - 1
        decreases |spine| - k
      {
        assert LinkedAt(spine, k);
        printed := printed + [temp.Data()];
        count := count + 1;
        assert spine[1..k + 1] == spine[1..k] + [spine[k]];
        temp := temp.Next();
        k := k + 1;
      }
      assert k == |spine|;
    }

    /** traverse_list_reverse. */
    method TraverseReverse() returns (printed: seq<int>)
      requires Valid()
      ensures |printed| == |Contents()|
      ensures forall i :: 0 <= i < |printed| ==> printed[i] == Contents()[|printed| - 1 - i]
    {
      DistinctAt(spine);
      printed := [];
      assert LinkedAt(spine, 0);
      var temp := head.Prev();
      ghost var k := |spine| - 1;
      while temp != head
        invariant 0 <= k < |spine| && temp == spine[k]
        invariant |printed| == |spine| - 1 - k
        invariant forall i :: 0 <= i < |printed| ==> printed[i] == spine[|spine| - 1 - i].data
        decreases k
      {
        assert LinkedAt(spine, k);
        printed := printed + [temp.Data()];
        temp := temp.Prev();
        k := k - 1;
      }
    }

    /** Follows the next pointer of the node at index `at` of the ring. */
    method Follow(n: Node, ghost at: nat) returns (next: Node)
      requires Valid() && at < |spine| && spine[at] == n
      ensures next == spine[After(at, |spine|)]
    {
      assert LinkedAt(spine, at);
      next := n.Next();
    }

    /** list_del and kfree of the node at index `at` of the ring. */
    method Unlink(cursor: Node, ghost at: nat)
      requires Valid() && 0 < at < |spine| && spine[at] == cursor
      modifies this, Nodes()
      ensures Valid() && everAllocated == old(everAllocated)
      ensures spine == old(spine)[..at] + old(spine)[at + 1..]
      ensures freed == old(freed) + [cursor]
    {
      AccountedUnlink(spine, freed, everAllocated, at);
      DistinctWithout(spine, at);
      assert LinkedAt(spine, at);
      ListDel(cursor, spine, at);
      spine := spine[..at] + spine[at + 1..];
      cursor.Kfree();
      assert forall j :: 0 <= j < |spine| ==> LinkedAt(spine, j);
      freed := freed + [cursor];
    }

    /** The body of remove_node's loop for node `k`; `before` are the nodes freed earlier. */
    method Visit(cursor: Node, value: int, ghost nodes: seq<Node>, ghost k: nat, ghost before: seq<Node>)
      requires Valid() && k < |nodes| && cursor == nodes[k]
      requires spine == Visiting(head, nodes, k, value) && freed == before + Matching(nodes[..k], value)
      modifies this, Nodes()
      ensures Valid() && everAllocated == old(everAllocated) && Nodes() <= old(Nodes())
      ensures spine == Visiting(head, nodes, k + 1, value) && freed == before + Matching(nodes[..k + 1], value)
    {
      VisitingPosition(head, nodes, k, value);
      VisitingStep(head, nodes, k, value, before);
      assert LinkedAt(spine, VisitingAt(nodes, k, value));
      if cursor.Data() == value {
        Unlink(cursor, VisitingAt(nodes, k, value));
      }
    }

    /** remove_node: list_for_each_entry_safe keeps the next node in `tmp`, so that the
        current one can be unlinked and freed. */
    method RemoveNode(value: int)
      requires Valid()
      modifies this, Nodes()
      ensures Valid() && everAllocated == old(everAllocated)
      ensures spine == [head] + Keeping(old(spine)[1..], value)
      ensures freed == old(freed) + Matching(old(spine)[1..], value)
      ensures Contents() == Without(old(Contents()), value) && Nodes() <= old(Nodes())
    {
      ghost var nodes := spine[1..];
      ghost var k := 0;
      HeadIsNoElement(spine);
      VisitingEnds(spine, value, freed);
      VisitingPosition(head, nodes, 0, value);
      var cursor := Follow(head, 0);
      var tmp := Follow(cursor, After(0, |spine|));
      while cursor != head
        invariant 0 <= k <= |nodes|
        invariant spine == Visiting(head, nodes, k, value) && Nodes() <= old(Nodes())
        invariant freed == old(freed) + Matching(nodes[..k], value)
        invariant everAllocated == old(everAllocated) && Valid()
        invariant cursor == if k == |nodes| then head else nodes[k]
        invariant k < |nodes| ==> tmp == if k + 1 == |nodes| then head else nodes[k + 1]
        decreases |nodes| - k
      {
        Visit(cursor, value, nodes, k, old(freed));
        k := k + 1;
        VisitingPosition(head, nodes, k, value);
        cursor := tmp;
        tmp := Follow(tmp, VisitingAt(nodes, k, value));
      }
    }

    /** The body of cleanup_list's loop for node `k`; `before` are the nodes freed earlier. */
    method Clean(cursor: Node, ghost nodes: seq<Node>, ghost k: nat, ghost before: seq<Node>)
      requires Valid() && k < |nodes| && cursor == nodes[k]
      requires spine == [head] + nodes[k..] && freed == before + nodes[..k]
      modifies this, Nodes()
      ensures Valid() && everAllocated == old(everAllocated) && Nodes() <= old(Nodes())
      ensures spine == [head] + nodes[k + 1..] && freed == before + nodes[..k + 1]
    {
      CleaningStep(head, nodes, k, before);
      Unlink(cursor, 1);
    }

    /** cleanup_list: every node is unlinked and freed, oldest first. */
    method CleanupList()
      requires Valid()
      modifies this, Nodes()
      ensures Valid() && everAllocated == old(everAllocated)
      ensures spine == [head] && Contents() == []
      ensures freed == old(freed) + old(spine)[1..]
      ensures multiset(everAllocated) == multiset(freed)
    {
      ghost var nodes := spine[1..];
      ghost var k := 0;
      HeadIsNoElement(spine);
      assert spine == [head] + nodes[0..] && old(freed) + nodes[..0] == old(freed);
      var cursor := Follow(head, 0);
      var tmp := Follow(cursor, After(0, |spine|));
      while cursor != head
        invariant 0 <= k <= |nodes|
        invariant spine == [head] + nodes[k..] && Nodes() <= old(Nodes())
        invariant freed == old(freed) + nodes[..k]
        invariant everAllocated == old(everAllocated) && Valid()
        invariant cursor == if k == |nodes| then head else nodes[k]
        invariant k < |nodes| ==> tmp == if k + 1 == |nodes| then head else nodes[k + 1]
        decreases |nodes| - k
      {
        Clean(cursor, nodes, k, old(freed));
        k := k + 1;
        cursor := tmp;
        assert cursor == spine[After(0, |spine|)];
        tmp := Follow(tmp, After(0, |spine|));
      }
      assert nodes[..k] == nodes && nodes[k..] == [];
    }
  }

  // ---- Whole runs ----

  datatype Op = Add(value: int, allocationWorks: bool) | Remove(value: int)

  /** The list contents after a run, as a plain sequence. */
  function ContentsAfter(ops: seq<Op>): seq<int> {
    if ops == [] then []
    else
      var before := ContentsAfter(ops[..|ops| - 1]);
      match ops[|ops| - 1]
      case Add(v, works) => if works then before + [v] else before
      case Remove(v) => Without(before, v)
  }

  /** The number of nodes a run allocates. */
  function Allocations(ops: seq<Op>): nat {
    if ops == [] then 0
    else
      Allocations(ops[..|ops| - 1])
      + if ops[|ops| - 1].Add? && ops[|ops| - 1].allocationWorks then 1 else 0
  }

  /** Any run of additions and removals followed by the cleanup: the list holds what the
      plain sequence does, and in the end every node that was allocated has been freed, each
      exactly once. No freed node is ever read or written on the way. */
  method RunAndCleanUp(ops: seq<Op>) returns (contents: seq<int>, ghost everAllocated: seq<Node>, ghost freed: seq<Node>)
    ensures contents == ContentsAfter(ops)
    ensures |everAllocated| == Allocations(ops) && Distinct(everAllocated)
    ensures multiset(freed) == multiset(everAllocated) && forall n :: n in everAllocated ==> !n.alive
  {
    var list := new List();
    for i := 0 to |ops|
      invariant list.Valid() && fresh(list) && fresh(list.Nodes())
      invariant list.Contents() == ContentsAfter(ops[..i]) && |list.everAllocated| == Allocations(ops[..i])
    {
      assert ops[..i + 1][..i] == ops[..i];
      match ops[i]
      case Add(v, works) => list.AddNode(v, works);
      case Remove(v) => list.RemoveNode(v);
    }
    assert ops[..|ops|] == ops;
    var count;
    contents, count := list.Traverse();
    list.CleanupList();
    everAllocated, freed := list.everAllocated, list.freed;
    forall n | n in everAllocated
      ensures !n.alive
    {
      assert n in multiset(everAllocated);
    }
  }
}
