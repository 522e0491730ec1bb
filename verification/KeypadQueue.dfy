/** The bounded ring queue of 002_char_keypad_driver/queue_kernel.c and the keypad helper
    that uses it, proved to be a FIFO. */
module KeypadQueue {
  import opened Kernel

  const QUEUE_SIZE: nat := 64

  // ---- The FIFO ----

  datatype Op = Inject(key: char) | Get | Clear

  function Accept(q: seq<char>, key: char): seq<char> {
    if |q| == QUEUE_SIZE then q else q + [key]
  }

  /** The queue after one call. */
  function Next(q: seq<char>, op: Op): seq<char> {
    match op
    case Inject(key) => Accept(q, key)
    case Get => if q == [] then [] else q[1..]
    case Clear => []
  }

  function After(ops: seq<Op>): (q: seq<char>)
    ensures |q| <= QUEUE_SIZE
  {
    if ops == [] then [] else Next(After(ops[..|ops| - 1]), ops[|ops| - 1])
  }

  function Injects(keys: seq<char>): (ops: seq<Op>)
    ensures |ops| == |keys|
  {
    seq(|keys|, i requires 0 <= i < |keys| => Inject(keys[i]))
  }

  /** How many keys a NUL-terminated keymap has. */
  function KeyCount(keymap: seq<char>): (n: nat)
    requires '\0' in keymap
    ensures n < |keymap| && keymap[n] == '\0' && forall i :: 0 <= i < n ==> keymap[i] != '\0'
  {
    if keymap[0] == '\0' then 0 else 1 + KeyCount(keymap[1..])
  }

  /** What loading with a keymap amounts to: injecting its keys one by one. */
  function Preload(keymap: Option<seq<char>>): seq<Op>
    requires keymap.Some? ==> '\0' in keymap.value
  {
    match keymap
    case None => []
    case Some(keys) => Injects(keys[..KeyCount(keys)])
  }

  /** Injecting keys one by one into an empty queue keeps the first 64. */
  lemma {:induction false} AfterInjects(keys: seq<char>)
    ensures After(Injects(keys)) == keys[..Min(|keys|, QUEUE_SIZE)]
  {
    if keys != [] {
      var before := keys[..|keys| - 1];
      AfterInjects(before);
      assert Injects(keys)[..|keys| - 1] == Injects(before);
    }
  }

  lemma AfterPreload(keymap: Option<seq<char>>)
    requires keymap.Some? ==> '\0' in keymap.value
    ensures After(Preload(keymap))
            == match keymap
               case None => []
               case Some(keys) => keys[..Min(KeyCount(keys), QUEUE_SIZE)]
  {
    if keymap.Some? {
      AfterInjects(keymap.value[..KeyCount(keymap.value)]);
    }
  }

  function AcceptedBy(q: seq<char>, op: Op): seq<char> {
    if op.Inject? && |q| < QUEUE_SIZE then [op.key] else []
  }

  /** The keys a run accepted, in order: those injected while there was room. */
  function Accepted(ops: seq<Op>): seq<char> {
    if ops == [] then []
    else
      var before, op := ops[..|ops| - 1], ops[|ops| - 1];
      Accepted(before) + AcceptedBy(After(before), op)
  }

  /** A key that left the queue: delivered to a caller, or cleared away. */
  datatype Gone = Delivered(key: char) | Cleared(key: char)

  function ClearedAll(q: seq<char>): (r: seq<Gone>)
    ensures |r| == |q|
  {
    seq(|q|, i requires 0 <= i < |q| => Cleared(q[i]))
  }

  /** What leaves queue `q` by one operation. */
  function LeavingBy(q: seq<char>, op: Op): seq<Gone> {
    match op
    case Inject(_) => []
    case Get => if q == [] then [] else [Delivered(q[0])]
    case Clear => ClearedAll(q)
  }

  function Departures(ops: seq<Op>): seq<Gone> {
    if ops == [] then []
    else
      var before, op := ops[..|ops| - 1], ops[|ops| - 1];
      Departures(before) + LeavingBy(After(before), op)
  }

  function KeysOf(gone: seq<Gone>): (r: seq<char>)
    ensures |r| == |gone|
  {
    seq(|gone|, i requires 0 <= i < |gone| => gone[i].key)
  }

  lemma OneConserves(q: seq<char>, op: Op)
    requires |q| <= QUEUE_SIZE
    ensures q + AcceptedBy(q, op) == KeysOf(LeavingBy(q, op)) + Next(q, op)
  {
    match op
    case Inject(_) =>
    case Get =>
      if q != [] {
        assert q == [q[0]] + q[1..];
      }
    case Clear => assert KeysOf(ClearedAll(q)) == q;
  }

  lemma Reassociate<T>(a: seq<T>, b: seq<T>, c: seq<T>, d: seq<T>, e: seq<T>, f: seq<T>)
    requires a == b + c && c + d == e + f
    ensures a + d == (b + e) + f
  {
    assert a + d == b + (c + d);
  }

  lemma KeysOfConcat(a: seq<Gone>, b: seq<Gone>)
    ensures KeysOf(a + b) == KeysOf(a) + KeysOf(b)
  {
  }

  /** Nothing is lost, duplicated or reordered: in every run the accepted keys are, in order,
      those that left (delivered or cleared), then those still queued. */
  lemma {:induction false} Conservation(ops: seq<Op>)
    ensures Accepted(ops) == KeysOf(Departures(ops)) + After(ops)
  {
    if ops != [] {
      var before, op := ops[..|ops| - 1], ops[|ops| - 1];
      var q := After(before);
      Conservation(before);
      OneConserves(q, op);
      KeysOfConcat(Departures(before), LeavingBy(q, op));
      Reassociate(Accepted(before), KeysOf(Departures(before)), q, AcceptedBy(q, op),
                  KeysOf(LeavingBy(q, op)), After(ops));
    }
  }

  /** What an operation delivers from queue `q`. */
  function TakenBy(q: seq<char>, op: Op): seq<char> {
    if op.Get? && q != [] then [q[0]] else []
  }

  /** The keys that gets delivered in a run, in order. */
  function DeliveredKeys(gone: seq<Gone>): seq<char> {
    if gone == [] then []
    else DeliveredKeys(gone[..|gone| - 1]) + if gone[|gone| - 1].Delivered? then [gone[|gone| - 1].key] else []
  }

  lemma {:induction false} NoClearMeansDelivered(ops: seq<Op>)
    requires forall i :: 0 <= i < |ops| ==> !ops[i].Clear?
    ensures DeliveredKeys(Departures(ops)) == KeysOf(Departures(ops))
  {
    if ops != [] {
      var before, op := ops[..|ops| - 1], ops[|ops| - 1];
      NoClearMeansDelivered(before);
      var q := After(before);
      if op.Get? && q != [] {
        assert Departures(ops)[..|Departures(before)|] == Departures(before);
        assert KeysOf(Departures(ops)) == KeysOf(Departures(before)) + [q[0]];
      } else {
        assert Departures(ops) == Departures(before);
      }
    }
  }

  /** First in, first out: without clears, what was delivered is a prefix of what was
      accepted, and the rest is still in the queue. */
  lemma FirstInFirstOut(ops: seq<Op>)
    requires forall i :: 0 <= i < |ops| ==> !ops[i].Clear?
    ensures Accepted(ops) == DeliveredKeys(Departures(ops)) + After(ops)
  {
    NoClearMeansDelivered(ops);
    Conservation(ops);
  }

  // ---- The ring buffer ----

  /** Positions past the end of the ring continue at its start. */
  function Wrap(k: nat): (r: nat)
    requires k < 2 * QUEUE_SIZE
    ensures r == k % QUEUE_SIZE && r < QUEUE_SIZE
  {
    if k < QUEUE_SIZE then k else k - QUEUE_SIZE
  }

  /** The `count` keys of a ring from position `front` on. */
  function Ring(items: seq<char>, front: nat, count: nat): (q: seq<char>)
    requires |items| == QUEUE_SIZE && front < QUEUE_SIZE && count <= QUEUE_SIZE
    ensures |q| == count && forall i :: 0 <= i < count ==> q[i] == items[Wrap(front + i)]
  {
    seq(count, i requires 0 <= i < count => items[Wrap(front + i)])
  }

  lemma RingAppend(items: seq<char>, front: nat, count: nat, item: char)
    requires |items| == QUEUE_SIZE && front < QUEUE_SIZE && count < QUEUE_SIZE
    ensures Ring(items[Wrap(front + count) := item], front, count + 1) == Ring(items, front, count) + [item]
  {
  }

  lemma RingRest(items: seq<char>, front: nat, count: nat)
    requires |items| == QUEUE_SIZE && front < QUEUE_SIZE && 0 < count <= QUEUE_SIZE
    ensures [items[front]] + Ring(items, Wrap(front + 1), count - 1) == Ring(items, front, count)
  {
  }

  lemma Shift<T>(a: seq<T>, x: T, b: seq<T>)
    ensures a + ([x] + b) == (a + [x]) + b
  {
  }

  class Queue {
    const items: array<char>
    var front: nat
    var rear: nat
    var count: nat

    ghost predicate Valid()
      reads this
    {
      && items.Length == QUEUE_SIZE
      && front < QUEUE_SIZE && count <= QUEUE_SIZE
      && rear == Wrap(front + count)
    }

    /** The keys in the ring, oldest first. */
    ghost function Contents(): (q: seq<char>)
      requires Valid()
      reads this, items
      ensures |q| == count
    {
      Ring(items[..], front, count)
    }

    /** queue_init. */
    constructor ()
      ensures Valid() && fresh(items) && Contents() == []
    {
      items := new char[QUEUE_SIZE](i => '\0');
      front, rear, count := 0, 0, 0;
    }

    method Enqueue(item: char) returns (ret: int)
      requires Valid()
      modifies this, items
      ensures Valid()
      ensures ret == if |old(Contents())| == QUEUE_SIZE then -1 else 0
      ensures Contents() == Accept(old(Contents()), item)
    {
      if count == QUEUE_SIZE {
        ret := -1;
      } else {
        RingAppend(items[..], front, count, item);
        items[rear] := item;
        rear := (rear + 1) % QUEUE_SIZE;
        count := count + 1;
        ret := 0;
      }
    }

    /** dequeue; when the queue is empty the caller's variable keeps its value. */
    method Dequeue(variable: char) returns (ret: int, item: char)
      requires Valid()
      modifies this
      ensures Valid()
      ensures if old(Contents()) == [] then ret == -1 && item == variable && Contents() == []
              else ret == 0 && [item] + Contents() == old(Contents())
    {
      item := variable;
      if count == 0 {
        ret := -1;
      } else {
        RingRest(items[..], front, count);
        item := items[front];
        front := (front + 1) % QUEUE_SIZE;
        count := count - 1;
        ret := 0;
      }
    }

    /** queue_empty: drains the queue, returning (as a ghost) what it took out. */
    method Empty() returns (ghost drained: seq<char>)
      requires Valid()
      modifies this
      ensures Valid() && Contents() == [] && front == rear == 0
      ensures drained == old(Contents())
    {
      drained := [];
      var ret, item := 0, '\0';
      while ret == 0
        invariant Valid() && drained + Contents() == old(Contents())
        invariant ret != 0 ==> Contents() == []
        decreases count, ret == 0
      {
        ret, item := Dequeue(item);
        if ret == 0 {
          Shift(drained, item, Contents());
          drained := drained + [item];
        }
      }
      front, rear, count := 0, 0, 0;
    }
  }

  // ---- The keypad helper ----

  class Keypad {
    const keyQueue: Queue

    ghost predicate Valid()
      reads this, keyQueue
    {
      keyQueue.Valid()
    }

    /** keypad_init: `keymap` is the module parameter, if one was given; its first NUL ends it. */
    constructor (keymap: Option<seq<char>>)
      requires keymap.Some? ==> '\0' in keymap.value
      ensures Valid() && fresh(keyQueue) && fresh(keyQueue.items)
      ensures keymap.None? ==> keyQueue.Contents() == []
      ensures keymap.Some? ==>
                keyQueue.Contents() == keymap.value[..Min(KeyCount(keymap.value), QUEUE_SIZE)]
    {
      var q := new Queue();
      keyQueue := q;
      if keymap.Some? {
        var keys := keymap.value;
        var i := 0;
        while keys[i] != '\0'
          invariant 0 <= i < |keys| && forall j :: 0 <= j < i ==> keys[j] != '\0'
          invariant q.Valid() && fresh(q) && fresh(q.items) && q.Contents() == keys[..Min(i, QUEUE_SIZE)]
          invariant i <= KeyCount(keys)
          decreases |keys| - i
        {
          var _ := q.Enqueue(keys[i]);
          i := i + 1;
        }
      }
    }

    method InjectEvent(key: char)
      requires Valid()
      modifies keyQueue, keyQueue.items
      ensures Valid() && keyQueue.Contents() == Next(old(keyQueue.Contents()), Inject(key))
    {
      var _ := keyQueue.Enqueue(key);
    }

    /** keypad_get_event does not look at dequeue's return value. */
    method GetEvent(variable: char) returns (key: char)
      requires Valid()
      modifies keyQueue
      ensures Valid() && keyQueue.Contents() == Next(old(keyQueue.Contents()), Get)
      ensures key == if old(keyQueue.Contents()) == [] then variable else old(keyQueue.Contents())[0]
    {
      var ret;
      ret, key := keyQueue.Dequeue(variable);
      assert ret == 0 ==> ([key] + keyQueue.Contents())[1..] == keyQueue.Contents();
    }

    method ClearQueue()
      requires Valid()
      modifies keyQueue
      ensures Valid() && keyQueue.Contents() == []
    {
      var _ := keyQueue.Empty();
    }
  }

  /** One call of the helper; `delivered` is what a get took from a queue that was not empty. */
  method Serve(keypad: Keypad, op: Op) returns (delivered: seq<char>)
    requires keypad.Valid()
    modifies keypad.keyQueue, keypad.keyQueue.items
    ensures keypad.Valid() && keypad.keyQueue.Contents() == Next(old(keypad.keyQueue.Contents()), op)
    ensures delivered == TakenBy(old(keypad.keyQueue.Contents()), op)
  {
    delivered := [];
    match op {
      case Inject(key) => keypad.InjectEvent(key);
      case Get =>
        var empty := keypad.keyQueue.count == 0;
        var key := keypad.GetEvent('\0');
        if !empty {
          delivered := [key];
        }
      case Clear => keypad.ClearQueue();
    }
  }

  /** Any run of the helper, preloaded or not: the ring ends up holding what the FIFO does,
      and the keys that gets returned were the delivered ones, in order. */
  method Play(keymap: Option<seq<char>>, ops: seq<Op>) returns (got: seq<char>, keypad: Keypad)
    requires keymap.Some? ==> '\0' in keymap.value
    ensures fresh(keypad) && keypad.Valid() && keypad.keyQueue.Contents() == After(Preload(keymap) + ops)
    ensures got == DeliveredKeys(Departures(Preload(keymap) + ops))
  {
    ghost var preload;
    keypad, preload := Load(keymap);
    got := PlayOn(keypad, preload, ops);
  }

  /** Loading, and the injects it amounts to. */
  method Load(keymap: Option<seq<char>>) returns (keypad: Keypad, ghost preload: seq<Op>)
    requires keymap.Some? ==> '\0' in keymap.value
    ensures preload == Preload(keymap) && Departures(preload) == []
    ensures fresh(keypad) && fresh(keypad.keyQueue) && fresh(keypad.keyQueue.items)
    ensures keypad.Valid() && keypad.keyQueue.Contents() == After(preload)
  {
    keypad := new Keypad(keymap);
    preload := Preload(keymap);
    AfterPreload(keymap);
    InjectsDeliverNothing(preload);
  }

  /** Carries on with `ops` after `before`. */
  method PlayOn(keypad: Keypad, ghost before: seq<Op>, ops: seq<Op>) returns (got: seq<char>)
    requires keypad.Valid() && Tracks(keypad.keyQueue.Contents(), [], before)
    modifies keypad.keyQueue, keypad.keyQueue.items
    ensures keypad.Valid() && Tracks(keypad.keyQueue.Contents(), got, before + ops)
  {
    got := [];
    ghost var done := before;
    for i := 0 to |ops|
      invariant keypad.Valid() && done == before + ops[..i]
      invariant Tracks(keypad.keyQueue.Contents(), got, done)
    {
      TracksStep(keypad.keyQueue.Contents(), got, done, ops[i]);
      PrefixGrows(before, ops, i);
      var delivered := Serve(keypad, ops[i]);
      got := got + delivered;
      done := done + [ops[i]];
    }
    assert done == before + ops;
  }

  lemma PrefixGrows<T>(a: seq<T>, b: seq<T>, i: nat)
    requires i < |b|
    ensures a + b[..i] + [b[i]] == a + b[..i + 1]
  {
  }

  /** After the run `done` the queue holds `q` and `got` was delivered. */
  ghost predicate Tracks(q: seq<char>, got: seq<char>, done: seq<Op>) {
    q == After(done) && got == DeliveredKeys(Departures(done))
  }

  lemma TracksStep(q: seq<char>, got: seq<char>, before: seq<Op>, op: Op)
    requires Tracks(q, got, before)
    ensures Tracks(Next(q, op), got + TakenBy(q, op), before + [op])
  {
    assert (before + [op])[..|before|] == before;
    DeliveredStep(before + [op]);
  }

  lemma {:induction false} InjectsDeliverNothing(ops: seq<Op>)
    requires forall i :: 0 <= i < |ops| ==> ops[i].Inject?
    ensures Departures(ops) == []
  {
    if ops != [] {
      InjectsDeliverNothing(ops[..|ops| - 1]);
    }
  }

  lemma {:induction false} ClearedDeliverNothing(gone: seq<Gone>, q: seq<char>)
    ensures DeliveredKeys(gone + ClearedAll(q)) == DeliveredKeys(gone)
    decreases |q|
  {
    if q == [] {
      assert gone + ClearedAll(q) == gone;
    } else {
      var all := gone + ClearedAll(q);
      ClearedDeliverNothing(gone, q[..|q| - 1]);
      assert all[..|all| - 1] == gone + ClearedAll(q[..|q| - 1]);
    }
  }

  lemma DeliveredStep(ops: seq<Op>)
    requires ops != []
    ensures var before, op := ops[..|ops| - 1], ops[|ops| - 1];
            DeliveredKeys(Departures(ops)) ==
            DeliveredKeys(Departures(before))
            + TakenBy(After(before), op)
  {
    var before, op := ops[..|ops| - 1], ops[|ops| - 1];
    match op
    case Inject(_) => assert Departures(ops) == Departures(before);
    case Get =>
      if After(before) == [] {
        assert Departures(ops) == Departures(before);
      } else {
        assert Departures(ops)[..|Departures(before)|] == Departures(before);
      }
    case Clear => ClearedDeliverNothing(Departures(before), After(before));
  }
}
