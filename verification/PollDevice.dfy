/** The event device of 014_poll_select/poll.c: one buffered message per minor, poll, and
    reads that consume it piece by piece. Each handler is one atomic step. */
module PollDevice {
  import opened Kernel

  const DEVICE_CNT: nat := 2
  const BUF_SIZE: nat := 128

  /** One minor: event_flag, buffer and buffer_size. */
  datatype Dev = Dev(flag: bool, buffer: seq<byte>, size: nat) {
    predicate Valid() {
      |buffer| == BUF_SIZE && size <= BUF_SIZE
    }

    /** The bytes a reader can still get at. */
    function Data(): seq<byte>
      requires Valid()
    {
      buffer[..size]
    }
  }

  const FRESH_DEV := Dev(false, Zeros(BUF_SIZE), 0)

  datatype IO = IO(dev: Dev, pos: nat, ret: int, out: seq<byte>)

  /** simple_read_from_buffer, of which copy_to_user leaves `uncopied` bytes behind. */
  function SimpleRead(d: Dev, pos: nat, len: nat, uncopied: nat): IO
    requires d.Valid()
  {
    if pos >= d.size || len == 0 then IO(d, pos, 0, [])
    else
      var n := Min(len, d.size - pos);
      var left := Min(uncopied, n);
      if left == n then IO(d, pos, -EFAULT, [])
      else IO(d, pos + n - left, n - left, d.buffer[pos..pos + n - left])
  }

  /** my_read. A blocking read without an event gets here only when a signal ended its wait,
      which the code ignores; otherwise it takes its step once there is an event. */
  function DoRead(d: Dev, pos: nat, len: nat, nonblock: bool, uncopied: nat): (io: IO)
    requires d.Valid()
    ensures io.dev.Valid()
  {
    if !d.flag && nonblock then IO(d, pos, -EAGAIN, [])
    else
      var io := SimpleRead(d, pos, len, uncopied);
      if io.pos >= d.size then io.(dev := d.(flag := false, size := 0)) else io
  }

  /** my_write; it resets the position of its own file only. */
  function DoWrite(d: Dev, pos: nat, data: seq<byte>, fault: Option<seq<byte>>): (io: IO)
    requires d.Valid()
    ensures io.dev.Valid()
  {
    var n := Min(|data|, BUF_SIZE);
    match fault
    case Some(junk) => IO(d.(buffer := Scribble(d.buffer, 0, n, junk)), pos, -EFAULT, [])
    case None => IO(Dev(true, Overlay(d.buffer, 0, data[..n]), n), 0, n, [])
  }

  /** The message a write leaves for the readers. */
  function Message(data: seq<byte>): seq<byte> {
    data[..Min(|data|, BUF_SIZE)]
  }

  lemma WriteLeavesMessage(d: Dev, pos: nat, data: seq<byte>)
    requires d.Valid()
    ensures var d' := DoWrite(d, pos, data, None).dev;
            d'.flag && d'.Data() == Message(data)
  {
  }

  /** What a read returns: the number of bytes it delivered, by which its position moved, or
      an error, and then it delivered nothing and its position stayed. */
  lemma ReadReturns(d: Dev, pos: nat, len: nat, nonblock: bool, uncopied: nat)
    requires d.Valid()
    ensures var io := DoRead(d, pos, len, nonblock, uncopied);
            && (if io.ret >= 0 then io.ret == |io.out| else io.ret in {-EAGAIN, -EFAULT} && io.out == [])
            && io.pos == pos + |io.out|
            && (io.ret == -EAGAIN <==> !d.flag && nonblock)
            && (io.out != [] ==> io.pos <= d.size && io.out == d.Data()[pos..io.pos])
  {
  }

  // ---- A reader that polls and reads ----

  /** Polls before each read and reads only when poll reports data, with the given sizes. */
  function PollAndRead(d: Dev, pos: nat, sizes: seq<nat>): (io: IO)
    requires d.Valid()
    ensures io.dev.Valid()
    decreases |sizes|
  {
    if sizes == [] || !d.flag then IO(d, pos, 0, [])
    else
      var first := DoRead(d, pos, sizes[0], false, 0);
      var rest := PollAndRead(first.dev, first.pos, sizes[1..]);
      rest.(ret := first.ret + rest.ret, out := first.out + rest.out)
  }

  predicate Positive(sizes: seq<nat>) {
    forall i :: 0 <= i < |sizes| ==> sizes[i] > 0
  }

  function Sum(sizes: seq<nat>): nat
    decreases |sizes|
  {
    if sizes == [] then 0 else sizes[0] + Sum(sizes[1..])
  }

  lemma Joined(data: seq<byte>, i: nat, j: nat, k: nat)
    requires i <= j <= |data|
    ensures j <= k <= |data| ==> data[i..j] + data[j..k] == data[i..k]
    ensures data[i..j] + data[j..] == data[i..]
  {
  }

  /** What a polling reader gets from position `pos` on, whatever the sizes of its reads:
      the data from there, in order and without gaps; poll goes on reporting data exactly
      as long as the reader has not reached the end. */
  lemma {:induction false} ReadsReassemble(d: Dev, pos: nat, sizes: seq<nat>)
    requires d.Valid() && d.flag && Positive(sizes) && sizes != []
    ensures var io := PollAndRead(d, pos, sizes);
            var start := Min(pos, d.size);
            && (io.dev.flag <==> pos + Sum(sizes) < d.size)
            && (if io.dev.flag
                then io.dev == d && io.pos == pos + Sum(sizes) && io.out == d.Data()[pos..io.pos]
                else io.dev == d.(flag := false, size := 0) && io.out == d.Data()[start..])
    decreases |sizes|
  {
    var first := DoRead(d, pos, sizes[0], false, 0);
    OneRead(d, pos, sizes[0]);
    if first.dev.flag && sizes[1..] != [] {
      ReadsReassemble(d, first.pos, sizes[1..]);
      Joined(d.Data(), pos, first.pos, PollAndRead(d, first.pos, sizes[1..]).pos);
    }
  }

  /** What the reads return adds up to what they delivered. */
  lemma {:induction false} ReadsReturnTotal(d: Dev, pos: nat, sizes: seq<nat>)
    requires d.Valid() && Positive(sizes)
    ensures PollAndRead(d, pos, sizes).ret == |PollAndRead(d, pos, sizes).out|
    decreases |sizes|
  {
    if sizes != [] && d.flag {
      var first := DoRead(d, pos, sizes[0], false, 0);
      OneRead(d, pos, sizes[0]);
      ReadsReturnTotal(first.dev, first.pos, sizes[1..]);
    }
  }

  lemma OneRead(d: Dev, pos: nat, len: nat)
    requires d.Valid() && d.flag && len > 0
    ensures var io := DoRead(d, pos, len, false, 0);
            io.ret == |io.out| &&
            if pos + len < d.size then io.dev == d && io.pos == pos + len && io.out == d.Data()[pos..io.pos]
            else io.dev == d.(flag := false, size := 0) && io.out == d.Data()[Min(pos, d.size)..]
  {
  }

  /** Reassembly. A reader at position `pos` when a non-empty message is written, polling and
      reading in any positive sizes until poll reports nothing more, has received the whole
      message exactly if its position was 0; from a later position it loses the beginning,
      and from the end on all of it. */
  lemma ReaderGetsMessage(d: Dev, writer: nat, data: seq<byte>, pos: nat, sizes: seq<nat>)
    requires d.Valid() && data != [] && Positive(sizes) && sizes != []
    ensures var m := Message(data);
            var io := PollAndRead(DoWrite(d, writer, data, None).dev, pos, sizes);
            && (io.dev.flag <==> pos + Sum(sizes) < |m|)
            && (!io.dev.flag ==> io.out == m[Min(pos, |m|)..] && (io.out == m <==> pos == 0))
  {
    WriteLeavesMessage(d, writer, data);
    ReadsReassemble(DoWrite(d, writer, data, None).dev, pos, sizes);
  }

  /** The read that takes the last byte clears the event; no earlier one does. */
  lemma LastByteClearsEvent(d: Dev, pos: nat, len: nat)
    requires d.Valid() && d.flag && pos < d.size && len > 0
    ensures var io := DoRead(d, pos, len, true, 0);
            && (io.dev.flag <==> pos + len < d.size)
            && (!io.dev.flag <==> io.out == d.Data()[pos..])
  {
    var io := DoRead(d, pos, len, true, 0);
    if io.dev.flag {
      assert |io.out| < |d.Data()[pos..]|;
    }
  }

  // ---- Runs of any number of open files on all minors ----

  datatype Op =
    | Read(f: nat, len: nat, nonblock: bool, uncopied: nat)
    | Write(f: nat, data: seq<byte>, fault: Option<seq<byte>>)

  datatype File = File(minor: nat, pos: nat)

  datatype State = State(devs: seq<Dev>, files: seq<File>) {
    predicate Valid() {
      && |devs| == DEVICE_CNT
      && (forall m :: 0 <= m < |devs| ==> devs[m].Valid())
      && (forall f :: 0 <= f < |files| ==> files[f].minor < DEVICE_CNT)
    }
  }

  function Serve(d: Dev, pos: nat, op: Op): (io: IO)
    requires d.Valid()
    ensures io.dev.Valid()
  {
    match op
    case Read(_, len, nonblock, uncopied) => DoRead(d, pos, len, nonblock, uncopied)
    case Write(_, data, fault) => DoWrite(d, pos, data, fault)
  }

  function Step(s: State, op: Op): (r: State)
    requires s.Valid() && op.f < |s.files|
    ensures r.Valid() && |r.files| == |s.files|
    ensures forall f :: 0 <= f < |s.files| ==> r.files[f].minor == s.files[f].minor
  {
    var file := s.files[op.f];
    var io := Serve(s.devs[file.minor], file.pos, op);
    State(s.devs[file.minor := io.dev], s.files[op.f := file.(pos := io.pos)])
  }

  /** No event, no data. */
  predicate Quiet(d: Dev) {
    !d.flag ==> d.size == 0
  }

  predicate AllQuiet(s: State) {
    forall m :: 0 <= m < |s.devs| ==> Quiet(s.devs[m])
  }

  function Run(s: State, ops: seq<Op>): (r: State)
    requires s.Valid() && forall i :: 0 <= i < |ops| ==> ops[i].f < |s.files|
    ensures r.Valid() && |r.files| == |s.files|
    ensures forall f :: 0 <= f < |s.files| ==> r.files[f].minor == s.files[f].minor
  {
    if ops == [] then s else Step(Run(s, ops[..|ops| - 1]), ops[|ops| - 1])
  }

  function Start(minors: seq<nat>): (s: State)
    requires forall f :: 0 <= f < |minors| ==> minors[f] < DEVICE_CNT
    ensures s.Valid() && |s.files| == |minors| && s.devs == [FRESH_DEV, FRESH_DEV]
  {
    State([FRESH_DEV, FRESH_DEV], seq(|minors|, f requires 0 <= f < |minors| => File(minors[f], 0)))
  }

  /** In every run, with faults, signals and short copies, a minor without an event holds no
      data. */
  lemma {:induction false} NoEventMeansNoData(minors: seq<nat>, ops: seq<Op>)
    requires forall f :: 0 <= f < |minors| ==> minors[f] < DEVICE_CNT
    requires forall i :: 0 <= i < |ops| ==> ops[i].f < |minors|
    ensures AllQuiet(Run(Start(minors), ops))
  {
    if ops != [] {
      NoEventMeansNoData(minors, ops[..|ops| - 1]);
    }
  }

  /** A run changes neither a minor none of its files is open on, nor the position of a file
      it does not use. */
  lemma {:induction false} MinorsAreIndependent(s: State, ops: seq<Op>, m: nat)
    requires s.Valid() && m < DEVICE_CNT
    requires forall i :: 0 <= i < |ops| ==> ops[i].f < |s.files| && s.files[ops[i].f].minor != m
    ensures Run(s, ops).devs[m] == s.devs[m]
    ensures forall f :: 0 <= f < |s.files| && s.files[f].minor == m ==> Run(s, ops).files[f] == s.files[f]
  {
    if ops != [] {
      MinorsAreIndependent(s, ops[..|ops| - 1], m);
    }
  }

  /** The reader of `PollAndRead` as steps of a run: file `f` reads as long as poll reports data. */
  function PollingReads(s: State, f: nat, sizes: seq<nat>): (r: (State, seq<byte>))
    requires s.Valid() && f < |s.files|
    ensures r.0.Valid() && |r.0.files| == |s.files|
    decreases |sizes|
  {
    var file := s.files[f];
    if sizes == [] || !s.devs[file.minor].flag then (s, [])
    else
      var op := Read(f, sizes[0], false, 0);
      var out := Serve(s.devs[file.minor], file.pos, op).out;
      var (s', rest) := PollingReads(Step(s, op), f, sizes[1..]);
      (s', out + rest)
  }

  lemma {:induction false} PollingReadsArePollAndRead(s: State, f: nat, sizes: seq<nat>)
    requires s.Valid() && f < |s.files|
    ensures var file := s.files[f];
            var io := PollAndRead(s.devs[file.minor], file.pos, sizes);
            var (s', out) := PollingReads(s, f, sizes);
            out == io.out && s'.devs == s.devs[file.minor := io.dev] && s'.files == s.files[f := file.(pos := io.pos)]
    decreases |sizes|
  {
    var file := s.files[f];
    if sizes != [] && s.devs[file.minor].flag {
      PollingReadsArePollAndRead(Step(s, Read(f, sizes[0], false, 0)), f, sizes[1..]);
    }
  }

  /** A write rewinds its own file: whatever the position of file `f` was, after a fault-free
      non-empty write through it, polling and reading through it in any positive sizes until
      poll reports nothing more delivers exactly the message. A file of the same minor whose
      position is 0 gets it too. */
  lemma WriterReadsBack(s: State, f: nat, data: seq<byte>, g: nat, sizes: seq<nat>)
    requires s.Valid() && f < |s.files| && g < |s.files| && data != [] && Positive(sizes) && sizes != []
    requires g == f || (s.files[g].minor == s.files[f].minor && s.files[g].pos == 0)
    ensures var s1 := Step(s, Write(f, data, None));
            var (s2, out) := PollingReads(s1, g, sizes);
            && s1.files[f].pos == 0
            && (s2.devs[s.files[f].minor].flag <==> Sum(sizes) < |Message(data)|)
            && (!s2.devs[s.files[f].minor].flag ==> out == Message(data))
  {
    var s1 := Step(s, Write(f, data, None));
    PollingReadsArePollAndRead(s1, g, sizes);
    ReaderGetsMessage(s.devs[s.files[f].minor], s.files[f].pos, data, 0, sizes);
  }

  // ---- The driver's code ----

  class Driver {
    const eventFlag: array<bool>
    const buffer: array2<byte>
    const bufferSize: array<nat>

    ghost predicate Shape() {
      && eventFlag.Length == bufferSize.Length == DEVICE_CNT
      && buffer.Length0 == DEVICE_CNT && buffer.Length1 == BUF_SIZE
    }

    ghost function Snapshot(m: nat): Dev
      requires Shape() && m < DEVICE_CNT
      reads eventFlag, buffer, bufferSize
    {
      Dev(eventFlag[m],
          seq(BUF_SIZE, i requires 0 <= i < BUF_SIZE && Shape() reads buffer => buffer[m, i]),
          bufferSize[m])
    }

    ghost predicate Valid()
      reads eventFlag, buffer, bufferSize
    {
      Shape() && forall m :: 0 <= m < DEVICE_CNT ==> Snapshot(m).Valid()
    }

    constructor ()
      ensures Valid() && fresh(eventFlag) && fresh(buffer) && fresh(bufferSize)
      ensures forall m :: 0 <= m < DEVICE_CNT ==> Snapshot(m) == FRESH_DEV
    {
      eventFlag := new bool[DEVICE_CNT](i => false);
      buffer := new byte[DEVICE_CNT, BUF_SIZE]((i, j) => 0);
      bufferSize := new nat[DEVICE_CNT](i => 0);
      new;
      assert forall m :: 0 <= m < DEVICE_CNT ==> Snapshot(m).buffer == Zeros(BUF_SIZE);
    }

    method MyPoll(minor: nat) returns (readable: bool)
      requires Valid() && minor < DEVICE_CNT
      ensures readable == Snapshot(minor).flag
    {
      readable := false;
      if eventFlag[minor] {
        readable := true;
      }
    }

    method MyRead(minor: nat, len: nat, pos: nat, nonblock: bool, uncopied: nat)
      returns (ret: int, pos': nat, out: seq<byte>)
      requires Valid() && minor < DEVICE_CNT
      modifies eventFlag, bufferSize
      ensures Valid()
      ensures IO(Snapshot(minor), pos', ret, out) == DoRead(old(Snapshot(minor)), pos, len, nonblock, uncopied)
      ensures nonblock && !old(eventFlag[minor]) ==>
                ret == -EAGAIN && pos' == pos && out == [] && Snapshot(minor) == old(Snapshot(minor))
      ensures !nonblock || old(eventFlag[minor]) ==>
                var size := old(bufferSize[minor]);
                var n := if pos < size then Min(len, size - pos) else 0;
                && ret == (if n > 0 && uncopied >= n then -EFAULT else Max(0, n - uncopied))
                && pos' == pos + |out| && |out| == Max(ret, 0)
                && (forall i :: 0 <= i < |out| ==> out[i] == old(buffer[minor, pos + i]))
                && Snapshot(minor) == if pos' >= size then old(Snapshot(minor)).(flag := false, size := 0)
                                      else old(Snapshot(minor))
      ensures forall m :: 0 <= m < DEVICE_CNT && m != minor ==> Snapshot(m) == old(Snapshot(m))
    {
      assert Snapshot(minor).Valid();
      if !eventFlag[minor] {
        if nonblock {
          return -EAGAIN, pos, [];
        }
      }
      ret, pos', out := SimpleReadFromBuffer(minor, len, pos, uncopied);
      if pos' >= bufferSize[minor] {
        eventFlag[minor] := false;
        bufferSize[minor] := 0;
      }
      assert Snapshot(minor).buffer == old(Snapshot(minor)).buffer;
      assert forall m :: 0 <= m < DEVICE_CNT ==> Snapshot(m).buffer == old(Snapshot(m)).buffer;
    }

    method SimpleReadFromBuffer(minor: nat, len: nat, pos: nat, uncopied: nat)
      returns (ret: int, pos': nat, out: seq<byte>)
      requires Valid() && minor < DEVICE_CNT
      ensures Snapshot(minor).Valid()
      ensures IO(Snapshot(minor), pos', ret, out) == SimpleRead(Snapshot(minor), pos, len, uncopied)
    {
      assert Snapshot(minor).Valid();
      if pos >= bufferSize[minor] || len == 0 {
        return 0, pos, [];
      }
      var n := len;
      if n > bufferSize[minor] - pos {
        n := bufferSize[minor] - pos;
      }
      var left := Min(uncopied, n);
      if left == n {
        return -EFAULT, pos, [];
      }
      out := [];
      for i := 0 to n - left
        invariant out == Snapshot(minor).buffer[pos..pos + i]
      {
        out := out + [buffer[minor, pos + i]];
      }
      return n - left, pos + n - left, out;
    }

    method MyWrite(minor: nat, data: seq<byte>, pos: nat, fault: Option<seq<byte>>) returns (ret: int, pos': nat)
      requires Valid() && minor < DEVICE_CNT
      modifies eventFlag, buffer, bufferSize
      ensures Valid()
      ensures IO(Snapshot(minor), pos', ret, []) == DoWrite(old(Snapshot(minor)), pos, data, fault)
      ensures fault.None? ==>
                && pos' == 0 && ret == Min(|data|, BUF_SIZE)
                && Snapshot(minor).flag && Snapshot(minor).Data() == data[..ret]
      ensures fault.Some? ==>
                && pos' == pos && ret == -EFAULT
                && Snapshot(minor).flag == old(eventFlag[minor]) && Snapshot(minor).size == old(bufferSize[minor])
      ensures forall m :: 0 <= m < DEVICE_CNT && m != minor ==> Snapshot(m) == old(Snapshot(m))
    {
      assert forall m :: 0 <= m < DEVICE_CNT ==> Snapshot(m).Valid();
      var n := |data|;
      if n > BUF_SIZE {
        n := BUF_SIZE;
      }
      if fault.Some? {
        CopyIn(minor, if |fault.value| <= n then fault.value else fault.value[..n]);
        return -EFAULT, pos;
      }
      CopyIn(minor, data[..n]);
      bufferSize[minor] := n;
      eventFlag[minor] := true;
      assert forall m :: 0 <= m < DEVICE_CNT && m != minor ==> Snapshot(m) == old(Snapshot(m));
      assert Snapshot(minor).buffer == Overlay(old(Snapshot(minor)).buffer, 0, data[..n]);
      return n, 0;
    }

    method CopyIn(minor: nat, bytes: seq<byte>)
      requires Valid() && minor < DEVICE_CNT && |bytes| <= BUF_SIZE
      modifies buffer
      ensures Snapshot(minor) == old(Snapshot(minor)).(buffer := Overlay(old(Snapshot(minor)).buffer, 0, bytes))
      ensures forall m :: 0 <= m < DEVICE_CNT && m != minor ==> Snapshot(m) == old(Snapshot(m))
    {
      assert Snapshot(minor).Valid();
      for i := 0 to |bytes|
        invariant forall m, j :: 0 <= m < DEVICE_CNT && 0 <= j < BUF_SIZE ==>
                    buffer[m, j] == if m == minor && j < i then bytes[j] else old(buffer[m, j])
      {
        buffer[minor, i] := bytes[i];
      }
      assert Snapshot(minor).buffer == Overlay(old(Snapshot(minor)).buffer, 0, bytes);
      assert forall m :: 0 <= m < DEVICE_CNT && m != minor ==> Snapshot(m).buffer == old(Snapshot(m)).buffer;
    }
  }
}
