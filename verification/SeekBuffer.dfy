/** The seekable buffer device of 010_multi_char_driver/driver.c and the truncating one of
    011_chrdev_skeleton/driver.c as functions on values, for any capacity. */
module SeekBuffer {
  import opened Kernel

  /** A device of capacity |buf|; `len` bytes of it are data. */
  datatype Dev = Dev(buf: seq<byte>, len: nat) {
    predicate Valid() {
      len <= |buf|
    }
  }

  /** What a call leaves: the device, the caller's position, the return value, the bytes read. */
  datatype IO = IO(dev: Dev, pos: nat, ret: int, out: seq<byte>)

  function Loaded(cap: nat): Dev {
    Dev(Zeros(cap), 0)
  }

  function DoRead(d: Dev, pos: nat, count: nat, fault: bool): IO
    requires d.Valid()
  {
    if pos >= d.len then IO(d, pos, 0, [])
    else if fault then IO(d, pos, -EFAULT, [])
    else
      var n := Min(count, d.len - pos);
      IO(d, pos + n, n, d.buf[pos..pos + n])
  }

  /** How much of `count` bytes fits at `pos`. */
  function Fits(cap: nat, pos: nat, count: nat): (n: nat)
    requires pos < cap
    ensures n <= count && pos + n <= cap && (n < count ==> pos + n == cap)
  {
    Min(count, cap - pos)
  }

  /** A write; `fault` says that the copy from user space faults and what it leaves behind. */
  function DoWrite(d: Dev, pos: nat, data: seq<byte>, fault: Option<seq<byte>>): (io: IO)
    requires d.Valid()
    ensures io.dev.Valid() && |io.dev.buf| == |d.buf|
  {
    if pos >= |d.buf| then IO(d, pos, -ENOSPC, [])
    else
      var n := Fits(|d.buf|, pos, |data|);
      match fault
      case Some(junk) => IO(d.(buf := Scribble(d.buf, pos, n, junk)), pos, -EFAULT, [])
      case None => IO(Dev(Overlay(d.buf, pos, data[..n]), Max(d.len, pos + n)), pos + n, n, [])
  }

  /** What a write does, byte by byte: it takes as many bytes as fit, and touches no other. */
  lemma WriteMeaning(d: Dev, pos: nat, data: seq<byte>, fault: Option<seq<byte>>)
    requires d.Valid()
    ensures var io := DoWrite(d, pos, data, fault);
            && (pos >= |d.buf| ==> io == IO(d, pos, -ENOSPC, []))
            && (pos < |d.buf| ==>
                  var n := Min(|data|, |d.buf| - pos);
                  && (if fault.Some? then io.ret == -EFAULT && io.pos == pos && io.dev.len == d.len
                      else
                        && io.ret == n && io.pos == pos + n && io.dev.len == Max(d.len, io.pos)
                        && io.dev.buf[pos..pos + n] == data[..n])
                  && io.dev.buf[..pos] == d.buf[..pos] && io.dev.buf[pos + n..] == d.buf[pos + n..])
  {
  }

  /** The same write on the truncating device: its size is the end of this write. */
  function DoTruncWrite(d: Dev, pos: nat, data: seq<byte>, fault: Option<seq<byte>>): (io: IO)
    requires d.Valid()
    ensures io.dev.Valid() && |io.dev.buf| == |d.buf|
  {
    if pos >= |d.buf| then IO(d, pos, -ENOSPC, [])
    else
      var n := Fits(|d.buf|, pos, |data|);
      match fault
      case Some(junk) => IO(d.(buf := Scribble(d.buf, pos, n, junk)), pos, -EFAULT, [])
      case None => IO(Dev(Overlay(d.buf, pos, data[..n]), pos + n), pos + n, n, [])
  }

  /** On the truncating device only the size differs: it becomes the end of the write. */
  lemma TruncWriteMeaning(d: Dev, pos: nat, data: seq<byte>, fault: Option<seq<byte>>)
    requires d.Valid()
    ensures var io := DoTruncWrite(d, pos, data, fault);
            var whole := DoWrite(d, pos, data, fault);
            && io.(dev := io.dev.(len := 0)) == whole.(dev := whole.dev.(len := 0))
            && io.dev.len == if io.ret < 0 then d.len else io.pos
  {
  }

  function DoStore(d: Dev, data: seq<byte>): (r: Dev)
    requires d.Valid()
    ensures r.Valid() && |r.buf| == |d.buf|
  {
    var n := Min(|data|, |d.buf|);
    Dev(Overlay(d.buf, 0, data[..n]), n)
  }

  datatype Whence = SeekSet | SeekCur | SeekEnd | OtherWhence

  const TWO63: int := 0x8000_0000_0000_0000
  const TWO64: int := 0x1_0000_0000_0000_0000

  predicate IsInt64(x: int) {
    -TWO63 <= x < TWO63
  }

  /** Two's-complement wrap-around of a 64-bit sum. */
  function ToInt64(x: int): (r: int)
    ensures IsInt64(r)
  {
    var m := x % TWO64;
    if m >= TWO63 then m - TWO64 else m
  }

  function SeekBase(d: Dev, fpos: nat, whence: Whence): nat {
    match whence
    case SeekSet => 0
    case SeekCur => fpos
    case SeekEnd => d.len
    case OtherWhence => 0
  }

  /** The new position and the return value of a seek. */
  function DoSeek(d: Dev, fpos: nat, off: int, whence: Whence): (nat, int)
    requires d.Valid()
  {
    if whence.OtherWhence? then (fpos, -EINVAL)
    else
      var newpos := ToInt64(SeekBase(d, fpos, whence) + off);
      if newpos < 0 || newpos > |d.buf| then (fpos, -EINVAL) else (newpos, newpos)
  }

  /** Wrap-around never lets a seek through that ordinary arithmetic would refuse, nor the
      other way round: a valid whence is accepted exactly when the mathematical target lies
      in the buffer. */
  lemma SeekIsExact(d: Dev, fpos: nat, off: int, whence: Whence)
    requires d.Valid() && |d.buf| <= LLONG_MAX && fpos <= LLONG_MAX && IsInt64(off)
    ensures var (pos, ret) := DoSeek(d, fpos, off, whence);
            var target := SeekBase(d, fpos, whence) + off;
            if !whence.OtherWhence? && 0 <= target <= |d.buf|
            then pos == ret == target
            else pos == fpos && ret == -EINVAL
  {
    var x := SeekBase(d, fpos, whence) + off;
    if x >= TWO63 {
      assert x % TWO64 == x;
    } else if x < 0 {
      assert x % TWO64 == x + TWO64;
    } else {
      assert x % TWO64 == x;
    }
  }

  // ---- Runs of any number of open files on one device ----

  datatype Op =
    | Read(f: nat, count: nat, readFault: bool)
    | Write(f: nat, data: seq<byte>, writeFault: Option<seq<byte>>)
    | Seek(f: nat, off: int, whence: Whence)
    | Store(data: seq<byte>)
    | Reset

  datatype State = State(dev: Dev, pos: seq<nat>)

  datatype Reply = Reply(ret: int, out: seq<byte>)

  /** The operation names an open file, and its offset is a loff_t. */
  predicate OpOk(op: Op, files: nat) {
    match op
    case Read(f, _, _) => f < files
    case Write(f, _, _) => f < files
    case Seek(f, off, _) => f < files && IsInt64(off)
    case _ => true
  }

  function Step(s: State, op: Op): (r: (State, Reply))
    requires s.dev.Valid() && OpOk(op, |s.pos|)
    ensures r.0.dev.Valid() && |r.0.pos| == |s.pos| && |r.0.dev.buf| == |s.dev.buf|
  {
    match op
    case Read(f, count, fault) =>
      var io := DoRead(s.dev, s.pos[f], count, fault);
      (State(io.dev, s.pos[f := io.pos]), Reply(io.ret, io.out))
    case Write(f, data, fault) =>
      var io := DoWrite(s.dev, s.pos[f], data, fault);
      (State(io.dev, s.pos[f := io.pos]), Reply(io.ret, io.out))
    case Seek(f, off, whence) =>
      var (pos, ret) := DoSeek(s.dev, s.pos[f], off, whence);
      (s.(pos := s.pos[f := pos]), Reply(ret, []))
    case Store(data) => (s.(dev := DoStore(s.dev, data)), Reply(Min(|data|, |s.dev.buf|), []))
    case Reset => (s.(dev := Loaded(|s.dev.buf|)), Reply(0, []))
  }

  predicate OpsOk(ops: seq<Op>, files: nat) {
    forall i :: 0 <= i < |ops| ==> OpOk(ops[i], files)
  }

  /** The state after a run and the replies it gave. */
  function Run(s: State, ops: seq<Op>): (r: (State, seq<Reply>))
    requires s.dev.Valid() && OpsOk(ops, |s.pos|)
    ensures r.0.dev.Valid() && |r.0.pos| == |s.pos| && |r.0.dev.buf| == |s.dev.buf|
  {
    if ops == [] then (s, [])
    else
      var (s', replies) := Run(s, ops[..|ops| - 1]);
      var (s'', reply) := Step(s', ops[|ops| - 1]);
      (s'', replies + [reply])
  }

  function Start(cap: nat, files: nat): State {
    State(Loaded(cap), seq(files, i => 0))
  }

  predicate InBounds(s: State) {
    s.dev.Valid() && forall f :: 0 <= f < |s.pos| ==> s.pos[f] <= |s.dev.buf|
  }

  lemma {:induction false} RunKeepsBounds(s: State, ops: seq<Op>)
    requires InBounds(s) && OpsOk(ops, |s.pos|)
    ensures InBounds(Run(s, ops).0)
  {
    if ops != [] {
      RunKeepsBounds(s, ops[..|ops| - 1]);
    }
  }

  /** In every run, faults and data_store included, the data length and every file position
      stay within the buffer. */
  lemma RunsStayInBounds(cap: nat, files: nat, ops: seq<Op>)
    requires OpsOk(ops, files)
    ensures var s := Run(Start(cap, files), ops).0;
            s.dev.len <= cap == |s.dev.buf| && forall f :: 0 <= f < files ==> s.pos[f] <= cap
  {
    RunKeepsBounds(Start(cap, files), ops);
  }

  lemma {:induction false} RunConcat(s: State, a: seq<Op>, b: seq<Op>)
    requires s.dev.Valid() && OpsOk(a, |s.pos|) && OpsOk(b, |s.pos|)
    ensures OpsOk(a + b, |s.pos|)
    ensures var (s', replies) := Run(s, a);
            Run(s, a + b) == (Run(s', b).0, replies + Run(s', b).1)
  {
    if b == [] {
      assert a + b == a && Run(s, a).1 + [] == Run(s, a).1;
    } else {
      var before, op := b[..|b| - 1], b[|b| - 1];
      RunConcat(s, a, before);
      assert (a + b)[..|a + b| - 1] == a + before && (a + b)[|a + b| - 1] == op;
      var s' := Run(s, a).0;
      var last := Step(Run(s', before).0, op).1;
      assert Run(s, a).1 + Run(s', before).1 + [last] == Run(s, a).1 + (Run(s', before).1 + [last]);
    }
  }

  // ---- The bytes behind the data ----

  function Content(d: Dev): seq<byte>
    requires d.Valid()
  {
    d.buf[..d.len]
  }

  /** The bytes behind the data are zero up to `end`. */
  ghost predicate ZerosUpTo(d: Dev, end: int)
    requires end <= |d.buf|
  {
    forall i :: d.len <= i < end ==> d.buf[i] == 0
  }

  ghost predicate ZeroTail(d: Dev) {
    ZerosUpTo(d, |d.buf|)
  }

  /** data_store shortens the data without clearing what lay behind it: the bytes up to `end`
      stay zero exactly when it drops no non-zero byte below `end`. */
  lemma StoreKeepsZeros(d: Dev, data: seq<byte>, end: int)
    requires d.Valid() && end <= |d.buf| && ZerosUpTo(d, end)
    ensures ZerosUpTo(DoStore(d, data), end)
            <==> forall i :: |data| <= i < Min(d.len, end) ==> Content(d)[i] == 0
  {
    var d' := DoStore(d, data);
    if ZerosUpTo(d', end) {
      forall i | |data| <= i < Min(d.len, end)
        ensures Content(d)[i] == 0
      {
        assert d'.buf[i] == 0;
      }
    }
    if forall i :: |data| <= i < Min(d.len, end) ==> Content(d)[i] == 0 {
      forall i | d'.len <= i < end
        ensures d'.buf[i] == 0
      {
        if i < d.len {
          assert Content(d)[i] == d.buf[i];
        }
      }
    }
  }

  /** What a faulted write at `pos` left behind has no non-zero byte from the data's end up to
      `end`. */
  predicate JunkIsZero(d: Dev, pos: nat, n: nat, junk: seq<byte>, end: int) {
    forall j :: 0 <= j < Min(|junk|, n) && d.len <= pos + j < end ==> junk[j] == 0
  }

  lemma FaultKeepsZeros(d: Dev, pos: nat, data: seq<byte>, junk: seq<byte>, end: int)
    requires d.Valid() && end <= |d.buf| && ZerosUpTo(d, end) && pos < |d.buf|
    ensures ZerosUpTo(DoWrite(d, pos, data, Some(junk)).dev, end)
            <==> JunkIsZero(d, pos, Fits(|d.buf|, pos, |data|), junk, end)
  {
    var n := Fits(|d.buf|, pos, |data|);
    var d' := DoWrite(d, pos, data, Some(junk)).dev;
    if ZerosUpTo(d', end) {
      forall j | 0 <= j < Min(|junk|, n) && d.len <= pos + j < end
        ensures junk[j] == 0
      {
        assert d'.buf[pos + j] == 0;
      }
    }
  }

  /** The operation drops no non-zero byte of the data and leaves no junk behind it, as far as
      `end`. Only data_store and writes that fault can violate this. */
  predicate LeavesNoTrace(s: State, op: Op, end: int)
    requires s.dev.Valid() && OpOk(op, |s.pos|)
  {
    match op
    case Write(f, data, Some(junk)) =>
      s.pos[f] < |s.dev.buf| ==>
        JunkIsZero(s.dev, s.pos[f], Fits(|s.dev.buf|, s.pos[f], |data|), junk, end)
    case Store(data) => forall i :: |data| <= i < Min(s.dev.len, end) ==> Content(s.dev)[i] == 0
    case _ => true
  }

  lemma StepKeepsZeros(s: State, op: Op, end: int)
    requires s.dev.Valid() && OpOk(op, |s.pos|) && end <= |s.dev.buf| && ZerosUpTo(s.dev, end)
    ensures ZerosUpTo(Step(s, op).0.dev, end) <==> LeavesNoTrace(s, op, end)
  {
    match op
    case Write(f, data, Some(junk)) =>
      if s.pos[f] < |s.dev.buf| {
        FaultKeepsZeros(s.dev, s.pos[f], data, junk, end);
      }
    case Store(data) => StoreKeepsZeros(s.dev, data, end);
    case _ =>
  }

  ghost predicate ZerosAfter(s: State, ops: seq<Op>, end: int)
    requires s.dev.Valid() && OpsOk(ops, |s.pos|) && end <= |s.dev.buf|
  {
    ZerosUpTo(Run(s, ops).0.dev, end)
  }

  /** The bytes up to `end` are zero after every prefix of the run. */
  ghost predicate AlwaysZero(s: State, ops: seq<Op>, end: int)
    requires s.dev.Valid() && OpsOk(ops, |s.pos|) && end <= |s.dev.buf|
  {
    forall k :: 0 <= k <= |ops| ==> ZerosAfter(s, ops[..k], end)
  }

  /** No operation of the run leaves a trace as far as `end`. */
  ghost predicate TraceFree(s: State, ops: seq<Op>, end: int)
    requires s.dev.Valid() && OpsOk(ops, |s.pos|)
  {
    forall k :: 0 <= k < |ops| ==> LeavesNoTrace(Run(s, ops[..k]).0, ops[k], end)
  }

  lemma ZerosOneMore(s: State, ops: seq<Op>, k: nat, end: int)
    requires s.dev.Valid() && OpsOk(ops, |s.pos|) && end <= |s.dev.buf| && k < |ops|
    requires ZerosAfter(s, ops[..k], end)
    ensures ZerosAfter(s, ops[..k + 1], end) <==> LeavesNoTrace(Run(s, ops[..k]).0, ops[k], end)
  {
    assert ops[..k + 1][..k] == ops[..k];
    StepKeepsZeros(Run(s, ops[..k]).0, ops[k], end);
  }

  lemma {:induction false} ZerosWhileTraceFree(s: State, ops: seq<Op>, k: nat, end: int)
    requires s.dev.Valid() && OpsOk(ops, |s.pos|) && end <= |s.dev.buf| && k <= |ops|
    requires ZerosUpTo(s.dev, end) && TraceFree(s, ops, end)
    ensures ZerosAfter(s, ops[..k], end)
  {
    if k > 0 {
      ZerosWhileTraceFree(s, ops, k - 1, end);
      ZerosOneMore(s, ops, k - 1, end);
    }
  }

  lemma TraceFreeSplit(s: State, before: seq<Op>, op: Op, end: int)
    requires s.dev.Valid() && OpsOk(before + [op], |s.pos|) && OpsOk(before, |s.pos|) && OpOk(op, |s.pos|)
    ensures TraceFree(s, before + [op], end)
            <==> TraceFree(s, before, end) && LeavesNoTrace(Run(s, before).0, op, end)
  {
    var ops := before + [op];
    assert ops[..|before|] == before && ops[|before|] == op;
    assert forall k :: 0 <= k < |before| ==> before[..k] == ops[..k] && before[k] == ops[k];
  }

  lemma ZerosThroughout(s: State, ops: seq<Op>, end: int)
    requires s.dev.Valid() && OpsOk(ops, |s.pos|) && end <= |s.dev.buf| && ZerosUpTo(s.dev, end)
    ensures AlwaysZero(s, ops, end) <==> TraceFree(s, ops, end)
  {
    if AlwaysZero(s, ops, end) {
      forall k | 0 <= k < |ops|
        ensures LeavesNoTrace(Run(s, ops[..k]).0, ops[k], end)
      {
        ZerosOneMore(s, ops, k, end);
      }
    }
    if TraceFree(s, ops, end) {
      forall k | 0 <= k <= |ops|
        ensures ZerosAfter(s, ops[..k], end)
      {
        ZerosWhileTraceFree(s, ops, k, end);
      }
    }
  }

  /** The bytes behind the data stay zero through a whole run exactly when no data_store in it
      drops a non-zero byte of the data and no write that faults leaves one behind it. */
  lemma TailStaysZero(s: State, ops: seq<Op>)
    requires s.dev.Valid() && OpsOk(ops, |s.pos|) && ZeroTail(s.dev)
    ensures (forall k :: 0 <= k <= |ops| ==> ZeroTail(Run(s, ops[..k]).0.dev))
            <==> TraceFree(s, ops, |s.dev.buf|)
  {
    ZerosThroughout(s, ops, |s.dev.buf|);
    assert forall k :: 0 <= k <= |ops| ==> (ZerosAfter(s, ops[..k], |s.dev.buf|) <==> ZeroTail(Run(s, ops[..k]).0.dev));
  }

  // ---- The device as a sparse file ----

  /** The abstract file: a byte sequence with no slack behind it. */
  datatype AbsState = AbsState(content: seq<byte>, pos: seq<nat>)

  /** `content` after writing `data` at `pos`: a gap between the end and `pos` reads as zeros. */
  function FileWrite(content: seq<byte>, pos: nat, data: seq<byte>): (r: seq<byte>)
    ensures |r| == Max(|content|, pos + |data|)
    ensures forall i :: 0 <= i < |r| ==>
              r[i] == if pos <= i < pos + |data| then data[i - pos] else if i < |content| then content[i] else 0
  {
    var padded := if |content| < pos + |data| then content + Zeros(pos + |data| - |content|) else content;
    Overlay(padded, pos, data)
  }

  function FileRead(content: seq<byte>, pos: nat, count: nat): seq<byte> {
    if pos >= |content| then [] else content[pos..Min(pos + count, |content|)]
  }

  /** `content` after a write at `pos` that faulted and left `junk` behind: the file does not
      grow, so only what falls inside it is seen. */
  function FileFault(content: seq<byte>, pos: nat, junk: seq<byte>): (r: seq<byte>)
    ensures |r| == |content|
  {
    seq(|content|, i requires 0 <= i < |content| => if pos <= i < pos + |junk| then junk[i - pos] else content[i])
  }

  /** Fault-free reads, writes, seeks and resets. */
  predicate Plain(op: Op) {
    match op
    case Read(_, _, fault) => !fault
    case Write(_, _, fault) => fault.None?
    case Store(_) => false
    case _ => true
  }

  /** One operation on a file that may not outgrow `cap`. */
  function AbsStep(a: AbsState, cap: nat, op: Op): (r: (AbsState, Reply))
    requires OpOk(op, |a.pos|)
    ensures |r.0.pos| == |a.pos|
  {
    match op
    case Read(f, count, fault) =>
      var out := FileRead(a.content, a.pos[f], count);
      if fault && a.pos[f] < |a.content| then (a, Reply(-EFAULT, []))
      else (a.(pos := a.pos[f := a.pos[f] + |out|]), Reply(|out|, out))
    case Write(f, data, fault) =>
      if a.pos[f] >= cap then (a, Reply(-ENOSPC, []))
      else
        var n := Fits(cap, a.pos[f], |data|);
        var taken := data[..n];
        if fault.Some? then
          (a.(content := FileFault(a.content, a.pos[f], fault.value[..Min(|fault.value|, n)])), Reply(-EFAULT, []))
        else
          (AbsState(FileWrite(a.content, a.pos[f], taken), a.pos[f := a.pos[f] + |taken|]), Reply(|taken|, []))
    case Seek(f, off, whence) =>
      var base := match whence
                  case SeekCur => a.pos[f]
                  case SeekEnd => |a.content|
                  case _ => 0;
      if whence.OtherWhence? || !(0 <= base + off <= cap) then (a, Reply(-EINVAL, []))
      else (a.(pos := a.pos[f := base + off]), Reply(base + off, []))
    case Store(data) => (a.(content := data[..Min(|data|, cap)]), Reply(Min(|data|, cap), []))
    case Reset => (a.(content := []), Reply(0, []))
  }

  predicate AllPlain(ops: seq<Op>) {
    forall i :: 0 <= i < |ops| ==> Plain(ops[i])
  }

  function AbsRun(a: AbsState, cap: nat, ops: seq<Op>): (r: (AbsState, seq<Reply>))
    requires OpsOk(ops, |a.pos|)
    ensures |r.0.pos| == |a.pos|
  {
    if ops == [] then (a, [])
    else
      var (a', replies) := AbsRun(a, cap, ops[..|ops| - 1]);
      var (a'', reply) := AbsStep(a', cap, ops[|ops| - 1]);
      (a'', replies + [reply])
  }

  ghost predicate Represents(s: State, a: AbsState) {
    s.dev.Valid() && ZeroTail(s.dev) && a == AbsState(Content(s.dev), s.pos)
  }

  lemma SliceOfPrefix(buf: seq<byte>, len: nat, i: nat, j: nat)
    requires i <= j <= len <= |buf|
    ensures buf[..len][i..j] == buf[i..j]
  {
    forall k | 0 <= k < j - i
      ensures buf[..len][i..j][k] == buf[i..j][k]
    {
    }
  }

  lemma ReadIsSparse(d: Dev, pos: nat, count: nat)
    requires d.Valid()
    ensures var io := DoRead(d, pos, count, false);
            && io.dev == d && io.out == FileRead(Content(d), pos, count)
            && io.ret == |io.out| && io.pos == pos + |io.out|
  {
    if pos < d.len {
      var end := Min(pos + count, d.len);
      assert pos + Min(count, d.len - pos) == end;
      SliceOfPrefix(d.buf, d.len, pos, end);
    }
  }

  lemma WriteIsSparse(d: Dev, pos: nat, data: seq<byte>)
    requires d.Valid() && ZeroTail(d) && pos < |d.buf|
    ensures var d' := DoWrite(d, pos, data, None).dev;
            && ZeroTail(d')
            && Content(d') == FileWrite(Content(d), pos, data[..Fits(|d.buf|, pos, |data|)])
  {
    var d' := DoWrite(d, pos, data, None).dev;
    var taken := data[..Fits(|d.buf|, pos, |data|)];
    var file := FileWrite(Content(d), pos, taken);
    assert |Content(d')| == |file|;
    forall i | 0 <= i < |file|
      ensures Content(d')[i] == file[i]
    {
      assert Content(d')[i] == d'.buf[i];
    }
  }

  lemma FaultIsSparse(d: Dev, pos: nat, data: seq<byte>, junk: seq<byte>)
    requires d.Valid() && pos < |d.buf|
    ensures var n := Fits(|d.buf|, pos, |data|);
            Content(DoWrite(d, pos, data, Some(junk)).dev)
            == FileFault(Content(d), pos, junk[..Min(|junk|, n)])
  {
  }

  lemma WriteStepIsSparse(s: State, a: AbsState, f: nat, data: seq<byte>, fault: Option<seq<byte>>)
    requires Represents(s, a) && f < |s.pos| && LeavesNoTrace(s, Op.Write(f, data, fault), |s.dev.buf|)
    ensures var (s', reply) := Step(s, Op.Write(f, data, fault));
            var (a', reply') := AbsStep(a, |s.dev.buf|, Op.Write(f, data, fault));
            a'.content == Content(s'.dev) && a'.pos == s'.pos && reply == reply'
  {
    if s.pos[f] < |s.dev.buf| {
      if fault.Some? {
        FaultIsSparse(s.dev, s.pos[f], data, fault.value);
      } else {
        WriteIsSparse(s.dev, s.pos[f], data);
      }
    }
  }

  lemma StepIsSparse(s: State, a: AbsState, op: Op)
    requires Represents(s, a) && InBounds(s) && OpOk(op, |s.pos|) && |s.dev.buf| <= LLONG_MAX
    requires LeavesNoTrace(s, op, |s.dev.buf|)
    ensures var (s', reply) := Step(s, op);
            var (a', reply') := AbsStep(a, |s.dev.buf|, op);
            Represents(s', a') && reply == reply'
  {
    StepKeepsZeros(s, op, |s.dev.buf|);
    match op
    case Read(f, count, _) => ReadIsSparse(s.dev, s.pos[f], count);
    case Write(f, data, fault) => WriteStepIsSparse(s, a, f, data, fault);
    case Seek(f, off, whence) => SeekIsExact(s.dev, s.pos[f], off, whence);
    case Store(_) =>
    case Reset =>
  }

  /** Sparse-file refinement. From every state whose bytes behind the data are zero, every run
      that leaves no trace behind the data gives the replies of the abstract file, holds its
      content and keeps those bytes zero: any number of open files, and any operations, of
      which only data_store and writes that fault can leave a trace. */
  lemma {:induction false} RunIsSparseFile(s: State, a: AbsState, ops: seq<Op>)
    requires Represents(s, a) && InBounds(s) && |s.dev.buf| <= LLONG_MAX
    requires OpsOk(ops, |s.pos|) && TraceFree(s, ops, |s.dev.buf|)
    ensures var (s', replies) := Run(s, ops);
            var (a', replies') := AbsRun(a, |s.dev.buf|, ops);
            Represents(s', a') && replies == replies'
  {
    if ops != [] {
      var before, op := ops[..|ops| - 1], ops[|ops| - 1];
      assert ops == before + [op];
      TraceFreeSplit(s, before, op, |s.dev.buf|);
      RunIsSparseFile(s, a, before);
      RunKeepsBounds(s, before);
      StepIsSparse(Run(s, before).0, AbsRun(a, |s.dev.buf|, before).0, op);
    }
  }

  /** Fault-free reads, writes, seeks and resets leave no trace, whatever state they start in. */
  lemma PlainLeavesNoTrace(s: State, ops: seq<Op>, end: int)
    requires s.dev.Valid() && OpsOk(ops, |s.pos|) && AllPlain(ops)
    ensures TraceFree(s, ops, end)
  {
    forall k | 0 <= k < |ops|
      ensures LeavesNoTrace(Run(s, ops[..k]).0, ops[k], end)
    {
      assert Plain(ops[k]);
    }
  }

  /** So the device is a sparse file from load on. */
  lemma LoadedIsSparseFile(cap: nat, files: nat, ops: seq<Op>)
    requires cap <= LLONG_MAX && OpsOk(ops, files) && TraceFree(Start(cap, files), ops, cap)
    ensures var (s, replies) := Run(Start(cap, files), ops);
            var (a, replies') := AbsRun(AbsState([], seq(files, i => 0)), cap, ops);
            Represents(s, a) && replies == replies'
  {
    RunIsSparseFile(Start(cap, files), AbsState([], seq(files, i => 0)), ops);
  }

  /** And it is one from any reset on, whatever happened before it, faults and data_store
      included: the file is empty then and the positions are where they were. */
  lemma ResetIsSparseFile(cap: nat, files: nat, before: seq<Op>, ops: seq<Op>)
    requires cap <= LLONG_MAX && OpsOk(before, files) && OpsOk(ops, files)
    requires TraceFree(State(Loaded(cap), Run(Start(cap, files), before).0.pos), ops, cap)
    ensures OpsOk(before + [Reset] + ops, files)
    ensures var (s0, replies0) := Run(Start(cap, files), before);
            var (s, replies) := Run(Start(cap, files), before + [Reset] + ops);
            var (a, replies') := AbsRun(AbsState([], s0.pos), cap, ops);
            Represents(s, a) && replies == replies0 + [Reply(0, [])] + replies'
  {
    var s0 := Run(Start(cap, files), before).0;
    var all := before + [Reset];
    assert all[..|before|] == before;
    RunsStayInBounds(cap, files, before);
    RunConcat(Start(cap, files), all, ops);
    RunIsSparseFile(State(Loaded(cap), s0.pos), AbsState([], s0.pos), ops);
  }

  // ---- Holes ----

  /** What a read of the gap returns after a write at `pos`, behind the end of the data. */
  function Hole(d: Dev, pos: nat, data: seq<byte>): seq<byte>
    requires d.Valid() && d.len < pos < |d.buf|
  {
    DoRead(DoWrite(d, pos, data, None).dev, d.len, pos - d.len, false).out
  }

  /** Every gap that a seek and a write can now create reads as zeros. */
  ghost predicate HolesReadZero(d: Dev)
    requires d.Valid()
  {
    forall pos, data :: d.len < pos < |d.buf| ==> Hole(d, pos, data) == Zeros(pos - d.len)
  }

  /** A hole reads as whatever the buffer holds there. */
  lemma HoleReadsBuffer(d: Dev, pos: nat, data: seq<byte>)
    requires d.Valid() && d.len < pos < |d.buf|
    ensures Hole(d, pos, data) == d.buf[d.len..pos]
  {
    var d' := DoWrite(d, pos, data, None).dev;
    assert d'.buf[d.len..pos] == d.buf[d.len..pos];
  }

  /** Holes read as zeros exactly when all bytes behind the data but the buffer's last one,
      which no hole can reach, are zero. */
  lemma HolesReadZeroIff(d: Dev)
    requires d.Valid()
    ensures HolesReadZero(d) <==> ZerosUpTo(d, |d.buf| - 1)
  {
    if HolesReadZero(d) {
      forall i | d.len <= i < |d.buf| - 1
        ensures d.buf[i] == 0
      {
        HoleReadsBuffer(d, i + 1, []);
        assert d.buf[i] == Hole(d, i + 1, [])[i - d.len];
      }
    }
    if ZerosUpTo(d, |d.buf| - 1) {
      forall pos: nat, data: seq<byte> | d.len < pos < |d.buf|
        ensures Hole(d, pos, data) == Zeros(pos - d.len)
      {
        HoleReadsBuffer(d, pos, data);
      }
    }
  }

  /** The exact condition for a sparse file over whole runs, with faults and data_store: holes
      read as zeros at every moment of a run exactly when no data_store drops a non-zero byte of
      the data, and no write that faults leaves one behind it, except in the buffer's last byte. */
  lemma HolesStayZero(s: State, ops: seq<Op>)
    requires s.dev.Valid() && OpsOk(ops, |s.pos|) && HolesReadZero(s.dev)
    ensures (forall k :: 0 <= k <= |ops| ==> HolesReadZero(Run(s, ops[..k]).0.dev))
            <==> TraceFree(s, ops, |s.dev.buf| - 1)
  {
    HolesReadZeroIff(s.dev);
    ZerosThroughout(s, ops, |s.dev.buf| - 1);
    forall k | 0 <= k <= |ops|
      ensures HolesReadZero(Run(s, ops[..k]).0.dev) <==> ZerosAfter(s, ops[..k], |s.dev.buf| - 1)
    {
      HolesReadZeroIff(Run(s, ops[..k]).0.dev);
    }
  }

  /** A write that faults is enough for a hole to read as junk: the length stays 0, and the
      next write exposes what the first one left. */
  lemma FaultedHole()
    ensures var io := DoWrite(Loaded(4), 0, [5], Some([7]));
            && io.ret == -EFAULT && io.pos == 0 && io.dev.len == 0
            && Hole(io.dev, 1, [9]) == [7]
  {
    var d := DoWrite(Loaded(4), 0, [5], Some([7])).dev;
    assert d.buf[0] == 7;
    HoleReadsBuffer(d, 1, [9]);
  }

  /** With data_store in the run a hole need not read as zeros: store one byte, store
      nothing, write behind the gap, and the gap reads as the old byte. */
  lemma StaleHole()
    ensures var d := DoStore(DoStore(Loaded(4), [7]), []);
            && d.len == 0 && !ZeroTail(d)
            && Hole(d, 1, [9]) == [7]
  {
    var d := DoStore(DoStore(Loaded(4), [7]), []);
    assert d.buf[0] == 7;
    HoleReadsBuffer(d, 1, [9]);
  }
}
