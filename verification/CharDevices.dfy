/** The handlers of 010_multi_char_driver/driver.c and 011_chrdev_skeleton/driver.c, each
    proved against the functions of SeekBuffer. */
module CharDevices {
  import opened Kernel
  import opened SeekBuffer

  /** One device of 010: struct mydev_device. */
  class Device {
    const buf: array<byte>
    var len: nat
    var lockHeld: bool

    ghost predicate Valid()
      reads this
    {
      len <= buf.Length <= LLONG_MAX && !lockHeld
    }

    ghost function Snapshot(): Dev
      reads this, buf
    {
      Dev(buf[..], len)
    }

    constructor (capacity: nat)
      requires capacity <= LLONG_MAX
      ensures Valid() && fresh(buf) && Snapshot() == Loaded(capacity)
    {
      buf := new byte[capacity](i => 0);
      len := 0;
      lockHeld := false;
      new;
      assert buf[..] == Zeros(capacity);
    }

    method Lock(signal: bool) returns (interrupted: bool)
      requires !lockHeld
      modifies this`lockHeld
      ensures interrupted == signal && lockHeld == !signal
    {
      interrupted := signal;
      lockHeld := !signal;
    }

    method Unlock()
      requires lockHeld
      modifies this`lockHeld
      ensures !lockHeld
    {
      lockHeld := false;
    }

    /** What a write does while it holds the lock. */
    method WriteLocked(data: seq<byte>, ppos: nat, fault: Option<seq<byte>>) returns (ret: int, ppos': nat)
      requires lockHeld && len <= buf.Length
      modifies this`len, buf
      ensures len <= buf.Length
      ensures IO(Snapshot(), ppos', ret, []) == DoWrite(old(Snapshot()), ppos, data, fault)
    {
      ppos' := ppos;
      if ppos >= buf.Length {
        ret := -ENOSPC;
      } else {
        var n := |data|;
        if n > buf.Length - ppos {
          n := buf.Length - ppos;
        }
        if fault.Some? {
          Put(buf, ppos, if |fault.value| <= n then fault.value else fault.value[..n]);
          ret := -EFAULT;
        } else {
          Put(buf, ppos, data[..n]);
          ppos' := ppos + n;
          if len < ppos' {
            len := ppos';
          }
          ret := n;
        }
      }
    }

    method DataStore(data: seq<byte>, signal: bool) returns (ret: int)
      requires Valid()
      modifies this, buf
      ensures Valid()
      ensures if signal then ret == -ERESTARTSYS && Snapshot() == old(Snapshot())
              else ret == Min(|data|, buf.Length) && Snapshot() == DoStore(old(Snapshot()), data)
    {
      var interrupted := Lock(signal);
      if interrupted {
        return -ERESTARTSYS;
      }
      var count := |data|;
      if count > buf.Length {
        count := buf.Length;
      }
      Put(buf, 0, data[..count]);
      len := count;
      Unlock();
      return count;
    }

    method ResetStore(count: nat, signal: bool) returns (ret: int)
      requires Valid()
      modifies this, buf
      ensures Valid()
      ensures if signal then ret == -ERESTARTSYS && Snapshot() == old(Snapshot())
              else ret == count && Snapshot() == Loaded(buf.Length)
    {
      var interrupted := Lock(signal);
      if interrupted {
        return -ERESTARTSYS;
      }
      len := 0;
      Put(buf, 0, Zeros(buf.Length));
      Unlock();
      return count;
    }
  }

  /** An open file of 010: private_data and f_pos. Reads and writes get the position to use
      from their caller, which for the positional calls is not f_pos. */
  class OpenFile {
    var dev: Device?
    var fpos: nat

    constructor (d: Device)
      ensures dev == d && fpos == 0
    {
      dev := d;
      fpos := 0;
    }

    method Release()
      modifies this
      ensures dev == null && fpos == old(fpos)
    {
      dev := null;
    }

    method Read(count: nat, ppos: nat, fault: bool, signal: bool) returns (ret: int, ppos': nat, out: seq<byte>)
      requires dev != null ==> dev.Valid()
      modifies if dev == null then {} else {dev}
      ensures dev != null ==> dev.Valid() && dev.Snapshot() == old(dev.Snapshot())
      ensures dev == null ==> ret == -EINVAL && ppos' == ppos && out == []
      ensures dev != null && signal ==> ret == -ERESTARTSYS && ppos' == ppos && out == []
      ensures dev != null && !signal ==>
                && IO(dev.Snapshot(), ppos', ret, out) == DoRead(old(dev.Snapshot()), ppos, count, fault)
                && (if ppos >= dev.len then ret == 0 && ppos' == ppos && out == []
                    else if fault then ret == -EFAULT && ppos' == ppos && out == []
                    else ret == Min(count, dev.len - ppos) && ppos' == ppos + ret && out == dev.buf[ppos..ppos'])
    {
      ppos', out := ppos, [];
      var d := dev;
      if d == null {
        return -EINVAL, ppos', out;
      }
      var interrupted := d.Lock(signal);
      if interrupted {
        return -ERESTARTSYS, ppos', out;
      }
      if ppos >= d.len {
        ret := 0;
      } else {
        var n := count;
        if n > d.len - ppos {
          n := d.len - ppos;
        }
        if fault {
          ret := -EFAULT;
        } else {
          out := d.buf[ppos..ppos + n];
          ppos' := ppos + n;
          ret := n;
        }
      }
      d.Unlock();
    }

    method Write(data: seq<byte>, ppos: nat, fault: Option<seq<byte>>, signal: bool) returns (ret: int, ppos': nat)
      requires dev != null ==> dev.Valid()
      modifies if dev == null then {} else {dev, dev.buf}
      ensures dev != null ==> dev.Valid()
      ensures dev == null ==> ret == -EINVAL && ppos' == ppos
      ensures dev != null && signal ==> ret == -ERESTARTSYS && ppos' == ppos && dev.Snapshot() == old(dev.Snapshot())
      ensures dev != null && !signal ==>
                IO(dev.Snapshot(), ppos', ret, []) == DoWrite(old(dev.Snapshot()), ppos, data, fault)
    {
      ppos' := ppos;
      var d := dev;
      if d == null {
        return -EINVAL, ppos';
      }
      var interrupted := d.Lock(signal);
      if interrupted {
        return -ERESTARTSYS, ppos';
      }
      ret, ppos' := d.WriteLocked(data, ppos, fault);
      d.Unlock();
    }

    method Llseek(off: int, whence: Whence, signal: bool) returns (ret: int)
      requires dev != null ==> dev.Valid() && IsInt64(off) && fpos <= LLONG_MAX
      modifies this`fpos, if dev == null then {} else {dev}
      ensures dev == old(dev)
      ensures dev != null ==> dev.Valid() && dev.Snapshot() == old(dev.Snapshot())
      ensures dev == null ==> ret == -EINVAL && fpos == old(fpos)
      ensures dev != null && signal ==> ret == -ERESTARTSYS && fpos == old(fpos)
      ensures dev != null && !signal ==> (fpos, ret) == DoSeek(dev.Snapshot(), old(fpos), off, whence)
    {
      var d := dev;
      if d == null {
        return -EINVAL;
      }
      var interrupted := d.Lock(signal);
      if interrupted {
        return -ERESTARTSYS;
      }
      var newpos: int;
      match whence {
        case SeekSet => newpos := ToInt64(off);
        case SeekCur => newpos := ToInt64(fpos + off);
        case SeekEnd => newpos := ToInt64(d.len + off);
        case OtherWhence =>
          d.Unlock();
          return -EINVAL;
      }
      if newpos < 0 || newpos > d.buf.Length {
        d.Unlock();
        return -EINVAL;
      }
      fpos := newpos;
      d.Unlock();
      return newpos;
    }
  }

  /** The device of 011, whose size is the end of the last write. */
  class TruncDevice {
    const buffer: array<byte>
    var bufferSize: nat

    ghost predicate Valid()
      reads this
    {
      bufferSize <= buffer.Length
    }

    ghost function Snapshot(): Dev
      reads this, buffer
    {
      Dev(buffer[..], bufferSize)
    }

    constructor (capacity: nat)
      ensures Valid() && fresh(buffer) && Snapshot() == Loaded(capacity)
    {
      buffer := new byte[capacity](i => 0);
      bufferSize := 0;
      new;
      assert buffer[..] == Zeros(capacity);
    }

    method Read(count: nat, pos: nat, fault: bool) returns (ret: int, pos': nat, out: seq<byte>)
      requires Valid()
      ensures IO(Snapshot(), pos', ret, out) == DoRead(Snapshot(), pos, count, fault)
      ensures if pos >= bufferSize then ret == 0 && pos' == pos && out == []
              else if fault then ret == -EFAULT && pos' == pos && out == []
              else ret == Min(count, bufferSize - pos) && pos' == pos + ret && out == buffer[pos..pos']
    {
      if pos >= bufferSize {
        return 0, pos, [];
      }
      var available := bufferSize - pos;
      var n := count;
      if n > available {
        n := available;
      }
      if fault {
        return -EFAULT, pos, [];
      }
      return n, pos + n, buffer[pos..pos + n];
    }

    method Write(data: seq<byte>, pos: nat, fault: Option<seq<byte>>) returns (ret: int, pos': nat)
      requires Valid()
      modifies this, buffer
      ensures Valid()
      ensures IO(Snapshot(), pos', ret, []) == DoTruncWrite(old(Snapshot()), pos, data, fault)
    {
      if pos >= buffer.Length {
        return -ENOSPC, pos;
      }
      var available := buffer.Length - pos;
      var n := |data|;
      if n > available {
        n := available;
      }
      if fault.Some? {
        Put(buffer, pos, if |fault.value| <= n then fault.value else fault.value[..n]);
        return -EFAULT, pos;
      }
      Put(buffer, pos, data[..n]);
      bufferSize := pos + n;
      return n, pos + n;
    }
  }

  // ---- Whole runs of 010 ----

  ghost predicate AllOpenOn(files: seq<OpenFile>, d: Device)
    reads files
  {
    && (forall i :: 0 <= i < |files| ==> files[i].dev == d)
    && (forall i, j :: 0 <= i < j < |files| ==> files[i] != files[j])
  }

  ghost function Positions(files: seq<OpenFile>): (p: seq<nat>)
    reads files
    ensures |p| == |files|
  {
    seq(|files|, i requires 0 <= i < |files| reads files => files[i].fpos)
  }

  /** mydev_open, `n` times. */
  method OpenAll(d: Device, n: nat) returns (files: seq<OpenFile>)
    ensures fresh(files) && |files| == n && AllOpenOn(files, d)
    ensures Positions(files) == seq(n, i => 0)
  {
    files := [];
    for i := 0 to n
      invariant fresh(files) && |files| == i && AllOpenOn(files, d)
      invariant forall j :: 0 <= j < i ==> files[j].fpos == 0
    {
      var file := new OpenFile(d);
      files := files + [file];
    }
  }

  method ServeRead(d: Device, files: seq<OpenFile>, f: nat, count: nat, fault: bool) returns (reply: Reply)
    requires d.Valid() && AllOpenOn(files, d) && f < |files|
    modifies d, files[f]
    ensures d.Valid() && AllOpenOn(files, d)
    ensures (State(d.Snapshot(), Positions(files)), reply)
            == Step(State(old(d.Snapshot()), old(Positions(files))), Op.Read(f, count, fault))
  {
    var ret, pos, out := files[f].Read(count, files[f].fpos, fault, false);
    files[f].fpos := pos;
    assert Positions(files) == old(Positions(files))[f := pos];
    reply := Reply(ret, out);
  }

  method ServeWrite(d: Device, files: seq<OpenFile>, f: nat, data: seq<byte>, fault: Option<seq<byte>>)
    returns (reply: Reply)
    requires d.Valid() && AllOpenOn(files, d) && f < |files|
    modifies d, d.buf, files[f]
    ensures d.Valid() && AllOpenOn(files, d)
    ensures (State(d.Snapshot(), Positions(files)), reply)
            == Step(State(old(d.Snapshot()), old(Positions(files))), Op.Write(f, data, fault))
  {
    var ret, pos := files[f].Write(data, files[f].fpos, fault, false);
    files[f].fpos := pos;
    assert Positions(files) == old(Positions(files))[f := pos];
    reply := Reply(ret, []);
  }

  /** One call on one of the open files, with f_pos as its position. */
  method Serve(d: Device, files: seq<OpenFile>, op: Op) returns (reply: Reply)
    requires d.Valid() && AllOpenOn(files, d) && OpOk(op, |files|)
    requires forall i :: 0 <= i < |files| ==> files[i].fpos <= LLONG_MAX
    modifies d, d.buf, files
    ensures d.Valid() && AllOpenOn(files, d)
    ensures (State(d.Snapshot(), Positions(files)), reply)
            == Step(State(old(d.Snapshot()), old(Positions(files))), op)
  {
    match op
    case Read(f, count, fault) => reply := ServeRead(d, files, f, count, fault);
    case Write(f, data, fault) => reply := ServeWrite(d, files, f, data, fault);
    case Seek(f, off, whence) =>
      var ret := files[f].Llseek(off, whence, false);
      assert Positions(files) == old(Positions(files))[f := files[f].fpos];
      reply := Reply(ret, []);
    case Store(data) =>
      var ret := d.DataStore(data, false);
      assert Positions(files) == old(Positions(files));
      reply := Reply(ret, []);
    case Reset =>
      var ret := d.ResetStore(0, false);
      assert Positions(files) == old(Positions(files));
      reply := Reply(ret, []);
  }

  /** Any run on a freshly loaded device gives the replies of the model. If it leaves no trace
      behind the data they are those of a sparse file; so they are in particular if it consists
      of fault-free reads, writes, seeks and resets. */
  method Play(capacity: nat, n: nat, ops: seq<Op>) returns (replies: seq<Reply>)
    requires capacity <= LLONG_MAX && OpsOk(ops, n)
    ensures replies == Run(Start(capacity, n), ops).1
    ensures TraceFree(Start(capacity, n), ops, capacity) || AllPlain(ops) ==>
              replies == AbsRun(AbsState([], seq(n, i => 0)), capacity, ops).1
  {
    var d := new Device(capacity);
    var files := OpenAll(d, n);
    replies := [];
    for i := 0 to |ops|
      invariant d.Valid() && fresh(d) && fresh(d.buf) && fresh(files) && |files| == n && AllOpenOn(files, d)
      invariant (State(d.Snapshot(), Positions(files)), replies) == Run(Start(capacity, n), ops[..i])
    {
      assert ops[..i + 1][..i] == ops[..i];
      RunsStayInBounds(capacity, n, ops[..i]);
      assert forall k :: 0 <= k < n ==> files[k].fpos == Positions(files)[k];
      assert OpOk(ops[i], n);
      var reply := Serve(d, files, ops[i]);
      replies := replies + [reply];
    }
    assert ops[..|ops|] == ops;
    if AllPlain(ops) {
      PlainLeavesNoTrace(Start(capacity, n), ops, capacity);
    }
    if TraceFree(Start(capacity, n), ops, capacity) {
      LoadedIsSparseFile(capacity, n, ops);
    }
  }
}
