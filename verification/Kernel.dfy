/** Vocabulary shared by the driver models: bytes, error numbers, partial overwrites
    of a buffer, and the index ranges that copies work through. */
module Kernel {

  type byte = b: int | 0 <= b < 256

  datatype Option<+T> = None | Some(value: T)

  // Linux error numbers; handlers return them negated.
  const EPERM: int := 1
  const EIO: int := 5
  const EAGAIN: int := 11
  const ENOMEM: int := 12
  const EFAULT: int := 14
  const EINVAL: int := 22
  const ENOSPC: int := 28
  const ETIMEDOUT: int := 110
  const ERESTARTSYS: int := 512

  // The largest loff_t; the VFS keeps pos + count below it.
  const LLONG_MAX: int := 0x7FFF_FFFF_FFFF_FFFF

  function Min(a: int, b: int): (m: int)
    ensures m <= a && m <= b && (m == a || m == b)
  {
    if a <= b then a else b
  }

  function Max(a: int, b: int): (m: int)
    ensures a <= m && b <= m && (m == a || m == b)
  {
    if a <= b then b else a
  }

  function Zeros(n: nat): (z: seq<byte>)
    ensures |z| == n && forall i :: 0 <= i < n ==> z[i] == 0
  {
    seq(n, i => 0)
  }

  /** `buf` with `data` written over it from index `off` on. */
  function Overlay(buf: seq<byte>, off: nat, data: seq<byte>): (r: seq<byte>)
    requires off + |data| <= |buf|
    ensures |r| == |buf|
    ensures forall i :: 0 <= i < |buf| ==>
                          r[i] == if off <= i < off + |data| then data[i - off] else buf[i]
  {
    buf[..off] + data + buf[off + |data|..]
  }

  /** What a faulting copy of `n` bytes to `off` may leave behind: any change inside
      the requested range and nothing outside it. */
  function Scribble(buf: seq<byte>, off: nat, n: nat, junk: seq<byte>): (r: seq<byte>)
    requires off + n <= |buf|
    ensures |r| == |buf|
    ensures forall i :: 0 <= i < |buf| && !(off <= i < off + n) ==> r[i] == buf[i]
    ensures forall i :: off <= i < off + Min(n, |junk|) ==> r[i] == junk[i - off]
  {
    Overlay(buf, off, if |junk| <= n then junk else junk[..n])
  }

  /** Writes `data` over `a` from `off` on. */
  method Put(a: array<byte>, off: nat, data: seq<byte>)
    requires off + |data| <= a.Length
    modifies a
    ensures a[..] == Overlay(old(a[..]), off, data)
  {
    for i := 0 to |data|
      invariant forall j :: 0 <= j < a.Length ==>
                  a[j] == if off <= j < off + i then data[j - off] else old(a[j])
    {
      a[off + i] := data[i];
    }
  }

  predicate Below(j: nat, n: nat) {
    j < n
  }

  /** The indices 0 .. n-1. */
  function Range(n: nat): (r: set<nat>)
    ensures forall j :: j in r <==> 0 <= j < n
  {
    set j: nat | j < n && Below(j, n)
  }

  lemma {:induction false} RangeSize(n: nat)
    ensures |Range(n)| == n
  {
    if n == 0 {
      assert Range(0) == {};
    } else {
      RangeSize(n - 1);
      assert Range(n) == Range(n - 1) + {n - 1};
    }
  }
}
