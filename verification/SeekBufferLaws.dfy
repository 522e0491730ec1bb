/** Laws of the buffer devices that span several calls: splitting a transfer into pieces
    does not matter, and when the devices of 010 and 011 behave alike. */
module SeekBufferLaws {
  import opened Kernel
  import opened SeekBuffer

  // ---- Chunking ----

  function Concat(chunks: seq<seq<byte>>): seq<byte> {
    if chunks == [] then [] else chunks[0] + Concat(chunks[1..])
  }

  /** The writes of a list of pieces, one after the other from `pos` on; `ret` adds up what
      the single writes accepted. */
  function WriteAll(d: Dev, pos: nat, chunks: seq<seq<byte>>): (io: IO)
    requires d.Valid()
    ensures io.dev.Valid()
    decreases |chunks|
  {
    if chunks == [] then IO(d, pos, 0, [])
    else
      var first := DoWrite(d, pos, chunks[0], None);
      var rest := WriteAll(first.dev, first.pos, chunks[1..]);
      rest.(ret := Max(first.ret, 0) + rest.ret)
  }

  lemma TwoWrites(d: Dev, pos: nat, a: seq<byte>, b: seq<byte>)
    requires d.Valid()
    ensures var first := DoWrite(d, pos, a, None);
            var second := DoWrite(first.dev, first.pos, b, None);
            var whole := DoWrite(d, pos, a + b, None);
            && second.dev == whole.dev && second.pos == whole.pos
            && Max(first.ret, 0) + Max(second.ret, 0) == Max(whole.ret, 0)
  {
    var first := DoWrite(d, pos, a, None);
    var second := DoWrite(first.dev, first.pos, b, None);
    var whole := DoWrite(d, pos, a + b, None);
    assert second.dev.buf == whole.dev.buf;
  }

  /** Writing data in any split into pieces leaves the same buffer, length and cursor, and
      accepts the same number of bytes, as writing it at once, also when the capacity is hit
      and later pieces get -ENOSPC. */
  lemma {:induction false} ChunkedWriteIsOneWrite(d: Dev, pos: nat, chunks: seq<seq<byte>>)
    requires d.Valid() && chunks != []
    ensures var split := WriteAll(d, pos, chunks);
            var whole := DoWrite(d, pos, Concat(chunks), None);
            split.dev == whole.dev && split.pos == whole.pos && split.ret == Max(whole.ret, 0)
    decreases |chunks|
  {
    if |chunks| == 1 {
      assert Concat(chunks) == chunks[0] + Concat([]) == chunks[0];
      assert chunks[1..] == [];
    } else {
      var first := DoWrite(d, pos, chunks[0], None);
      ChunkedWriteIsOneWrite(first.dev, first.pos, chunks[1..]);
      TwoWrites(d, pos, chunks[0], Concat(chunks[1..]));
    }
  }

  /** Reads of the given sizes, one after the other; `out` is all they delivered and `ret`
      the return value of the last one. */
  function ReadAll(d: Dev, pos: nat, counts: seq<nat>): (io: IO)
    requires d.Valid()
  {
    if counts == [] then IO(d, pos, 0, [])
    else
      var before := ReadAll(d, pos, counts[..|counts| - 1]);
      var last := DoRead(d, before.pos, counts[|counts| - 1], false);
      IO(d, last.pos, last.ret, before.out + last.out)
  }

  lemma OneReadIsContiguous(d: Dev, pos: nat, count: nat)
    requires d.Valid() && pos <= d.len
    ensures var io := DoRead(d, pos, count, false);
            pos <= io.pos <= d.len && io.out == d.buf[pos..io.pos]
  {
  }

  lemma Joined(buf: seq<byte>, i: nat, j: nat, k: nat)
    requires i <= j <= k <= |buf|
    ensures buf[i..j] + buf[j..k] == buf[i..k]
  {
  }

  /** Reads of any sizes deliver the data from where they started to where they got to. */
  lemma {:induction false} ReadsAreContiguous(d: Dev, pos: nat, counts: seq<nat>)
    requires d.Valid() && pos <= d.len
    ensures var io := ReadAll(d, pos, counts);
            pos <= io.pos <= d.len && io.out == d.buf[pos..io.pos]
  {
    if counts != [] {
      ReadsAreContiguous(d, pos, counts[..|counts| - 1]);
      var before := ReadAll(d, pos, counts[..|counts| - 1]);
      var io := ReadAll(d, pos, counts);
      OneReadIsContiguous(d, before.pos, counts[|counts| - 1]);
      Joined(d.buf, pos, before.pos, io.pos);
    }
  }

  /** Reading from 0 in any positive sizes until a read returns 0 yields exactly the data. */
  lemma ReadToEndYieldsAll(d: Dev, counts: seq<nat>)
    requires d.Valid() && counts != [] && forall i :: 0 <= i < |counts| ==> counts[i] > 0
    ensures ReadAll(d, 0, counts).ret == 0 <==> ReadAll(d, 0, counts[..|counts| - 1]).out == Content(d)
    ensures ReadAll(d, 0, counts).ret == 0 ==> ReadAll(d, 0, counts).out == Content(d)
  {
    ReadsAreContiguous(d, 0, counts);
    ReadsAreContiguous(d, 0, counts[..|counts| - 1]);
  }

  /** What one run writes from 0, a second run reads back, whatever the two splits are. */
  lemma WriteThenReadBack(cap: nat, chunks: seq<seq<byte>>, counts: seq<nat>)
    requires chunks != [] && |Concat(chunks)| <= cap && counts != []
    requires forall i :: 0 <= i < |counts| ==> counts[i] > 0
    ensures var d := WriteAll(Loaded(cap), 0, chunks).dev;
            ReadAll(d, 0, counts).ret == 0 ==> ReadAll(d, 0, counts).out == Concat(chunks)
  {
    ChunkedWriteIsOneWrite(Loaded(cap), 0, chunks);
    var d := WriteAll(Loaded(cap), 0, chunks).dev;
    ReadToEndYieldsAll(d, counts);
    if cap > 0 {
      assert Content(d) == Concat(chunks);
    }
  }

  // ---- The two drivers side by side ----

  /** A fault-free read or write at a position of the caller's choice. */
  datatype Request = ReadAt(pos: nat, count: nat) | WriteAt(pos: nat, data: seq<byte>)

  function Serve(d: Dev, r: Request): (io: IO)
    requires d.Valid()
    ensures io.dev.Valid() && |io.dev.buf| == |d.buf|
  {
    match r
    case ReadAt(pos, count) => DoRead(d, pos, count, false)
    case WriteAt(pos, data) => DoWrite(d, pos, data, None)
  }

  function ServeTrunc(d: Dev, r: Request): (io: IO)
    requires d.Valid()
    ensures io.dev.Valid() && |io.dev.buf| == |d.buf|
  {
    match r
    case ReadAt(pos, count) => DoRead(d, pos, count, false)
    case WriteAt(pos, data) => DoTruncWrite(d, pos, data, None)
  }

  function After(d: Dev, rs: seq<Request>): (r: Dev)
    requires d.Valid()
    ensures r.Valid() && |r.buf| == |d.buf|
  {
    if rs == [] then d else Serve(After(d, rs[..|rs| - 1]), rs[|rs| - 1]).dev
  }

  function AfterTrunc(d: Dev, rs: seq<Request>): (r: Dev)
    requires d.Valid()
    ensures r.Valid() && |r.buf| == |d.buf|
  {
    if rs == [] then d else ServeTrunc(AfterTrunc(d, rs[..|rs| - 1]), rs[|rs| - 1]).dev
  }

  /** Where a write that succeeds ends. */
  function WriteEnd(cap: nat, r: Request): Option<nat> {
    if r.WriteAt? && r.pos < cap then Some(r.pos + Fits(cap, r.pos, |r.data|)) else None
  }

  /** The end of the last write that succeeded, or `size` if none did. */
  function LastEnd(cap: nat, size: nat, rs: seq<Request>): nat {
    if rs == [] then size
    else
      match WriteEnd(cap, rs[|rs| - 1])
      case Some(e) => e
      case None => LastEnd(cap, size, rs[..|rs| - 1])
  }

  /** The largest end of a write that succeeded, and no less than `size`. */
  function MaxEnd(cap: nat, size: nat, rs: seq<Request>): nat {
    if rs == [] then size
    else
      var m := MaxEnd(cap, size, rs[..|rs| - 1]);
      match WriteEnd(cap, rs[|rs| - 1])
      case Some(e) => Max(m, e)
      case None => m
  }

  /** In every run the two devices hold the same bytes; the size of 011 is the end of its
      last successful write, that of 010 the largest end so far. */
  lemma {:induction false} SizesOfBoth(d: Dev, rs: seq<Request>)
    requires d.Valid()
    ensures var a, b := After(d, rs), AfterTrunc(d, rs);
            && a.buf == b.buf
            && a.len == MaxEnd(|d.buf|, d.len, rs)
            && b.len == LastEnd(|d.buf|, d.len, rs)
  {
    if rs != [] {
      SizesOfBoth(d, rs[..|rs| - 1]);
    }
  }

  /** Every successful write ends at or past the size 011 has at that moment. */
  predicate NeverShrinks(cap: nat, size: nat, rs: seq<Request>) {
    forall i :: 0 <= i < |rs| && WriteEnd(cap, rs[i]).Some? ==>
                  LastEnd(cap, size, rs[..i]) <= WriteEnd(cap, rs[i]).value
  }

  lemma {:induction false} NeverShrinkingEndsAtMax(cap: nat, size: nat, rs: seq<Request>)
    requires NeverShrinks(cap, size, rs)
    ensures LastEnd(cap, size, rs) == MaxEnd(cap, size, rs)
  {
    if rs != [] {
      var before := rs[..|rs| - 1];
      forall i | 0 <= i < |before|
        ensures before[..i] == rs[..i] && before[i] == rs[i]
      {
      }
      NeverShrinkingEndsAtMax(cap, size, before);
    }
  }

  /** The two drivers are one simulation exactly as long as no write shrinks 011: they are in
      the same state after every prefix of a run iff every successful write ends at or past
      the current size. */
  lemma OneSimulation(d: Dev, rs: seq<Request>)
    requires d.Valid()
    ensures (forall i :: 0 <= i <= |rs| ==> After(d, rs[..i]) == AfterTrunc(d, rs[..i]))
            <==> NeverShrinks(|d.buf|, d.len, rs)
  {
    var cap := |d.buf|;
    if NeverShrinks(cap, d.len, rs) {
      forall i | 0 <= i <= |rs|
        ensures After(d, rs[..i]) == AfterTrunc(d, rs[..i])
      {
        SizesOfBoth(d, rs[..i]);
        forall k | 0 <= k < i
          ensures rs[..i][..k] == rs[..k] && rs[..i][k] == rs[k]
        {
        }
        NeverShrinkingEndsAtMax(cap, d.len, rs[..i]);
      }
    }
    if forall i :: 0 <= i <= |rs| ==> After(d, rs[..i]) == AfterTrunc(d, rs[..i]) {
      forall i | 0 <= i < |rs| && WriteEnd(cap, rs[i]).Some?
        ensures LastEnd(cap, d.len, rs[..i]) <= WriteEnd(cap, rs[i]).value
      {
        assert After(d, rs[..i + 1]) == AfterTrunc(d, rs[..i + 1]);
        assert After(d, rs[..i]) == AfterTrunc(d, rs[..i]);
        SizesOfBoth(d, rs[..i]);
        SizesOfBoth(d, rs[..i + 1]);
        assert rs[..i + 1][..i] == rs[..i];
      }
    }
  }

  /** In a run without a shrinking write every call gets the same result from both drivers. */
  lemma SameResults(d: Dev, rs: seq<Request>, i: nat)
    requires d.Valid() && i < |rs| && NeverShrinks(|d.buf|, d.len, rs)
    ensures Serve(After(d, rs[..i]), rs[i]) == ServeTrunc(AfterTrunc(d, rs[..i]), rs[i])
  {
    OneSimulation(d, rs);
    assert After(d, rs[..i]) == AfterTrunc(d, rs[..i]);
    assert After(d, rs[..i + 1]) == AfterTrunc(d, rs[..i + 1]);
    assert rs[..i + 1][..i] == rs[..i];
  }

  /** Once a write has shrunk 011, a read of one byte at its end tells the drivers apart. */
  lemma ShrinkingIsVisible(d: Dev, rs: seq<Request>)
    requires d.Valid() && LastEnd(|d.buf|, d.len, rs) != MaxEnd(|d.buf|, d.len, rs)
    ensures var r := ReadAt(LastEnd(|d.buf|, d.len, rs), 1);
            Serve(After(d, rs), r).ret == 1 && ServeTrunc(AfterTrunc(d, rs), r).ret == 0
  {
    SizesOfBoth(d, rs);
    LastIsAtMostMax(|d.buf|, d.len, rs);
  }

  lemma {:induction false} LastIsAtMostMax(cap: nat, size: nat, rs: seq<Request>)
    ensures LastEnd(cap, size, rs) <= MaxEnd(cap, size, rs)
  {
    if rs != [] {
      LastIsAtMostMax(cap, size, rs[..|rs| - 1]);
    }
  }
}
