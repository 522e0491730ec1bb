/** The mirror module of storage_mirror_kernel.c: copying a sector in, and dumping the
    whole mirror to a file with kernel_write. */
module StorageMirror {
  import opened Kernel
  import opened StorageSpec

  /** A file opened with O_TRUNC for one backup. */
  class File {
    var content: seq<byte>
    var lastRc: int          // what the last kernel_write returned

    constructor ()
      ensures content == []
    {
      content := [];
      lastRc := 0;
    }

    /** kernel_write may fail, write nothing, or write any prefix; it advances the position
        by what it wrote. Which of these happens is up to the environment. */
    method KernelWrite(data: seq<byte>, pos: nat) returns (rc: int, pos': nat)
      requires pos == |content| && data != []
      modifies this
      ensures rc <= |data| && lastRc == rc
      ensures rc <= 0 ==> content == old(content) && pos' == pos
      ensures rc > 0 ==> content == old(content) + data[..rc] && pos' == pos + rc
    {
      rc := *;
      pos' := pos;
      if rc > |data| {
        rc := |data|;
      }
      lastRc := rc;
      if rc > 0 {
        content := content + data[..rc];
        pos' := pos + rc;
      }
    }
  }

  /** The mirror after a mirror call for `sector` that found `store` in the store. */
  function Mirrored(mirror: seq<byte>, store: seq<byte>, sector: int, signal: bool): (m: seq<byte>)
    requires |mirror| == |store| == STORAGE_TOTAL_SIZE
    ensures |m| == STORAGE_TOTAL_SIZE
  {
    if SectorInRange(sector) && !signal
    then Overlay(mirror, sector * STORAGE_SECTOR_SIZE, Sector(store, sector))
    else mirror
  }

  /** A mirror call replaces its own sector and keeps the other seven. */
  lemma MirroredSectors(mirror: seq<byte>, store: seq<byte>, sector: int, signal: bool, s: nat)
    requires |mirror| == |store| == STORAGE_TOTAL_SIZE && s < STORAGE_NUM_SECTORS
    ensures Sector(Mirrored(mirror, store, sector, signal), s)
            == if s == sector && !signal then Sector(store, s) else Sector(mirror, s)
  {
    var m := Mirrored(mirror, store, sector, signal);
    if s == sector && !signal {
      assert forall i: nat {:trigger m[i]} :: i < STORAGE_TOTAL_SIZE && SectorOf(i) == s ==> m[i] == store[i];
      SameSector(m, store, s);
    } else {
      SameSector(m, mirror, s);
    }
  }

  class MirrorModule {
    const buffer: array<byte>
    var mutexHeld: bool

    ghost predicate Valid()
      reads this
    {
      buffer.Length == STORAGE_TOTAL_SIZE && !mutexHeld
    }

    constructor ()
      ensures Valid() && fresh(buffer) && buffer[..] == Zeros(STORAGE_TOTAL_SIZE)
    {
      buffer := new byte[STORAGE_TOTAL_SIZE](i => 0);
      mutexHeld := false;
      new;
      assert buffer[..] == Zeros(STORAGE_TOTAL_SIZE);
    }

    /** Copies 512 bytes of `source`, from index `from` on, into sector `sector`. */
    method MirrorSector(sector: int, source: array<byte>, from: nat, signal: bool)
      requires Valid() && source != buffer && source.Length == STORAGE_TOTAL_SIZE
      requires SectorInRange(sector) ==> from == sector * STORAGE_SECTOR_SIZE
      modifies this`mutexHeld, buffer
      ensures Valid()
      ensures buffer[..] == Mirrored(old(buffer[..]), source[..], sector, signal)
    {
      if sector < 0 || sector >= STORAGE_NUM_SECTORS {
        return;
      }
      if signal {
        return;
      }
      mutexHeld := true;
      for j := 0 to STORAGE_SECTOR_SIZE
        invariant forall i :: 0 <= i < buffer.Length ==>
                    buffer[i] == if from <= i < from + j then source[i] else old(buffer[i])
      {
        buffer[from + j] := source[from + j];
      }
      assert buffer[..] == Mirrored(old(buffer[..]), source[..], sector, signal);
      mutexHeld := false;
    }

    /** The backup: whatever kernel_write does, the loop ends, the file is the prefix of the
        mirror that was written, and 0 is returned exactly when that is the whole mirror. */
    method BackupToFile(emptyPath: bool, openError: int, signal: bool) returns (ret: int, f: File)
      requires Valid() && openError <= 0
      modifies this`mutexHeld
      ensures Valid() && fresh(f)
      ensures |f.content| <= STORAGE_TOTAL_SIZE && f.content == buffer[..|f.content|]
      ensures ret == 0 <==> f.content == buffer[..]
      ensures ret <= 0
      ensures emptyPath ==> ret == -EINVAL && f.content == []
      ensures !emptyPath && openError < 0 ==> ret == openError && f.content == []
      ensures !emptyPath && openError == 0 && signal ==> ret == -ERESTARTSYS && f.content == []
      ensures !emptyPath && openError == 0 && !signal ==>
                ret == if f.lastRc < 0 then f.lastRc else if f.lastRc == 0 then -EIO else 0
    {
      f := new File();
      if emptyPath {
        return -EINVAL, f;
      }
      if openError < 0 {
        return openError, f;
      }
      if signal {
        return -ERESTARTSYS, f;
      }
      mutexHeld := true;
      ret := 0;
      var pos: nat, written: nat := 0, 0;
      while pos < STORAGE_TOTAL_SIZE
        invariant pos == written == |f.content| <= STORAGE_TOTAL_SIZE
        invariant f.content == buffer[..pos] && fresh(f) && mutexHeld && ret == 0
        invariant pos > 0 ==> f.lastRc > 0
      {
        var toWrite := Min(STORAGE_TOTAL_SIZE, STORAGE_TOTAL_SIZE - pos);
        var rc;
        rc, pos := f.KernelWrite(buffer[pos..pos + toWrite], pos);
        if rc < 0 {
          ret := rc;
          break;
        }
        if rc == 0 {
          ret := -EIO;
          break;
        }
        assert buffer[..pos - rc] + buffer[pos - rc..pos - rc + toWrite][..rc] == buffer[..pos];
        written := written + rc;
      }
      mutexHeld := false;
      assert pos == STORAGE_TOTAL_SIZE ==> buffer[..pos] == buffer[..];
      ret := if ret != 0 then ret else if written == STORAGE_TOTAL_SIZE then 0 else -EIO;
    }
  }
}
