/**
 * The permission bits `AtomicWriterPerms.get_fileobject` gives the file it
 * writes: an existing file keeps the mode `stat` reports; for a new file the
 * source emulates file creation with its own base mode `0o664`, less the bits
 * of the process umask.
 *
 * Modes are 32-bit words. Python's `~mask` is an unbounded two's complement,
 * but `& 0o664` keeps only low bits, so the 32-bit complement gives the same
 * result.
 */
module FileMode {
  import opened Wrappers

  /** `0o664`: read and write for owner and group, read for others. */
  const CreateMode: bv32 := 0x1B4
  /** `0o777`: the bits a umask can hold. */
  const UmaskBits: bv32 := 0x1FF

  /** `0o664 & ~mask`: no bit of the umask, no bit outside `0o664`, and every
      bit of `0o664` the umask does not hold. */
  function NewFileMode(mask: bv32): (mode: bv32)
    ensures mode & mask == 0
    ensures mode & !CreateMode == 0
    ensures mode | mask == CreateMode | mask
  {
    CreateMode & !mask
  }

  /** The three clauses above leave no other choice of mode. */
  lemma NewFileModeUnique(mask: bv32, mode: bv32)
    requires mode & mask == 0
    requires mode & !CreateMode == 0
    requires mode | mask == CreateMode | mask
    ensures mode == NewFileMode(mask)
  {
  }

  /** The process umask, the state `os.umask` reads and replaces. */
  class ProcessUmask {
    var mask: bv32

    ghost predicate Valid()
      reads this
    {
      mask & !UmaskBits == 0
    }

    constructor (initial: bv32)
      ensures Valid() && mask == initial & UmaskBits
    {
      var m := initial & UmaskBits;
      assert m & !UmaskBits == 0;
      mask := m;
    }

    /** `os.umask(m)`: installs `m` (its permission bits) and returns the
        previous mask. */
    method SetUmask(m: bv32) returns (previous: bv32)
      requires Valid()
      modifies this
      ensures Valid()
      ensures previous == old(mask) && mask == m & UmaskBits
    {
      previous := mask;
      var masked := m & UmaskBits;
      assert masked & !UmaskBits == 0;
      mask := masked;
    }
  }

  /** The mode `get_fileobject` applies with `chmod`: `existing` is the mode
      `stat` reports, `None` when the file does not exist yet. For a new file
      the umask is read by setting it to 0 and putting it back, so it ends as
      it was. */
  method FileObjectMode(umask: ProcessUmask, existing: Option<bv32>) returns (mode: bv32)
    requires umask.Valid()
    modifies umask
    ensures umask.Valid() && umask.mask == old(umask.mask)
    ensures existing.Some? ==> mode == existing.value
    ensures existing.None? ==> mode == NewFileMode(old(umask.mask))
  {
    if existing.Some? {
      mode := existing.value;
    } else {
      var mask := umask.SetUmask(0);
      var _ := umask.SetUmask(mask);
      mode := NewFileMode(mask);
    }
  }
}
