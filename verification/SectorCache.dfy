/** The direct-mapped sector cache in front of the disk (kernel/cache.cc). */
module SectorCache {
  import opened Ext2Format

  const CACHE_SIZE := 32
  /** The block number of an entry that holds nothing yet. */
  const EMPTY := 0xFFFF_FFFF

  /** The bytes of `b` from `at` on are those of the disk from `off` on. */
  ghost predicate Shows(disk: Disk, b: seq<Byte>, at: nat, n: nat, off: nat) {
    at + n <= |b| && forall j :: at <= j < at + n ==> b[j] == disk(off + (j - at))
  }

  /** Outside the `n` bytes from `at` on the buffers agree. */
  ghost predicate SameOutside(a: seq<Byte>, b: seq<Byte>, at: nat, n: nat) {
    |a| == |b| && forall j :: 0 <= j < |a| && !(at <= j < at + n) ==> b[j] == a[j]
  }

  method CopyBytes(src: array<Byte>, from: nat, dst: array<Byte>, at: nat, n: nat)
    requires src != dst && from + n <= src.Length && at + n <= dst.Length
    modifies dst
    ensures forall j :: at <= j < at + n ==> dst[j] == src[from + (j - at)]
    ensures SameOutside(old(dst[..]), dst[..], at, n)
  {
    for i := 0 to n
      invariant forall j :: at <= j < at + i ==> dst[j] == src[from + (j - at)]
      invariant forall j :: 0 <= j < dst.Length && !(at <= j < at + i) ==> dst[j] == old(dst[j])
    {
      dst[at + i] := src[from + i];
    }
  }

  class SectorCache {
    const disk: Disk
    const blocks: array<nat>
    const data: array<Byte>

    /** A used entry holds a sector that belongs in its place. */
    ghost predicate EntryOk(i: nat)
      requires i < CACHE_SIZE && blocks.Length == CACHE_SIZE && data.Length == CACHE_SIZE * SECTOR
      reads this, blocks, data
    {
      blocks[i] == EMPTY || (blocks[i] % CACHE_SIZE == i && Shows(disk, data[..], i * SECTOR, SECTOR, blocks[i] * SECTOR))
    }

    ghost predicate Valid()
      reads this, blocks, data
    {
      && blocks.Length == CACHE_SIZE && data.Length == CACHE_SIZE * SECTOR
      && forall i: nat :: i < CACHE_SIZE ==> EntryOk(i)
    }

    constructor (disk: Disk)
      ensures Valid() && this.disk == disk && fresh(blocks) && fresh(data)
    {
      this.disk := disk;
      blocks := new nat[CACHE_SIZE](_ => EMPTY);
      data := new Byte[CACHE_SIZE * SECTOR](_ => 0);
    }

    /** The driver: a sector of the disk into the buffer. */
    method ReadSector(block: nat, buffer: array<Byte>, at: nat)
      requires at + SECTOR <= buffer.Length
      modifies buffer
      ensures Shows(disk, buffer[..], at, SECTOR, block * SECTOR)
      ensures SameOutside(old(buffer[..]), buffer[..], at, SECTOR)
    {
      for i := 0 to SECTOR
        invariant forall j :: at <= j < at + i ==> buffer[j] == disk(block * SECTOR + (j - at))
        invariant forall j :: 0 <= j < buffer.Length && !(at <= j < at + i) ==> buffer[j] == old(buffer[j])
      {
        buffer[at + i] := disk(block * SECTOR + i);
      }
    }

    /** read_block: the sector, whatever was read before; it is the one cached in its place afterwards. */
    method ReadBlock(block: nat, buffer: array<Byte>, at: nat)
      requires Valid() && block < EMPTY && at + SECTOR <= buffer.Length && buffer != data
      modifies blocks, data, buffer
      ensures Valid()
      ensures Shows(disk, buffer[..], at, SECTOR, block * SECTOR)
      ensures SameOutside(old(buffer[..]), buffer[..], at, SECTOR)
      ensures blocks[..] == old(blocks[..])[block % CACHE_SIZE := block]
    {
      var index := block % CACHE_SIZE;
      assert EntryOk(index);
      if blocks[index] == block {
        CopyBytes(data, index * SECTOR, buffer, at, SECTOR);
        assert forall i: nat :: i < CACHE_SIZE ==> EntryOk(i);
        return;
      }
      ReadSector(block, buffer, at);
      ghost var was, held := data[..], blocks[..];
      forall i: nat | i < CACHE_SIZE
        ensures held[i] == EMPTY || (held[i] % CACHE_SIZE == i && Shows(disk, was, i * SECTOR, SECTOR, held[i] * SECTOR))
      {
        assert old(EntryOk(i));
      }
      blocks[index] := block;
      CopyBytes(buffer, at, data, index * SECTOR, SECTOR);
      assert Shows(disk, data[..], index * SECTOR, SECTOR, block * SECTOR);
      forall i: nat | i < CACHE_SIZE
        ensures EntryOk(i)
      {
        if i != index {
          EntryKept(disk, was, data[..], i, index, held[i]);
        }
      }
    }
  }

  /** Refilling one entry leaves the sectors of the others. */
  lemma EntryKept(disk: Disk, was: seq<Byte>, now: seq<Byte>, i: nat, index: nat, block: nat)
    requires i < CACHE_SIZE && index < CACHE_SIZE && |was| == CACHE_SIZE * SECTOR && SameOutside(was, now, index * SECTOR, SECTOR)
    ensures i != index && Shows(disk, was, i * SECTOR, SECTOR, block * SECTOR) ==> Shows(disk, now, i * SECTOR, SECTOR, block * SECTOR)
  {
  }
}
