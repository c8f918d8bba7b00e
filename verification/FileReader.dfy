/**
 The chunked byte reader (kernel/block_io.cc) over the two devices of the file system: the cached
 disk and an inode (kernel/ext2.cc).
 */
module FileReader {
  import opened Ext2Format
  import opened Modular
  import opened SectorCache

  function Min(a: nat, b: nat): nat {
    if a < b then a else b
  }

  /** The number of bytes one read returns: up to the end of the block, the request and the device. */
  function ChunkSize(offset: nat, n: nat, size: nat, bs: nat): nat
    requires bs > 0 && offset <= size
  {
    Min(bs - InBlock(offset, bs), Min(n, size - offset))
  }

  function BlockIndex(offset: nat, bs: nat): nat
    requires bs > 0
  {
    offset / bs
  }

  function InBlock(offset: nat, bs: nat): (r: nat)
    requires bs > 0
    ensures r < bs
  {
    offset % bs
  }

  // ---------------------------------------------------------------------------------------
  // Addresses of indirect words and data blocks
  // ---------------------------------------------------------------------------------------

  /** The arithmetic of get_block_offset and of the word read does not wrap on the disk. */
  lemma WordOffset(bs: nat, start: nat, k: nat)
    requires BlockSize(bs) && OnDisk(bs, start) && k < bs / 4
    ensures start * bs % WORD == start * bs && (start * bs + k * 4) % WORD == start * bs + k * 4
    ensures start * bs + k * 4 + 4 <= DISK_SIZE
  {
    assert (start + 1) * bs == start * bs + bs;
    Unique(start * bs, WORD, 0, start * bs);
    Unique(start * bs + k * 4, WORD, 0, start * bs + k * 4);
  }

  lemma BlockOffset(bs: nat, block: nat)
    requires BlockSize(bs) && OnDisk(bs, block)
    ensures block * bs % WORD == block * bs && block * bs + bs <= DISK_SIZE
  {
    assert (block + 1) * bs == block * bs + bs;
    Unique(block * bs, WORD, 0, block * bs);
  }

  lemma {:induction false} FollowOk(disk: Disk, bs: nat, start: nat, digits: seq<nat>)
    requires BlockSize(bs) && TreeOk(disk, bs, start, |digits|) && Small(digits, bs / 4)
    ensures Follow(disk, bs, start, digits) == 0 || OnDisk(bs, Follow(disk, bs, start, digits))
    decreases |digits|
  {
    hide OnDisk, Entry;
    if start != 0 && digits != [] {
      var next := Entry(disk, bs, start, digits[0]);
      assert TreeOk(disk, bs, next, |digits| - 1);
      FollowOk(disk, bs, next, digits[1..]);
    }
  }

  lemma BlockOfOk(disk: Disk, bs: nat, pointers: seq<nat>, b: nat)
    requires BlockSize(bs) && PointersOk(disk, bs, pointers)
    ensures var r := BlockOf(disk, bs, pointers, b); r == 0 || OnDisk(bs, r)
  {
    var place := PlaceOf(b, bs / 4);
    if place.Place? {
      PlaceOfBlock(b, bs / 4);
      if b >= DIRECT { PlaceFromBlock(b - DIRECT, bs / 4, 0); }
      FollowOk(disk, bs, pointers[place.first], place.digits);
    }
  }

  // ---------------------------------------------------------------------------------------
  // The devices
  // ---------------------------------------------------------------------------------------

  datatype Kind = CachedDisk(cache: SectorCache) | FileNode(disk: BlockIO, pointers: seq<nat>)

  class BlockIO {
    const kind: Kind
    const blockSize: nat
    const size: nat

    /** A disk, or a file on a disk. */
    ghost predicate Shaped() {
      match kind
      case CachedDisk(_) => blockSize == SECTOR && size == DISK_SIZE
      case FileNode(d, ptrs) =>
        && d.kind.CachedDisk? && d.blockSize == SECTOR && d.size == DISK_SIZE
        && BlockSize(blockSize) && size < WORD && PointersOk(d.kind.cache.disk, blockSize, ptrs)
    }

    function Cache(): SectorCache
      requires Shaped()
    {
      match kind
      case CachedDisk(c) => c
      case FileNode(d, _) => d.kind.cache
    }

    ghost predicate Valid()
      requires Shaped()
      reads Cache(), Cache().blocks, Cache().data
    {
      Cache().Valid()
    }

    /** Byte `i` of the device. */
    ghost function ByteAt(i: nat): Byte
      requires Shaped()
    {
      match kind
      case CachedDisk(c) => c.disk(i)
      case FileNode(d, ptrs) => FileByte(d.kind.cache.disk, blockSize, ptrs, i)
    }

    ghost predicate Holds(b: seq<Byte>, at: nat, n: nat, offset: nat)
      requires Shaped()
    {
      at + n <= |b| && forall j :: at <= j < at + n ==> b[j] == ByteAt(offset + (j - at))
    }

    /** `total` bytes are in the buffer, and nothing else has changed in it. */
    ghost predicate Transferred(was: seq<Byte>, now: seq<Byte>, at: nat, total: nat, offset: nat)
      requires Shaped()
    {
      Holds(now, at, total, offset) && SameOutside(was, now, at, total)
    }

    lemma TransferStart(b: seq<Byte>, at: nat, offset: nat)
      requires Shaped() && at <= |b|
      ensures Transferred(b, b, at, 0, offset)
    {
    }

    function Rank(): nat {
      if kind.FileNode? then 1 else 0
    }

    /** The cached disk. */
    constructor Disk(cache: SectorCache)
      requires cache.Valid()
      ensures Shaped() && Valid() && kind == CachedDisk(cache)
    {
      kind := CachedDisk(cache);
      blockSize := SECTOR;
      size := DISK_SIZE;
    }

    /** An inode with its size and i_block array. */
    constructor File(disk: BlockIO, bs: nat, size: nat, pointers: seq<nat>)
      requires disk.Shaped() && disk.Valid() && disk.kind.CachedDisk? && BlockSize(bs) && size < WORD
      requires PointersOk(disk.kind.cache.disk, bs, pointers)
      ensures Shaped() && Valid() && kind == FileNode(disk, pointers) && blockSize == bs && this.size == size
    {
      kind := FileNode(disk, pointers);
      blockSize := bs;
      this.size := size;
    }

    // -------------------------------------------------------------------------------------
    // Blocks
    // -------------------------------------------------------------------------------------

    /** read_block, on either device. */
    method ReadBlock(number: nat, buffer: array<Byte>, at: nat)
      requires Shaped() && Valid() && number < EMPTY && at + blockSize <= buffer.Length && buffer != Cache().data
      modifies Cache().blocks, Cache().data, buffer
      ensures Valid() && Transferred(old(buffer[..]), buffer[..], at, blockSize, number * blockSize)
      decreases Rank(), 0, 3
    {
      match kind {
        case CachedDisk(c) => c.ReadBlock(number, buffer, at);
        case FileNode(_, _) => ReadFileBlock(number, buffer, at);
      }
    }

    method ReadFileBlock(number: nat, buffer: array<Byte>, at: nat)
      requires Shaped() && Valid() && kind.FileNode? && at + blockSize <= buffer.Length && buffer != Cache().data
      modifies Cache().blocks, Cache().data, buffer
      ensures Valid() && Transferred(old(buffer[..]), buffer[..], at, blockSize, number * blockSize)
      decreases Rank(), 0, 2
    {
      ghost var disk := kind.disk.kind.cache.disk;
      var block := GetDataBlock(number);
      BlockOfOk(disk, blockSize, kind.pointers, number);
      if block != 0 {
        BlockOffset(blockSize, block);
        var cnt := kind.disk.ReadAll(block * blockSize % WORD, blockSize, buffer, at);
      } else {
        for i := 0 to blockSize
          invariant Valid() && forall j :: at <= j < at + i ==> buffer[j] == 0
          invariant forall j :: 0 <= j < buffer.Length && !(at <= j < at + i) ==> buffer[j] == old(buffer[j])
          modifies buffer
        {
          buffer[at + i] := 0;
        }
      }
      forall j | at <= j < at + blockSize
        ensures buffer[j] == ByteAt(number * blockSize + (j - at))
      {
        Unique(number * blockSize + (j - at), blockSize, number, j - at);
      }
    }

    // -------------------------------------------------------------------------------------
    // Indirection
    // -------------------------------------------------------------------------------------

    /** A word of the disk, through the byte reader. */
    method ReadWord(offset: nat) returns (w: nat)
      requires Shaped() && Valid() && kind.CachedDisk? && offset + 4 <= DISK_SIZE
      modifies Cache().blocks, Cache().data
      ensures Valid() && w == WordAt(Cache().disk, offset)
      decreases Rank(), 3
    {
      var thing := new Byte[4](_ => 0);
      var cnt := ReadAll(offset, 4, thing, 0);
      assert cnt == 4;
      assert thing[0] == ByteAt(offset) && thing[1] == ByteAt(offset + 1) && thing[2] == ByteAt(offset + 2) && thing[3] == ByteAt(offset + 3);
      w := WordOf(thing[0], thing[1], thing[2], thing[3]);
    }

    method RecurseRadixTree(block: nat, start: nat, depth: nat) returns (r: nat)
      requires Shaped() && Valid() && kind.FileNode? && TreeOk(Cache().disk, blockSize, start, depth + 1)
      requires block < Pow(blockSize / 4, depth + 1)
      modifies Cache().blocks, Cache().data
      ensures Valid() && r == Follow(Cache().disk, blockSize, start, Digits(block, blockSize / 4, depth))
      decreases Rank(), 0, 0, depth + 1
    {
      hide Follow, Digits, PointersOk;
      FollowUnfold(Cache().disk, blockSize, start, block, depth);
      if start == 0 { return 0; }
      var counter := PowerOf(blockSize / 4, depth);
      PowStep(blockSize / 4, depth);
      QuotientSmall(block, counter, blockSize / 4);
      var result := ReadEntry(start, block / counter);
      assert TreeOk(Cache().disk, blockSize, result, depth);
      if depth == 0 {
        return result;
      }
      r := RecurseRadixTree(block % counter, result, depth - 1);
    }

    method ReadEntry(start: nat, k: nat) returns (w: nat)
      requires Shaped() && Valid() && kind.FileNode? && OnDisk(blockSize, start) && k < blockSize / 4
      modifies Cache().blocks, Cache().data
      ensures Valid() && w == Entry(Cache().disk, blockSize, start, k)
      decreases Rank(), 0, 0, 0
    {
      WordOffset(blockSize, start, k);
      w := kind.disk.ReadWord((start * blockSize % WORD + k * 4) % WORD);
    }

    method GetDataBlock(number: nat) returns (r: nat)
      requires Shaped() && Valid() && kind.FileNode?
      modifies Cache().blocks, Cache().data
      ensures Valid() && r == BlockOf(Cache().disk, blockSize, kind.pointers, number)
      decreases Rank(), 0, 1
    {
      var pointersPerBlock := blockSize / 4;
      if number < DIRECT { return kind.pointers[number]; }
      var block: nat := number - DIRECT;
      var counter := pointersPerBlock;
      var index := 0;
      while index < 3
        invariant 0 <= index <= 3 && counter == Pow(pointersPerBlock, index + 1)
        invariant Valid() && PlaceFrom(number - DIRECT, pointersPerBlock, 0) == PlaceFrom(block, pointersPerBlock, index)
        decreases 3 - index
      {
        if block < counter {
          r := RecurseRadixTree(block, kind.pointers[index + DIRECT], index);
          return;
        }
        block := block - counter;
        counter := counter * pointersPerBlock;
        index := index + 1;
      }
      r := 0;
    }

    // -------------------------------------------------------------------------------------
    // Bytes
    // -------------------------------------------------------------------------------------

    lemma HoldsShift(b: seq<Byte>, c: seq<Byte>, from: nat, at: nat, n: nat, base: nat)
      requires Shaped() && from + n <= |b| && at + n <= |c| && Holds(b, 0, |b|, base)
      requires forall j :: at <= j < at + n ==> c[j] == b[from + (j - at)]
      ensures Holds(c, at, n, base + from)
    {
      hide ByteAt;
    }

    /** Part of a block, through a temporary one. */
    method ReadPart(number: nat, inBlock: nat, n: nat, buffer: array<Byte>, at: nat)
      requires Shaped() && Valid() && number < EMPTY && inBlock + n <= blockSize && at + n <= buffer.Length && buffer != Cache().data
      modifies Cache().blocks, Cache().data, buffer
      ensures Valid() && Transferred(old(buffer[..]), buffer[..], at, n, number * blockSize + inBlock)
      decreases Rank(), 1, 0
    {
      hide ByteAt, PointersOk;
      var temp := new Byte[blockSize](_ => 0);
      ReadBlock(number, temp, 0);
      CopyBytes(temp, inBlock, buffer, at, n);
      HoldsShift(temp[..], buffer[..], inBlock, at, n, number * blockSize);
    }

    /** read: at most the rest of one block; -1 behind the end, 0 at the end. */
    method Read(offset: nat, desired: nat, buffer: array<Byte>, at: nat) returns (cnt: int)
      requires Shaped() && Valid() && offset < WORD && at + desired <= buffer.Length && buffer != Cache().data
      modifies Cache().blocks, Cache().data, buffer
      ensures Valid()
      ensures cnt == if offset > size then -1 else ChunkSize(offset, desired, size, blockSize)
      ensures Transferred(old(buffer[..]), buffer[..], at, if cnt < 0 then 0 else cnt, offset)
      decreases Rank(), 1
    {
      hide ByteAt, PointersOk, Transferred, Valid, InBlock, BlockIndex;
      Sizes();
      TransferStart(buffer[..], at, offset);
      if offset > size { return -1; }
      if offset == size { return 0; }
      var n := Min(desired, size - offset);
      var number := BlockIndex(offset, blockSize);
      var inBlock := InBlock(offset, blockSize);
      var actual := Min(blockSize - inBlock, n);
      BlockNumber(offset, blockSize);
      if actual == blockSize {
        ReadBlock(number, buffer, at);
      } else {
        ReadPart(number, inBlock, actual, buffer, at);
      }
      return actual;
    }

    lemma Sizes()
      requires Shaped()
      ensures SECTOR <= blockSize && size < WORD
    {
    }

    lemma TransferNext(was: seq<Byte>, a: seq<Byte>, b: seq<Byte>, at: nat, n: nat, m: nat, offset: nat)
      requires Shaped() && Transferred(was, a, at, n, offset) && Transferred(a, b, at + n, m, offset + n)
      ensures Transferred(was, b, at, n + m, offset)
    {
      hide ByteAt;
      forall j | at <= j < at + n + m
        ensures b[j] == ByteAt(offset + (j - at))
      {
        if j >= at + n { assert offset + n + (j - (at + n)) == offset + (j - at); }
      }
    }

    /** read_all: min(n, size - offset) bytes, exactly those of the device. */
    method ReadAll(offset: nat, n: nat, buffer: array<Byte>, at: nat) returns (total: int)
      requires Shaped() && Valid() && offset < WORD && n < WORD && at + n <= buffer.Length && buffer != Cache().data
      modifies Cache().blocks, Cache().data, buffer
      ensures Valid()
      ensures total == if n == 0 then 0 else if offset > size then -1 else Min(n, size - offset)
      ensures Transferred(old(buffer[..]), buffer[..], at, if total < 0 then 0 else total, offset)
      decreases Rank(), 2
    {
      hide ByteAt, PointersOk, Transferred, ChunkSize, Valid;
      Sizes();
      total := 0;
      var off, left, pos := offset, n, at;
      ghost var b := buffer[..];
      TransferStart(b, at, offset);
      while left > 0
        invariant 0 <= total <= n && left == n - total && pos == at + total && off == offset + total
        invariant total > 0 ==> off <= size
        invariant Valid() && Transferred(b, buffer[..], at, total, offset)
        decreases left
      {
        ghost var was := buffer[..];
        ChunkPositive(off, left, size, blockSize);
        var cnt := Read(off, left, buffer, pos);
        TransferNext(b, was, buffer[..], at, total, if cnt < 0 then 0 else cnt, offset);
        if cnt < 0 { return cnt; }
        if cnt == 0 { return total; }
        total := total + cnt;
        off := off + cnt;
        left := left - cnt;
        pos := pos + cnt;
      }
    }
  }

  /** The value of `counter` in recurse_radix_tree. */
  method PowerOf(p: nat, depth: nat) returns (counter: nat)
    ensures counter == Pow(p, depth)
  {
    counter := 1;
    for i := 0 to depth
      invariant counter == Pow(p, i)
    {
      counter := counter * p;
    }
  }

  lemma FollowUnfold(disk: Disk, bs: nat, start: nat, block: nat, depth: nat)
    requires bs / 4 > 0
    ensures start == 0 ==> Follow(disk, bs, start, Digits(block, bs / 4, depth)) == 0
    ensures start != 0 && depth == 0 ==>
              Follow(disk, bs, start, Digits(block, bs / 4, 0)) == Entry(disk, bs, start, block)
    ensures start != 0 && depth > 0 ==>
              var w := Pow(bs / 4, depth);
              Follow(disk, bs, start, Digits(block, bs / 4, depth)) ==
              Follow(disk, bs, Entry(disk, bs, start, block / w), Digits(block % w, bs / 4, depth - 1))
  {
    hide Pow, Entry;
    var ds := Digits(block, bs / 4, depth);
    if depth > 0 {
      assert ds[1..] == Digits(block % Pow(bs / 4, depth), bs / 4, depth - 1);
    } else {
      assert ds[1..] == [];
    }
  }

  lemma BlockNumber(offset: nat, bs: nat)
    requires SECTOR <= bs && offset < WORD
    ensures BlockIndex(offset, bs) < EMPTY && BlockIndex(offset, bs) * bs + InBlock(offset, bs) == offset
  {
    var q := offset / bs;
    assert offset == q * bs + offset % bs;
    Multiple(q - EMPTY, bs);
    assert (q - EMPTY) * bs == q * bs - EMPTY * bs;
  }

  /** Before the end a read for at least one byte makes progress, and at the end it returns 0. */
  lemma ChunkPositive(offset: nat, n: nat, size: nat, bs: nat)
    requires bs > 0 && n > 0
    ensures offset < size ==> ChunkSize(offset, n, size, bs) > 0
    ensures offset == size ==> ChunkSize(offset, n, size, bs) == 0
    ensures offset <= size ==> ChunkSize(offset, n, size, bs) <= n && offset + ChunkSize(offset, n, size, bs) <= size
  {
  }
}
