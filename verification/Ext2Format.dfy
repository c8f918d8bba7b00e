/** How an ext2 inode maps the bytes of a file to the disk: the i_block array and its indirection. */
module Ext2Format {
  import opened Modular

  type Byte = x: int | 0 <= x < 256

  /** The disk as a fixed map from byte offsets. */
  type Disk = nat -> Byte

  /** size_in_bytes of the disk driver. */
  const DISK_SIZE := 0xFFFF_FFFF
  const SECTOR := 512
  const DIRECT := 12

  predicate BlockSize(bs: nat) {
    bs == 1024 || bs == 2048 || bs == 4096
  }

  /** The little-endian word at an offset. */
  function WordOf(b0: int, b1: int, b2: int, b3: int): int {
    b0 + 0x100 * b1 + 0x1_0000 * b2 + 0x100_0000 * b3
  }

  function WordAt(disk: Disk, off: nat): nat {
    WordOf(disk(off), disk(off + 1), disk(off + 2), disk(off + 3))
  }

  function LowByte(w: nat): nat {
    w % 0x100
  }

  function HighBytes(w: nat): nat {
    w / 0x100
  }

  lemma ByteSplit(w: nat, b: Byte, rest: nat)
    ensures w == b + 0x100 * rest <==> b == LowByte(w) && rest == HighBytes(w)
  {
    if w == b + 0x100 * rest {
      Unique(w, 0x100, rest, b);
    }
  }

  /** A word and its bytes, least significant first, determine each other. */
  lemma WordBytes(w: nat, b0: Byte, b1: Byte, b2: Byte, b3: Byte)
    ensures w == WordOf(b0, b1, b2, b3) <==>
              var x := HighBytes(w);
              var y := HighBytes(x);
              b0 == LowByte(w) && b1 == LowByte(x) && b2 == LowByte(y) && b3 == HighBytes(y)
  {
    hide LowByte, HighBytes;
    ByteSplit(w, b0, b1 + 0x100 * b2 + 0x1_0000 * b3);
    ByteSplit(HighBytes(w), b1, b2 + 0x100 * b3);
    ByteSplit(HighBytes(HighBytes(w)), b2, b3);
  }

  function Pow(p: nat, n: nat): (r: nat)
    ensures p > 0 ==> r > 0
  {
    if n == 0 then 1 else p * Pow(p, n - 1)
  }

  // ---------------------------------------------------------------------------------------
  // The slot of a logical block
  // ---------------------------------------------------------------------------------------

  /** Which entry of i_block, and which entry of each indirect block below it. */
  datatype Place = Place(first: nat, digits: seq<nat>) | Beyond

  /** `b` in base `p`, with `depth + 1` digits, most significant first. */
  function Digits(b: nat, p: nat, depth: nat): seq<nat>
    requires p > 0
  {
    if depth == 0 then [b] else [b / Pow(p, depth)] + Digits(b % Pow(p, depth), p, depth - 1)
  }

  function PlaceFrom(c: nat, p: nat, level: nat): Place
    requires p > 0
    decreases 3 - level
  {
    if level >= 3 then Beyond
    else if c < Pow(p, level + 1) then Place(DIRECT + level, Digits(c, p, level))
    else PlaceFrom(c - Pow(p, level + 1), p, level + 1)
  }

  function PlaceOf(b: nat, p: nat): Place
    requires p > 0
  {
    if b < DIRECT then Place(b, []) else PlaceFrom(b - DIRECT, p, 0)
  }

  /** The number a string of digits stands for. */
  function Value(digits: seq<nat>, p: nat): nat {
    if digits == [] then 0 else digits[0] * Pow(p, |digits| - 1) + Value(digits[1..], p)
  }

  /** The logical block a place belongs to. */
  function BlockAt(place: Place, p: nat): nat
    requires place.Place?
  {
    if place.first < DIRECT then place.first
    else DIRECT + Below(p, place.first - DIRECT) + Value(place.digits, p)
  }

  /** The blocks the indirection levels before `level` hold. */
  function Below(p: nat, level: nat): nat {
    if level == 0 then 0 else Below(p, level - 1) + Pow(p, level)
  }

  lemma {:induction false} DigitsValue(b: nat, p: nat, depth: nat)
    requires p > 0
    ensures |Digits(b, p, depth)| == depth + 1 && Value(Digits(b, p, depth), p) == b
  {
    hide Pow;
    PowStep(p, depth);
    var ds := Digits(b, p, depth);
    if depth == 0 {
      assert Value(ds, p) == b * Pow(p, 0) + Value([], p);
    } else {
      var w := Pow(p, depth);
      DigitsValue(b % w, p, depth - 1);
      assert ds[1..] == Digits(b % w, p, depth - 1);
      assert Value(ds, p) == b / w * w + Value(ds[1..], p);
    }
  }

  lemma {:induction false} DigitsSmall(b: nat, p: nat, depth: nat)
    requires p > 0 && b < Pow(p, depth + 1)
    ensures Small(Digits(b, p, depth), p)
  {
    hide Pow, Digits, Small;
    PowStep(p, depth);
    var w := Pow(p, depth);
    if depth == 0 {
      OneDigit(b, p);
    } else {
      QuotientSmall(b, w, p);
      DigitsSmall(b % w, p, depth - 1);
      MoreDigits(b, p, depth);
    }
  }

  ghost predicate Small(digits: seq<nat>, p: nat) {
    forall k :: 0 <= k < |digits| ==> digits[k] < p
  }

  lemma PowStep(p: nat, n: nat)
    ensures Pow(p, n + 1) == p * Pow(p, n) && Pow(p, 0) == 1
  {
  }

  lemma OneDigit(b: nat, p: nat)
    requires b < p
    ensures Small(Digits(b, p, 0), p)
  {
  }

  lemma MoreDigits(b: nat, p: nat, depth: nat)
    requires p > 0 && depth > 0 && b / Pow(p, depth) < p && Small(Digits(b % Pow(p, depth), p, depth - 1), p)
    ensures Small(Digits(b, p, depth), p)
  {
  }

  lemma QuotientSmall(b: nat, w: nat, p: nat)
    requires w > 0 && b < p * w
    ensures 0 <= b / w < p
  {
    var q := b / w;
    assert b == q * w + b % w;
    Multiple(q - p, w);
    assert (q - p) * w == q * w - p * w;
  }

  lemma {:induction false} PlaceFromBlock(c: nat, p: nat, level: nat)
    requires p > 0 && level <= 3 && PlaceFrom(c, p, level).Place?
    ensures var place := PlaceFrom(c, p, level);
            && DIRECT <= place.first < 15 && |place.digits| == place.first - DIRECT + 1
            && BlockAt(place, p) == DIRECT + Below(p, level) + c
            && Small(place.digits, p)
    decreases 3 - level
  {
    if c < Pow(p, level + 1) {
      DigitsValue(c, p, level);
      DigitsSmall(c, p, level);
    } else {
      PlaceFromBlock(c - Pow(p, level + 1), p, level + 1);
    }
  }

  /** Distinct logical blocks use distinct pointer slots: the place gives the block back. */
  lemma PlaceOfBlock(b: nat, p: nat)
    requires p > 0 && PlaceOf(b, p).Place?
    ensures var place := PlaceOf(b, p);
            IsPlace(place, p) && BlockAt(place, p) == b
  {
    if b >= DIRECT {
      PlaceFromBlock(b - DIRECT, p, 0);
    }
  }

  lemma PlacesDistinct(a: nat, b: nat, p: nat)
    requires p > 0 && PlaceOf(a, p).Place? && PlaceOf(b, p).Place? && a != b
    ensures PlaceOf(a, p) != PlaceOf(b, p)
  {
    PlaceOfBlock(a, p);
    PlaceOfBlock(b, p);
  }

  /** A well-formed place: a direct pointer, or an indirect one with a digit for each level. */
  ghost predicate IsPlace(place: Place, p: nat) {
    && place.Place? && place.first < 15
    && |place.digits| == (if place.first < DIRECT then 0 else place.first - DIRECT + 1)
    && Small(place.digits, p)
  }

  lemma PlaceFromSome(c: nat, p: nat, level: nat)
    requires p > 0 && level <= 3
    ensures PlaceFrom(c, p, level).Place? <==> c + Below(p, level) < Below(p, 3)
    decreases 3 - level
  {
    if level < 3 {
      assert Below(p, level + 1) == Below(p, level) + Pow(p, level + 1);
      BelowGrows(p, level + 1);
      if c >= Pow(p, level + 1) {
        PlaceFromSome(c - Pow(p, level + 1), p, level + 1);
      }
    }
  }

  lemma BelowGrows(p: nat, level: nat)
    requires level <= 3
    ensures Below(p, level) <= Below(p, 3)
  {
    assert Below(p, 3) == Below(p, 2) + Pow(p, 3) && Below(p, 2) == Below(p, 1) + Pow(p, 2) && Below(p, 1) == Below(p, 0) + Pow(p, 1);
  }

  /** Direct, single, double and triple indirect blocks have a place, and no others. */
  lemma PlaceIff(b: nat, p: nat)
    requires p > 0
    ensures PlaceOf(b, p).Place? <==> b < 12 + p + p * p + p * p * p
  {
    if b >= DIRECT {
      PlaceFromSome(b - DIRECT, p, 0);
    }
    Powers(p);
    assert Below(p, 3) == Below(p, 2) + Pow(p, 3) && Below(p, 2) == Below(p, 1) + Pow(p, 2) && Below(p, 1) == Pow(p, 1);
  }

  lemma Powers(p: nat)
    ensures Pow(p, 1) == p && Pow(p, 2) == p * p && Pow(p, 3) == p * p * p
  {
    PowStep(p, 0);
    PowStep(p, 1);
    PowStep(p, 2);
    Cube(p);
  }

  lemma Cube(p: nat)
    ensures p * (p * p) == p * p * p
  {
  }

  lemma {:induction false} ValueSmall(digits: seq<nat>, p: nat)
    requires p > 0 && Small(digits, p)
    ensures Value(digits, p) < Pow(p, |digits|)
  {
    if digits != [] {
      hide Pow, Small;
      RestSmall(digits, p);
      ValueSmall(digits[1..], p);
      PowStep(p, |digits| - 1);
      DigitBound(digits[0], p, Pow(p, |digits| - 1), Value(digits[1..], p));
    }
  }

  lemma DigitBound(d: nat, p: nat, w: nat, v: nat)
    requires d < p && v < w
    ensures d * w + v < p * w
  {
    Multiple(p - d, w);
    assert (p - d) * w == p * w - d * w;
  }

  lemma {:induction false} ValueDigits(digits: seq<nat>, p: nat)
    requires p > 0 && digits != [] && Small(digits, p)
    ensures Digits(Value(digits, p), p, |digits| - 1) == digits
  {
    hide Pow, Small;
    var v, rest := Value(digits, p), digits[1..];
    if rest == [] {
      PowStep(p, 0);
      assert Value(rest, p) == 0;
      assert v == digits[0] * 1;
    } else {
      var w := Pow(p, |rest|);
      RestSmall(digits, p);
      ValueSmall(rest, p);
      ValueDigits(rest, p);
      Unique(v, w, digits[0], Value(rest, p));
      assert digits == [digits[0]] + rest;
    }
  }

  lemma RestSmall(digits: seq<nat>, p: nat)
    requires digits != [] && Small(digits, p)
    ensures digits[0] < p && Small(digits[1..], p)
  {
  }

  lemma {:induction false} PlaceFromAt(c: nat, p: nat, level: nat, from: nat)
    requires p > 0 && from <= level < 3 && c < Pow(p, level + 1)
    ensures Below(p, level) >= Below(p, from)
    ensures PlaceFrom(Below(p, level) - Below(p, from) + c, p, from) == Place(DIRECT + level, Digits(c, p, level))
    decreases level - from
  {
    hide Digits, Pow;
    if from < level {
      PlaceFromAt(c, p, level, from + 1);
      assert Below(p, from + 1) == Below(p, from) + Pow(p, from + 1);
    }
  }

  /** Every pointer slot belongs to a logical block: the block gives the place back. */
  lemma BlockAtPlace(place: Place, p: nat)
    requires p > 0 && IsPlace(place, p)
    ensures PlaceOf(BlockAt(place, p), p) == place
  {
    if place.first >= DIRECT {
      ValueSmall(place.digits, p);
      ValueDigits(place.digits, p);
      PlaceFromAt(Value(place.digits, p), p, place.first - DIRECT, 0);
    }
  }

  // ---------------------------------------------------------------------------------------
  // The bytes of a file
  // ---------------------------------------------------------------------------------------

  /** Entry `k` of the indirect block `start`. */
  function Entry(disk: Disk, bs: nat, start: nat, k: nat): nat {
    WordAt(disk, start * bs + 4 * k)
  }

  /** Following one entry of each indirect block; 0 stands for a hole all the way. */
  function Follow(disk: Disk, bs: nat, start: nat, digits: seq<nat>): nat
    decreases |digits|
  {
    if start == 0 || digits == [] then start
    else Follow(disk, bs, Entry(disk, bs, start, digits[0]), digits[1..])
  }

  /** The disk block of logical block `b`, 0 for a hole. */
  function BlockOf(disk: Disk, bs: nat, pointers: seq<nat>, b: nat): nat
    requires bs / 4 > 0 && |pointers| == 15
  {
    var place := PlaceOf(b, bs / 4);
    if place.Beyond? || place.first >= 15 then 0 else Follow(disk, bs, pointers[place.first], place.digits)
  }

  /** Byte `i` of the file. */
  function FileByte(disk: Disk, bs: nat, pointers: seq<nat>, i: nat): Byte
    requires BlockSize(bs) && |pointers| == 15
  {
    var block := BlockOf(disk, bs, pointers, i / bs);
    if block == 0 then 0 else disk(block * bs + i % bs)
  }

  // ---------------------------------------------------------------------------------------
  // Pointers in range
  // ---------------------------------------------------------------------------------------

  /** The block lies on the part of the disk a 32-bit offset reaches. */
  predicate OnDisk(bs: nat, block: nat) {
    (block + 1) * bs <= DISK_SIZE
  }

  /** All pointers below `start` through `depth` indirect blocks are on the disk. */
  ghost predicate TreeOk(disk: Disk, bs: nat, start: nat, depth: nat)
    decreases depth
  {
    start == 0 || (OnDisk(bs, start) &&
                   (depth > 0 ==> forall k: nat :: k < bs / 4 ==> TreeOk(disk, bs, Entry(disk, bs, start, k), depth - 1)))
  }

  ghost predicate PointersOk(disk: Disk, bs: nat, pointers: seq<nat>) {
    && |pointers| == 15
    && forall k :: 0 <= k < 15 ==> pointers[k] < WORD && TreeOk(disk, bs, pointers[k], if k < DIRECT then 0 else k - DIRECT + 1)
  }
}
