/**
 The blocks of an ext2 file as its inode spells them out: the direct pointers, then the lists below
 the three indirect pointers, one after the other.  The index arithmetic of get_data_block and
 recurse_radix_tree (kernel/ext2.cc) finds each block at its place in this list.
 */
module FileLayout {
  import opened Ext2Format
  import opened Modular

  ghost function BlockBytes(disk: Disk, bs: nat, block: nat): seq<Byte> {
    seq(bs, k requires 0 <= k => disk(block * bs + k))
  }

  /** Four bytes at a time. */
  ghost function WordsOf(bytes: seq<Byte>): seq<nat>
    decreases |bytes|
  {
    if |bytes| < 4 then [] else [WordOf(bytes[0], bytes[1], bytes[2], bytes[3])] + WordsOf(bytes[4..])
  }

  /** The data blocks below block `start` through `depth` levels of indirect blocks; below a hole they are holes. */
  ghost function Leaves(disk: Disk, bs: nat, start: nat, depth: nat): seq<nat>
    decreases depth, 1, 0
  {
    if start == 0 then seq(Pow(bs / 4, depth), _ => 0)
    else if depth == 0 then [start]
    else AllLeaves(disk, bs, WordsOf(BlockBytes(disk, bs, start)), depth - 1)
  }

  ghost function AllLeaves(disk: Disk, bs: nat, starts: seq<nat>, depth: nat): seq<nat>
    decreases depth, 2, |starts|
  {
    if starts == [] then [] else Leaves(disk, bs, starts[0], depth) + AllLeaves(disk, bs, starts[1..], depth)
  }

  ghost function FileBlocks(disk: Disk, bs: nat, pointers: seq<nat>): seq<nat>
    requires |pointers| == 15
  {
    AllLeaves(disk, bs, pointers[..12], 0) + Leaves(disk, bs, pointers[12], 1) + Leaves(disk, bs, pointers[13], 2)
    + Leaves(disk, bs, pointers[14], 3)
  }

  // ---------------------------------------------------------------------------------------
  // The words of a block
  // ---------------------------------------------------------------------------------------

  lemma {:induction false} WordAtIndex(bytes: seq<Byte>, k: nat)
    requires 4 * k + 4 <= |bytes|
    ensures k < |WordsOf(bytes)|
    ensures WordsOf(bytes)[k] == WordOf(bytes[4 * k], bytes[4 * k + 1], bytes[4 * k + 2], bytes[4 * k + 3])
  {
    hide WordOf;
    if k > 0 {
      WordAtIndex(bytes[4..], k - 1);
    }
  }

  lemma {:induction false} WordCount(bytes: seq<Byte>, n: nat)
    requires |bytes| == 4 * n
    ensures |WordsOf(bytes)| == n
  {
    hide WordOf;
    if n > 0 {
      WordCount(bytes[4..], n - 1);
    }
  }

  lemma BlockWords(disk: Disk, bs: nat, start: nat)
    requires BlockSize(bs)
    ensures var ws := WordsOf(BlockBytes(disk, bs, start));
            |ws| == bs / 4 && forall k: nat :: k < bs / 4 ==> ws[k] == Entry(disk, bs, start, k)
  {
    var bytes := BlockBytes(disk, bs, start);
    WordCount(bytes, bs / 4);
    forall k: nat | k < bs / 4
      ensures WordsOf(bytes)[k] == Entry(disk, bs, start, k)
    {
      WordAtIndex(bytes, k);
    }
  }

  // ---------------------------------------------------------------------------------------
  // Lists of equal length, one after the other
  // ---------------------------------------------------------------------------------------

  lemma {:induction false} AllLeavesAt(disk: Disk, bs: nat, starts: seq<nat>, depth: nat, w: nat, b: nat)
    requires w > 0 && b < |starts| * w
    requires forall k :: 0 <= k < |starts| ==> |Leaves(disk, bs, starts[k], depth)| == w
    ensures 0 <= b / w < |starts| && b < |AllLeaves(disk, bs, starts, depth)|
    ensures AllLeaves(disk, bs, starts, depth)[b] == Leaves(disk, bs, starts[b / w], depth)[b % w]
    decreases |starts|
  {
    hide Leaves;
    var rest := starts[1..];
    assert |starts| * w == |rest| * w + w;
    if b < w {
      Unique(b, w, 0, b);
    } else {
      AllLeavesAt(disk, bs, rest, depth, w, b - w);
      Shifted(b, w);
      assert rest[b / w - 1] == starts[b / w];
    }
  }

  lemma Shifted(b: nat, w: nat)
    requires 0 < w <= b
    ensures (b - w) / w == b / w - 1 && (b - w) % w == b % w
  {
    assert (b / w - 1) * w == b / w * w - w;
    Unique(b - w, w, b / w - 1, b % w);
  }

  lemma {:induction false} AllLeavesLength(disk: Disk, bs: nat, starts: seq<nat>, depth: nat, w: nat)
    requires forall k :: 0 <= k < |starts| ==> |Leaves(disk, bs, starts[k], depth)| == w
    ensures |AllLeaves(disk, bs, starts, depth)| == |starts| * w
    decreases |starts|
  {
    hide Leaves;
    if starts != [] {
      AllLeavesLength(disk, bs, starts[1..], depth, w);
      assert |starts| * w == |starts[1..]| * w + w;
    }
  }

  // ---------------------------------------------------------------------------------------
  // Below one pointer
  // ---------------------------------------------------------------------------------------

  lemma {:induction false} LeavesLength(disk: Disk, bs: nat, start: nat, depth: nat)
    requires BlockSize(bs)
    ensures |Leaves(disk, bs, start, depth)| == Pow(bs / 4, depth)
    decreases depth
  {
    hide Pow, WordsOf, BlockBytes;
    if start != 0 {
      if depth == 0 {
        PowStep(bs / 4, 0);
      } else {
        BlockWords(disk, bs, start);
        var ws := WordsOf(BlockBytes(disk, bs, start));
        forall k | 0 <= k < |ws|
          ensures |Leaves(disk, bs, ws[k], depth - 1)| == Pow(bs / 4, depth - 1)
        {
          LeavesLength(disk, bs, ws[k], depth - 1);
        }
        AllLeavesLength(disk, bs, ws, depth - 1, Pow(bs / 4, depth - 1));
        PowStep(bs / 4, depth - 1);
      }
    }
  }

  lemma HoleLeaf(disk: Disk, bs: nat, depth: nat, b: nat, digits: seq<nat>)
    requires b < Pow(bs / 4, depth)
    ensures b < |Leaves(disk, bs, 0, depth)| && Leaves(disk, bs, 0, depth)[b] == 0 == Follow(disk, bs, 0, digits)
  {
    hide Pow;
  }

  /** Following the digits of `b` finds the b-th leaf. */
  lemma {:induction false} LeavesAt(disk: Disk, bs: nat, start: nat, depth: nat, b: nat)
    requires BlockSize(bs) && b < Pow(bs / 4, depth + 1)
    ensures b < |Leaves(disk, bs, start, depth + 1)|
    ensures Leaves(disk, bs, start, depth + 1)[b] == Follow(disk, bs, start, Digits(b, bs / 4, depth))
    decreases depth
  {
    hide Pow, Digits, Follow, Leaves, Entry;
    if start == 0 {
      HoleLeaf(disk, bs, depth + 1, b, Digits(b, bs / 4, depth));
    } else {
      var w := Pow(bs / 4, depth);
      LeafBelow(disk, bs, start, depth, b);
      var next := Entry(disk, bs, start, b / w);
      BelowEntry(disk, bs, start, next, depth, b);
      if depth > 0 {
        LeavesAt(disk, bs, next, depth - 1, b % w);
      }
    }
  }

  /** The b-th leaf lies below the entry that the first digit picks. */
  lemma LeafBelow(disk: Disk, bs: nat, start: nat, depth: nat, b: nat)
    requires BlockSize(bs) && start != 0 && b < Pow(bs / 4, depth + 1)
    ensures var w := Pow(bs / 4, depth); w > 0 && 0 <= b / w && 0 <= b % w < w
    ensures var w := Pow(bs / 4, depth); var next := Entry(disk, bs, start, b / w);
            && |Leaves(disk, bs, next, depth)| == w && b < |Leaves(disk, bs, start, depth + 1)|
            && Leaves(disk, bs, start, depth + 1)[b] == Leaves(disk, bs, next, depth)[b % w]
  {
    hide Pow, WordsOf, BlockBytes, Entry;
    var p := bs / 4;
    var w := Pow(p, depth);
    var ws := WordsOf(BlockBytes(disk, bs, start));
    BlockWords(disk, bs, start);
    PowStep(p, depth);
    PowPositive(p, depth);
    assert Leaves(disk, bs, start, depth + 1) == AllLeaves(disk, bs, ws, depth);
    hide Leaves, AllLeaves;
    forall k | 0 <= k < |ws|
      ensures |Leaves(disk, bs, ws[k], depth)| == w
    {
      LeavesLength(disk, bs, ws[k], depth);
    }
    AllLeavesAt(disk, bs, ws, depth, w, b);
    QuotientSmall(b, w, p);
  }

  lemma PowPositive(p: nat, n: nat)
    requires p > 0
    ensures Pow(p, n) > 0
  {
  }

  /** One step down: the first digit picks the entry, the others go on from there. */
  lemma BelowEntry(disk: Disk, bs: nat, start: nat, next: nat, depth: nat, b: nat)
    requires BlockSize(bs) && start != 0 && next == Entry(disk, bs, start, b / Pow(bs / 4, depth))
    ensures var w := Pow(bs / 4, depth);
            && (depth == 0 ==> w == 1 && Leaves(disk, bs, next, 0) == [next] && b % w == 0 &&
                               Follow(disk, bs, start, Digits(b, bs / 4, 0)) == next)
            && (depth > 0 ==> Follow(disk, bs, start, Digits(b, bs / 4, depth)) ==
                              Follow(disk, bs, next, Digits(b % w, bs / 4, depth - 1)))
  {
    hide Entry;
    var ds := Digits(b, bs / 4, depth);
    if depth == 0 {
      assert ds == [b] && ds[1..] == [];
      assert Pow(bs / 4, 0) == 1 && b / 1 == b;
    } else {
      assert ds[1..] == Digits(b % Pow(bs / 4, depth), bs / 4, depth - 1);
    }
  }

  // ---------------------------------------------------------------------------------------
  // The whole file
  // ---------------------------------------------------------------------------------------

  lemma {:induction false} DirectBlocks(disk: Disk, bs: nat, starts: seq<nat>)
    ensures AllLeaves(disk, bs, starts, 0) == starts
  {
    if starts != [] {
      DirectBlocks(disk, bs, starts[1..]);
      assert Leaves(disk, bs, starts[0], 0) == [starts[0]];
    }
  }

  lemma PlaceCases(b: nat, p: nat)
    requires p > 0
    ensures var p1, p2, p3 := Pow(p, 1), Pow(p, 2), Pow(p, 3);
            PlaceOf(b, p) ==
              if b < 12 then Place(b, [])
              else if b - 12 < p1 then Place(12, Digits(b - 12, p, 0))
              else if b - 12 - p1 < p2 then Place(13, Digits(b - 12 - p1, p, 1))
              else if b - 12 - p1 - p2 < p3 then Place(14, Digits(b - 12 - p1 - p2, p, 2))
              else Beyond
  {
    hide Pow, Digits;
    if b >= 12 {
      var c: nat := b - 12;
      if c >= Pow(p, 1) {
        assert PlaceFrom(c, p, 0) == PlaceFrom(c - Pow(p, 1), p, 1);
        if c - Pow(p, 1) >= Pow(p, 2) {
          assert PlaceFrom(c - Pow(p, 1), p, 1) == PlaceFrom(c - Pow(p, 1) - Pow(p, 2), p, 2);
        }
      }
    }
  }

  /** The block the index arithmetic finds is the one the inode lists, and behind the list there is none. */
  lemma BlockIsListed(disk: Disk, bs: nat, pointers: seq<nat>, b: nat)
    requires BlockSize(bs) && |pointers| == 15
    ensures var p := bs / 4; |FileBlocks(disk, bs, pointers)| == 12 + p + p * p + p * p * p
    ensures BlockOf(disk, bs, pointers, b) ==
            if b < |FileBlocks(disk, bs, pointers)| then FileBlocks(disk, bs, pointers)[b] else 0
  {
    hide Pow, Digits, PlaceOf, Leaves;
    var p := bs / 4;
    DirectBlocks(disk, bs, pointers[..12]);
    LeavesLength(disk, bs, pointers[12], 1);
    LeavesLength(disk, bs, pointers[13], 2);
    LeavesLength(disk, bs, pointers[14], 3);
    Powers(p);
    PlaceCases(b, p);
    if b >= 12 {
      var c: nat := b - 12;
      if c < Pow(p, 1) {
        LeavesAt(disk, bs, pointers[12], 0, c);
      } else if c - Pow(p, 1) < Pow(p, 2) {
        LeavesAt(disk, bs, pointers[13], 1, c - Pow(p, 1));
      } else if c - Pow(p, 1) - Pow(p, 2) < Pow(p, 3) {
        LeavesAt(disk, bs, pointers[14], 2, c - Pow(p, 1) - Pow(p, 2));
      }
    }
  }
}
