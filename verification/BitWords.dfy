/** 32-bit words as their bits, least significant first, and the bit searches of kernel/bit_tree.h. */
module BitWords {

  const BITS := 32

  type Word = w: seq<bool> | |w| == BITS witness seq(BITS, _ => false)

  predicate IsZero(w: Word) {
    forall j :: 0 <= j < BITS ==> !w[j]
  }

  function Zero(): (w: Word)
    ensures IsZero(w)
  {
    seq(BITS, _ => false)
  }

  function Shl(w: Word, k: nat): Word {
    seq(BITS, j requires 0 <= j < BITS => j >= k && w[j - k])
  }

  function Shr(w: Word, k: nat): Word {
    seq(BITS, j requires 0 <= j < BITS => j + k < BITS && w[j + k])
  }

  /** mask_bits: the bits not above `index`, or not below it. */
  function MaskBits(w: Word, index: nat, floor: bool): Word
    requires index < BITS
  {
    if floor then Shr(Shl(w, BITS - 1 - index), BITS - 1 - index) else Shl(Shr(w, index), index)
  }

  /** Leading zeros, counted from bit `i - 1` down. */
  function Leading(w: Word, i: nat): nat
    requires i <= BITS
  {
    if i == 0 || w[i - 1] then 0 else 1 + Leading(w, i - 1)
  }

  /** Trailing zeros, counted from bit `i` up. */
  function Trailing(w: Word, i: nat): nat
    requires i <= BITS
    decreases BITS - i
  {
    if i == BITS || w[i] then 0 else 1 + Trailing(w, i + 1)
  }

  /** compute_index: the present bit nearest to `index` on the asked side, 32 if there is none. */
  function ComputeIndex(bits: Word, index: int, floor: bool): int {
    if index < 0 || index > BITS - 1 then BITS else FirstBit(MaskBits(bits, index, floor), floor)
  }

  function FirstBit(masked: Word, floor: bool): int {
    if IsZero(masked) then BITS
    else if floor then BITS - 1 - Leading(masked, BITS)
    else Trailing(masked, 0)
  }

  /** `a` is on the asked side of `b`. */
  predicate Side(floor: bool, a: int, b: int) {
    if floor then a <= b else b <= a
  }

  lemma MaskOk(w: Word, index: nat, floor: bool, j: nat)
    requires index < BITS && j < BITS
    ensures MaskBits(w, index, floor)[j] <==> w[j] && Side(floor, j, index)
  {
  }

  lemma {:induction false} LeadingOk(w: Word, i: nat)
    requires i <= BITS
    ensures Leading(w, i) <= i
    ensures forall j :: i - Leading(w, i) <= j < i ==> !w[j]
    ensures Leading(w, i) < i ==> w[i - 1 - Leading(w, i)]
  {
    if i > 0 && !w[i - 1] {
      LeadingOk(w, i - 1);
    }
  }

  lemma {:induction false} TrailingOk(w: Word, i: nat)
    requires i <= BITS
    ensures i + Trailing(w, i) <= BITS
    ensures forall j :: i <= j < i + Trailing(w, i) ==> !w[j]
    ensures i + Trailing(w, i) < BITS ==> w[i + Trailing(w, i)]
    decreases BITS - i
  {
    if i < BITS && !w[i] {
      TrailingOk(w, i + 1);
    }
  }

  /** The shifts and zero counts find the nearest set bit on the asked side, 32 exactly if there is none. */
  lemma ComputeIndexOk(bits: Word, index: int, floor: bool)
    requires -1 <= index <= BITS
    ensures var q := ComputeIndex(bits, index, floor);
            && 0 <= q <= BITS
            && (q < BITS ==> bits[q] && Side(floor, q, index))
            && (q == BITS && 0 <= index < BITS ==> forall j :: 0 <= j < BITS && Side(floor, j, index) ==> !bits[j])
            && (q < BITS ==> forall j :: 0 <= j < BITS && bits[j] && Side(floor, j, index) ==> Side(floor, j, q))
  {
    if 0 <= index < BITS {
      var masked := MaskBits(bits, index, floor);
      forall j | 0 <= j < BITS
        ensures masked[j] <==> bits[j] && Side(floor, j, index)
      {
        MaskOk(bits, index, floor, j);
      }
      if !IsZero(masked) {
        if floor { LeadingOk(masked, BITS); } else { TrailingOk(masked, 0); }
      }
    }
  }
}
