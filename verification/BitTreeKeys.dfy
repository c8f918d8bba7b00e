/** Indices as digit strings: what the levels of the tree make of a number. */
module BitTreeKeys {
  import opened BitTree
  import opened BitTreeEdit
  import opened BitWords
  import opened Modular

  /** `a` is on the asked side of `b`, digit by digit. */
  ghost predicate Leq(floor: bool, a: nat, b: nat, level: nat) {
    level == 0
    || (LevelIndex(a, level) != LevelIndex(b, level) && Side(floor, LevelIndex(a, level), LevelIndex(b, level)))
    || (LevelIndex(a, level) == LevelIndex(b, level) && Leq(floor, a, b, level - 1))
  }

  /** The number the lower digits make. */
  ghost function Rem(k: nat, level: nat): (r: nat)
    ensures r < Pow32(level)
  {
    k % Pow32(level)
  }

  lemma RemSmall(k: nat, level: nat)
    requires k < Pow32(level)
    ensures Rem(k, level) == k
  {
    Unique(k, Pow32(level), 0, k);
  }

  /** The index with digit `q` at the level and the lower digits of `k`. */
  function Compose(q: nat, k: nat, level: nat): nat
    requires level > 0
  {
    q * Pow32(level - 1) + k % Pow32(level - 1)
  }

  lemma SplitBy(a: nat, p: nat)
    requires p > 0
    ensures a % (32 * p) == (a / p % 32) * p + a % p < 32 * p
  {
    var q, r := a / p, a % p;
    var u, v := q / 32, q % 32;
    assert a == q * p + r;
    assert q == 32 * u + v;
    Distribute(u, v, p);
    Unique(a, 32 * p, u, v * p + r);
  }

  lemma Distribute(u: nat, v: nat, p: nat)
    requires v < 32
    ensures (32 * u + v) * p == u * (32 * p) + v * p && v * p <= 31 * p
  {
    assert (31 - v) * p >= 0;
    assert (31 - v) * p == 31 * p - v * p;
  }

  /** The remainder at a level is its digit and the remainder below. */
  lemma ModSplit(a: nat, level: nat)
    requires level > 0
    ensures var p := Pow32(level - 1);
            a % Pow32(level) == LevelIndex(a, level) * p + a % p
  {
    SplitBy(a, Pow32(level - 1));
  }

  lemma DigitsUnique(d: nat, e: nat, p: nat, r: nat, t: nat)
    requires p > 0 && r < p && t < p
    ensures d * p + r == e * p + t <==> d == e && r == t
    ensures d < e ==> d * p + r < e * p + t
  {
    Multiple(d - e, p);
    assert (d - e) * p == d * p - e * p;
  }

  lemma {:induction false} SameKeyIff(a: nat, b: nat, level: nat)
    ensures SameKey(a, b, level) <==> Rem(a, level) == Rem(b, level)
  {
    if level > 0 {
      var p := Pow32(level - 1);
      SameKeyIff(a, b, level - 1);
      ModSplit(a, level);
      ModSplit(b, level);
      DigitsUnique(LevelIndex(a, level), LevelIndex(b, level), p, a % p, b % p);
    }
  }

  /** Comparing digit by digit is comparing remainders. */
  lemma {:induction false} LeqIff(floor: bool, a: nat, b: nat, level: nat)
    ensures Leq(floor, a, b, level) <==> Side(floor, Rem(a, level), Rem(b, level))
  {
    if level > 0 {
      var p := Pow32(level - 1);
      LeqIff(floor, a, b, level - 1);
      ModSplit(a, level);
      ModSplit(b, level);
      var d, e := LevelIndex(a, level), LevelIndex(b, level);
      DigitsUnique(d, e, p, a % p, b % p);
      DigitsUnique(e, d, p, b % p, a % p);
    }
  }

  lemma ComposeOk(q: nat, k: nat, level: nat)
    requires level > 0 && q < BITS
    ensures LevelIndex(Compose(q, k, level), level) == q
    ensures SameKey(Compose(q, k, level), k, level - 1)
  {
    hide SameKey, Pow32;
    var p := Pow32(level - 1);
    Unique(Compose(q, k, level), p, q, k % p);
    Unique(q, 32, 0, q);
    SameKeyIff(Compose(q, k, level), k, level - 1);
  }

  lemma {:induction false} SameKeyLeq(floor: bool, a: nat, b: nat, c: nat, level: nat)
    requires SameKey(a, b, level)
    ensures Leq(floor, a, c, level) <==> Leq(floor, b, c, level)
    ensures Leq(floor, c, a, level) <==> Leq(floor, c, b, level)
  {
    if level > 0 {
      SameKeyLeq(floor, a, b, c, level - 1);
    }
  }

  /** No index of at most six digits lies beyond the extreme one. */
  lemma {:induction false} ExtremeLeq(floor: bool, a: nat, level: nat)
    requires level <= 6
    ensures Leq(floor, a, Extreme(floor), level)
  {
    if level > 0 {
      ExtremeLeq(floor, a, level - 1);
      ExtremeDigit(floor, level);
    }
  }

  lemma ExtremeDigit(floor: bool, level: nat)
    requires 0 < level <= 6
    ensures LevelIndex(Extreme(floor), level) == if floor then 31 else 0
  {
    assert Pow32(0) == 1 && Pow32(1) == 32 && Pow32(2) == 1024 && Pow32(3) == 32768;
    assert Pow32(4) == 32 * Pow32(3) && Pow32(5) == 32 * Pow32(4);
    if level == 1 {
    } else if level == 2 {
    } else if level == 3 {
    } else if level == 4 {
    } else if level == 5 {
    } else {
    }
  }
}
