/** Powers of two and the aligned address that `internal_memalign` chooses inside a chunk. */
module MallocAlign {
  import opened Arithmetic
  import opened MallocSizes

  ghost predicate PowerOfTwo(x: nat) {
    exists k :: 0 <= k < 32 && x == Pow2(k)
  }

  /** `x & y` */
  function And(x: nat, y: nat): nat {
    if x == 0 || y == 0 then 0 else 2 * And(x / 2, y / 2) + (if x % 2 == 1 && y % 2 == 1 then 1 else 0)
  }

  lemma {:induction false} AndSelf(x: nat)
    ensures And(x, x) == x
  {
    if x > 0 {
      AndSelf(x / 2);
    }
  }

  lemma {:induction false} AndPredecessor(x: nat)
    requires x > 0
    ensures And(x, x - 1) == 0 <==> exists k: nat :: x == Pow2(k)
  {
    if x == 1 {
      assert x == Pow2(0);
    } else if x % 2 == 1 {
      assert (x - 1) / 2 == x / 2;
      AndSelf(x / 2);
      OddPower(x / 2);
    } else {
      var m := x / 2;
      AndPredecessor(m);
      assert (x - 1) / 2 == m - 1;
      assert And(x, x - 1) == 2 * And(m, m - 1);
      EvenPower(m);
    }
  }

  lemma EvenPower(m: nat)
    ensures (exists k: nat :: 2 * m == Pow2(k)) <==> (exists k: nat :: m == Pow2(k))
  {
    if k: nat :| m == Pow2(k) {
      assert 2 * m == Pow2(k + 1);
    }
    if k: nat :| 2 * m == Pow2(k) {
      if k > 0 {
        assert m == Pow2(k - 1);
      }
    }
  }

  lemma OddPower(m: nat)
    requires m > 0
    ensures forall k: nat :: 2 * m + 1 != Pow2(k)
  {
    forall k: nat
      ensures 2 * m + 1 != Pow2(k)
    {
      assert k > 0 ==> Pow2(k) == 2 * Pow2(k - 1);
    }
  }

  /** The bit test recognizes the powers of two, for every 32-bit number but 0. */
  lemma BitTest(x: nat)
    requires 0 < x < WORD
    ensures And(x, x - 1) == 0 <==> PowerOfTwo(x)
  {
    hide Pow2, And;
    AndPredecessor(x);
    Powers();
    if And(x, x - 1) == 0 {
      var k: nat :| x == Pow2(k);
      if 32 <= k {
        Pow2Increases(32, k);
      }
      assert 0 <= k < 32 && x == Pow2(k);
    } else if PowerOfTwo(x) {
      var k :| 0 <= k < 32 && x == Pow2(k);
      var n: nat := k;
      assert x != Pow2(n);
    }
  }

  /** The smallest power of two that is at least 16 and `alignment`. */
  ghost predicate LeastPower(a: nat, alignment: nat) {
    PowerOfTwo(a) && MIN_CHUNK_SIZE <= a && alignment <= a
    && forall k {:trigger Pow2(k)} :: 4 <= k < 32 && alignment <= Pow2(k) ==> a <= Pow2(k)
  }

  lemma LeastAt(k: nat, alignment: nat)
    requires 4 <= k < 32 && alignment <= Pow2(k) && (k == 4 || Pow2(k - 1) < alignment)
    ensures LeastPower(Pow2(k), alignment)
  {
    Powers();
    Pow2Increases(4, k);
    forall j | 4 <= j < 32 && alignment <= Pow2(j)
      ensures Pow2(k) <= Pow2(j)
    {
      if j < k {
        Pow2Increases(j, k - 1);
      } else {
        Pow2Increases(k, j);
      }
    }
  }

  lemma PowerIsLeast(alignment: nat)
    requires MIN_CHUNK_SIZE <= alignment && PowerOfTwo(alignment)
    ensures LeastPower(alignment, alignment)
  {
  }

  /** The rounding at the head of `internal_memalign`. */
  method RoundAlignment(alignment: nat) returns (a: nat)
    requires alignment <= 0x8000_0000
    ensures LeastPower(a, alignment)
  {
    Powers();
    a := if alignment < MIN_CHUNK_SIZE then MIN_CHUNK_SIZE else alignment;
    BitTest(a);
    if And(a, a - 1) == 0 {
      if a == alignment {
        PowerIsLeast(a);
      } else {
        LeastAt(4, alignment);
      }
      return;
    }
    var limit := a;
    a := 16;
    ghost var k := 4;
    while a < limit
      invariant 4 <= k < 32 && a == Pow2(k) && (k == 4 || Pow2(k - 1) < limit)
      decreases limit - a
    {
      a := 2 * a;
      k := k + 1;
    }
    LeastAt(k, limit);
    LeastForMore(a, limit, alignment);
  }

  lemma LeastForMore(a: nat, limit: nat, alignment: nat)
    requires LeastPower(a, limit) && (limit == alignment || (limit == MIN_CHUNK_SIZE && alignment < limit))
    ensures LeastPower(a, alignment)
  {
    if limit != alignment {
      Powers();
      assert Pow2(4) == 16;
    }
  }

  /** A power of two of at least 16 is a multiple of 8 (and of 16). */
  lemma PowerIsAligned(a: nat)
    requires PowerOfTwo(a) && MIN_CHUNK_SIZE <= a
    ensures a % 8 == 0 && a <= 0x8000_0000
  {
    Powers();
    var k :| 0 <= k < 32 && a == Pow2(k);
    Pow2Increases(k, 31);
    if k < 4 {
      Pow2Increases(k, 3);
    } else {
      PowAligned(k);
    }
  }

  lemma {:induction false} PowAligned(k: nat)
    requires 4 <= k
    ensures Pow2(k) % 8 == 0
  {
    hide Pow2;
    if k == 4 {
      Powers();
    } else {
      PowAligned(k - 1);
      Twice(Pow2(k - 1));
      assert Pow2(k) == 2 * Pow2(k - 1) by { Doubled(k - 1); }
    }
  }

  lemma Twice(x: nat)
    requires x % 8 == 0
    ensures 2 * x % 8 == 0
  {
    assert 2 * x == 8 * (x / 8 * 2);
  }

  lemma Doubled(k: nat)
    ensures Pow2(k + 1) == 2 * Pow2(k)
  {
  }

  predicate AlignedTo(x: int, a: int) {
    a > 0 && x % a == 0
  }

  /** The first multiple of `a` from `x` on: `(x + a - 1) & -a` */
  function RoundUp(x: nat, a: nat): nat
    requires a > 0
  {
    (x + a - 1) / a * a
  }

  lemma Quotient(x: nat, a: nat, q: int, r: int)
    requires a > 0 && x == q * a + r && 0 <= r < a
    ensures x / a == q && x % a == r
  {
    var d := x / a - q;
    assert d * a == (x / a) * a - q * a;
    MultipleBound(d, a);
  }

  lemma MultipleBound(d: int, a: int)
    requires a > 0
    ensures d > 0 ==> d * a >= a
    ensures d < 0 ==> d * a <= -a
  {
  }

  lemma RoundUpIs(x: nat, a: nat)
    requires a > 0 && x % a != 0
    ensures x < RoundUp(x, a) < x + a && RoundUp(x, a) % a == 0 && (RoundUp(x, a) + a) % a == 0
  {
    var q, r := x / a, x % a;
    assert (q + 1) * a == q * a + a;
    Quotient(x + a - 1, a, q + 1, r - 1);
    Quotient(RoundUp(x, a), a, q + 1, 0);
    assert (q + 2) * a == (q + 1) * a + a;
    Quotient(RoundUp(x, a) + a, a, q + 2, 0);
  }

  lemma MultipleAligned(x: nat, a: nat)
    requires a > 0 && a % 8 == 0 && x % a == 0
    ensures x % 8 == 0
  {
    var q, m := x / a, a / 8;
    assert x == q * a;
    assert q * (8 * m) == 8 * (q * m);
  }

  /** Where the aligned chunk begins: the leader before it is large enough to be a chunk, and what is
      left behind it still holds `nb`. */
  function AlignedChunk(p: nat, a: nat): int
    requires a > 0
  {
    var br := RoundUp(p + 8, a) - 8;
    if br - p >= MIN_CHUNK_SIZE then br else br + a
  }

  lemma AlignedChunkIs(p: nat, a: nat)
    requires PowerOfTwo(a) && MIN_CHUNK_SIZE <= a && p % 8 == 0 && (p + 8) % a != 0
    ensures var q := AlignedChunk(p, a);
            (q + 8) % a == 0 && q % 8 == 0 && p + MIN_CHUNK_SIZE <= q <= p + a + 8
  {
    hide RoundUp, PowerOfTwo;
    PowerIsAligned(a);
    RoundUpIs(p + 8, a);
    var u := RoundUp(p + 8, a);
    MultipleAligned(u, a);
    SpotSize(p, a, u);
  }

  lemma SpotSize(p: nat, a: nat, u: nat)
    requires p % 8 == 0 && a % 8 == 0 && u % 8 == 0 && p + 8 < u < p + 8 + a
    ensures var q := if u - 8 - p >= MIN_CHUNK_SIZE then u - 8 else u - 8 + a;
            q % 8 == 0 && p + MIN_CHUNK_SIZE <= q <= p + a + 8
  {
  }

  lemma LeastFacts(a: nat, alignment: nat)
    requires LeastPower(a, alignment)
    ensures PowerOfTwo(a) && MIN_CHUNK_SIZE <= a
  {
  }
}
