/** Arithmetic of the tree bins: which sizes a bin holds, and how the bits of a
    size steer the walk down its trie. */
module MallocTreeIndex {
  import opened Arithmetic
  import opened MallocSizes

  // ---- shifts ----

  lemma ShrBracket(s: nat, e: nat)
    ensures Shr(s, e) * Pow2(e) <= s < Shr(s, e) * Pow2(e) + Pow2(e)
  {
  }

  lemma MulGap(p: nat, q: nat, d: nat)
    requires p < q
    ensures p * d + d <= q * d
  {
    var k: nat := q - p - 1;
    assert k * d >= 0;
    assert (p + 1 + k) * d == p * d + d + k * d;
  }

  lemma ShrUnique(s: nat, e: nat, q: nat)
    requires q * Pow2(e) <= s < q * Pow2(e) + Pow2(e)
    ensures Shr(s, e) == q
  {
    hide Shr, Pow2;
    ShrBracket(s, e);
    if Shr(s, e) < q {
      MulGap(Shr(s, e), q, Pow2(e));
    } else if q < Shr(s, e) {
      MulGap(q, Shr(s, e), Pow2(e));
    }
  }

  lemma ShrStep(s: nat, e: nat)
    ensures Shr(s, e + 1) == Shr(s, e) / 2
  {
    hide Shr;
    var q := Shr(s, e) / 2;
    ShrBracket(s, e);
    assert Pow2(e + 1) == 2 * Pow2(e);
    assert Shr(s, e) == 2 * q || Shr(s, e) == 2 * q + 1;
    assert q * Pow2(e + 1) == 2 * q * Pow2(e);
    assert (2 * q + 1) * Pow2(e) == 2 * q * Pow2(e) + Pow2(e);
    ShrUnique(s, e + 1, q);
  }

  lemma ShrMonotone(a: nat, b: nat, e: nat)
    requires a <= b
    ensures Shr(a, e) <= Shr(b, e)
  {
    hide Shr, Pow2;
    ShrBracket(a, e);
    ShrBracket(b, e);
    if Shr(b, e) < Shr(a, e) {
      MulGap(Shr(b, e), Shr(a, e), Pow2(e));
    }
  }

  lemma ShrZero(s: nat)
    ensures Shr(s, 0) == s
    ensures s < WORD ==> Shr(s, 32) == 0
  {
    Powers();
  }

  /** Agreeing on the bits from `e` up implies agreeing on the bits from `f` up. */
  lemma {:induction false} ShrAgree(a: nat, b: nat, e: nat, f: nat)
    requires e <= f && Shr(a, e) == Shr(b, e)
    ensures Shr(a, f) == Shr(b, f)
    decreases f
  {
    if e < f {
      ShrAgree(a, b, e, f - 1);
      ShrStep(a, f - 1);
      ShrStep(b, f - 1);
    }
  }

  // ---- bins ----

  /** Number of low bits of a size that the trie of bin `i` still resolves. */
  function RootExp(i: nat): nat
    requires i < NTREEBINS
  {
    32 - LeftShift(i)
  }

  lemma LogPrefix(s: nat, k: nat)
    requires k < 16 && Pow2(k) <= s / 256 < 2 * Pow2(k)
    ensures Shr(s, k + 7) == 2 || Shr(s, k + 7) == 3
  {
    hide Shr;
    var p := Pow2(k);
    assert Pow2(k + 7) == 128 * p by {
      assert Pow2(k + 1) == 2 * p && Pow2(k + 2) == 4 * p && Pow2(k + 3) == 8 * p && Pow2(k + 4) == 16 * p;
      assert Pow2(k + 5) == 32 * p && Pow2(k + 6) == 64 * p;
    }
    if s < 3 * Pow2(k + 7) {
      ShrUnique(s, k + 7, 2);
    } else {
      ShrUnique(s, k + 7, 3);
    }
  }

  lemma LastBin(s: nat)
    requires s / 256 > 0xFFFF
    ensures TreeIndex(s) == 31 && s >= MinSize(31)
  {
    hide AndBit, Shl, Wrap;
    Powers();
    assert Shr(s, 8) == s / 256;
    MinSizeShape(31);
  }

  /** Every size of a tree bin below the last has the same bits from the bin's root exponent up. */
  lemma TreeIndexPrefix(s: nat)
    requires MIN_LARGE_SIZE <= s < WORD
    ensures var i := TreeIndex(s); 0 <= i < NTREEBINS
    ensures var i := TreeIndex(s); i < 31 ==> Shr(s, i / 2 + 7) == 2 + i % 2
    ensures var i := TreeIndex(s); i == 31 ==> s >= MinSize(31)
  {
    hide TreeIndex, Shr, NormLog, Pow2, MinSize;
    if s / 256 <= 0xFFFF {
      var k := NormLog(s / 256);
      NormLogValue(s / 256);
      TreeIndexUnfolds(s);
      LogPrefix(s, k);
      assert TreeIndex(s) / 2 == k;
      if TreeIndex(s) == 31 {
        ShrBracket(s, 22);
        MinSizeShape(31);
      }
    } else {
      LastBin(s);
    }
  }

  lemma MinSizeShape(i: nat)
    ensures MinSize(i) == (2 + i % 2) * Pow2(i / 2 + 7)
  {
  }

  lemma {:induction false} MinSizeIncreases(i: nat, j: nat)
    requires i < j
    ensures MinSize(i) < MinSize(j)
    decreases j
  {
    if i < j - 1 {
      MinSizeIncreases(i, j - 1);
    }
    MinSizeShape(j - 1);
    MinSizeShape(j);
  }

  /** `compute_tree_index` and `minsize_for_tree_index` agree on both sides of every bin. */
  lemma TreeIndexBracket(s: nat, i: nat)
    requires MIN_LARGE_SIZE <= s < WORD && i < NTREEBINS
    ensures TreeIndex(s) == i <==> MinSize(i) <= s && (i < 31 ==> s < MinSize(i + 1))
  {
    hide TreeIndex, Shr, MinSize, Pow2;
    var t := TreeIndex(s);
    TreeIndexPrefix(s);
    assert MinSize(t) <= s && (t < 31 ==> s < MinSize(t + 1)) by {
      if t < 31 {
        ShrBracket(s, t / 2 + 7);
        MinSizeShape(t);
        MinSizeShape(t + 1);
        assert t % 2 == 1 ==> Pow2((t + 1) / 2 + 7) == 2 * Pow2(t / 2 + 7) by { PowDouble(t / 2 + 7); }
      }
    }
    if t < i {
      if t + 1 < i {
        MinSizeIncreases(t + 1, i);
      }
    } else if i < t {
      if i + 1 < t {
        MinSizeIncreases(i + 1, t);
      }
    }
  }

  lemma PowDouble(n: nat)
    ensures Pow2(n + 1) == 2 * Pow2(n)
  {
  }

  lemma TreeIndexMonotone(a: nat, b: nat)
    requires MIN_LARGE_SIZE <= a <= b < WORD
    ensures 0 <= TreeIndex(a) <= TreeIndex(b) < NTREEBINS
  {
    hide TreeIndex, MinSize;
    TreeIndexPrefix(a);
    TreeIndexPrefix(b);
    var i, j := TreeIndex(a), TreeIndex(b);
    TreeIndexBracket(a, i);
    TreeIndexBracket(b, j);
    if j + 1 < i {
      MinSizeIncreases(j + 1, i);
    }
  }

  /** All sizes of one bin agree on the bits that the trie does not look at. */
  lemma SameBinSameRoot(a: nat, b: nat)
    requires MIN_LARGE_SIZE <= a < WORD && MIN_LARGE_SIZE <= b < WORD && TreeIndex(a) == TreeIndex(b)
    ensures 0 <= TreeIndex(a) < NTREEBINS && Shr(a, RootExp(TreeIndex(a))) == Shr(b, RootExp(TreeIndex(a)))
  {
    hide TreeIndex, Shr;
    TreeIndexPrefix(a);
    TreeIndexPrefix(b);
    ShrZero(a);
    ShrZero(b);
  }

  // ---- the key word that is shifted left once per level ----

  /** The low `e` bits of `s`, moved to the top of a 32-bit word. */
  function KeyWord(s: nat, e: nat): nat
    requires e <= 32
  {
    s % Pow2(e) * Pow2(32 - e)
  }

  lemma LowBits(s: nat, e: nat)
    ensures s % Pow2(e) == s - Shr(s, e) * Pow2(e)
  {
  }

  lemma MulLess(r: nat, p: nat, q: nat)
    requires r < p && q > 0
    ensures r * q < p * q
  {
  }

  lemma WrapOf(a: nat, r: nat)
    requires r < WORD
    ensures Wrap(a * WORD + r) == r
  {
  }

  lemma KeyInit(s: nat, i: nat)
    requires i < NTREEBINS
    ensures Shl(s, LeftShift(i)) == KeyWord(s, RootExp(i))
  {
    hide Shr, Pow2, Wrap;
    var e := RootExp(i);
    var m := Pow2(32 - e);
    LowBits(s, e);
    var r := s % Pow2(e);
    assert WORD == Pow2(e) * m by { PowAdd(e, 32 - e); Powers(); }
    MulLess(r, Pow2(e), m);
    assert s * m == Shr(s, e) * WORD + r * m by {
      assert Shr(s, e) * Pow2(e) * m == Shr(s, e) * (Pow2(e) * m);
    }
    WrapOf(Shr(s, e), r * m);
  }

  lemma SplitLow(s: nat, e: nat)
    requires 1 <= e
    ensures s % Pow2(e) == Shr(s, e - 1) % 2 * Pow2(e - 1) + s % Pow2(e - 1)
  {
    hide Shr;
    var h := Pow2(e - 1);
    var q := Shr(s, e);
    LowBits(s, e);
    LowBits(s, e - 1);
    ShrStep(s, e - 1);
    assert Pow2(e) == 2 * h;
    var b := Shr(s, e - 1) % 2;
    assert Shr(s, e - 1) == 2 * q + b;
    assert (2 * q + b) * h == q * (2 * h) + b * h;
  }

  lemma KeyParts(s: nat, e: nat)
    requires 1 <= e <= 32
    ensures s % Pow2(e - 1) * Pow2(32 - e) < 0x8000_0000
    ensures KeyWord(s, e) == Shr(s, e - 1) % 2 * 0x8000_0000 + s % Pow2(e - 1) * Pow2(32 - e)
  {
    hide Shr, Pow2;
    var m := Pow2(32 - e);
    var h := Pow2(e - 1);
    var b := Shr(s, e - 1) % 2;
    var r := s % h;
    SplitLow(s, e);
    assert h * m == 0x8000_0000 by { PowAdd(e - 1, 32 - e); Powers(); }
    MulLess(r, h, m);
    assert (b * h + r) * m == b * (h * m) + r * m;
  }

  lemma SignBit(k: nat, b: nat, v: nat)
    requires b < 2 && v < 0x8000_0000 && k == b * 0x8000_0000 + v
    ensures k / 0x8000_0000 % 2 == b && Shl(k, 1) == 2 * v
  {
    hide Wrap;
    assert Pow2(1) == 2;
    WrapOf(b, 2 * v);
  }

  lemma KeyHalved(s: nat, e: nat)
    requires 1 <= e <= 32
    ensures KeyWord(s, e - 1) == 2 * (s % Pow2(e - 1) * Pow2(32 - e))
  {
    hide Pow2;
    var r, m := s % Pow2(e - 1), Pow2(32 - e);
    PowDouble(32 - e);
    assert r * (2 * m) == 2 * (r * m);
  }

  /** The sign bit of the key is the bit of the size that level `e` branches on. */
  lemma KeyBit(s: nat, e: nat)
    requires 1 <= e <= 32
    ensures KeyWord(s, e) / 0x8000_0000 % 2 == Shr(s, e - 1) % 2
    ensures Shl(KeyWord(s, e), 1) == KeyWord(s, e - 1)
  {
    hide Shr, Shl, KeyWord, Pow2;
    KeyParts(s, e);
    KeyHalved(s, e);
    SignBit(KeyWord(s, e), Shr(s, e - 1) % 2, s % Pow2(e - 1) * Pow2(32 - e));
  }
}
