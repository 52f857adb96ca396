/** The 32-bit bin maps of the allocator: `smallmap` and `treemap`, and the
    bit tricks that find the next non-empty bin. */
module MallocBitmap {

  type Idx = i: int | 0 <= i < 32

  /** `idx2bit` */
  function Bit(i: Idx): bv32 {
    1 << i
  }

  /** `smallmap_is_marked` / `treemap_is_marked` */
  predicate Marked(m: bv32, i: Idx) {
    m & Bit(i) != 0
  }

  /** `least_bit`: unsigned negation wraps. */
  function LeastBit(x: bv32): bv32 {
    x & (0 - x)
  }

  /** `left_bits` */
  function LeftBits(x: bv32): bv32 {
    (x << 1) | (0 - (x << 1))
  }

  /** `compute_bit2idx` in its portable form, the one compiled for ARC. */
  function BitToIdx(x: bv32): bv32 {
    var y := x - 1;
    var k := (y >> 12) & 16;
    var n := k;
    var y := y >> k;
    var k := (y >> 5) & 8;
    var n := n + k;
    var y := y >> k;
    var k := (y >> 2) & 4;
    var n := n + k;
    var y := y >> k;
    var k := (y >> 1) & 2;
    var n := n + k;
    var y := y >> k;
    var k := y & 1;
    var n := n + k;
    var y := y >> k;
    n + y
  }

  /** The index as the bin arrays use it. */
  function BitIndex(x: bv32): int {
    BitToIdx(x) as int
  }

  // ---- single bits ----

  ghost predicate Single(x: bv32) {
    x != 0 && x & (x - 1) == 0
  }

  lemma Cases(i: Idx)
    ensures i == 0 || i == 1 || i == 2 || i == 3 || i == 4 || i == 5 || i == 6 || i == 7
         || i == 8 || i == 9 || i == 10 || i == 11 || i == 12 || i == 13 || i == 14 || i == 15
         || i == 16 || i == 17 || i == 18 || i == 19 || i == 20 || i == 21 || i == 22 || i == 23
         || i == 24 || i == 25 || i == 26 || i == 27 || i == 28 || i == 29 || i == 30 || i == 31
  {
  }

  lemma LowBits()
    ensures Bit(0) == 0x1 && Bit(1) == 0x2 && Bit(2) == 0x4 && Bit(3) == 0x8
    ensures Bit(4) == 0x10 && Bit(5) == 0x20 && Bit(6) == 0x40 && Bit(7) == 0x80
    ensures Bit(8) == 0x100 && Bit(9) == 0x200 && Bit(10) == 0x400 && Bit(11) == 0x800
    ensures Bit(12) == 0x1000 && Bit(13) == 0x2000 && Bit(14) == 0x4000 && Bit(15) == 0x8000
  {
  }

  lemma HighBits()
    ensures Bit(16) == 0x1_0000 && Bit(17) == 0x2_0000 && Bit(18) == 0x4_0000 && Bit(19) == 0x8_0000
    ensures Bit(20) == 0x10_0000 && Bit(21) == 0x20_0000 && Bit(22) == 0x40_0000 && Bit(23) == 0x80_0000
    ensures Bit(24) == 0x100_0000 && Bit(25) == 0x200_0000 && Bit(26) == 0x400_0000 && Bit(27) == 0x800_0000
    ensures Bit(28) == 0x1000_0000 && Bit(29) == 0x2000_0000 && Bit(30) == 0x4000_0000 && Bit(31) == 0x8000_0000
  {
  }

  lemma BitSingle(i: Idx)
    ensures Single(Bit(i))
  {
    hide Bit;
    LowBits();
    HighBits();
    Cases(i);
  }

  lemma BitToIdxOfLowBit(i: Idx)
    requires i < 16
    ensures BitToIdx(Bit(i)) == i as bv32
  {
    Cases(i);
  }

  lemma BitToIdxOfMiddleBit(i: Idx)
    requires 16 <= i < 24
    ensures BitToIdx(Bit(i)) == i as bv32
  {
    Cases(i);
  }

  lemma BitToIdxOfHighBit(i: Idx)
    requires 24 <= i
    ensures BitToIdx(Bit(i)) == i as bv32
  {
    Cases(i);
  }

  lemma WordOfLowIndex(i: Idx)
    requires i < 16
    ensures (i as bv32) as int == i
  {
    Cases(i);
  }

  lemma WordOfHighIndex(i: Idx)
    requires 16 <= i
    ensures (i as bv32) as int == i
  {
    Cases(i);
  }

  lemma BitIndexOfBit(i: Idx)
    ensures BitIndex(Bit(i)) == i
  {
    hide Bit, BitToIdx;
    if i < 16 {
      BitToIdxOfLowBit(i);
      WordOfLowIndex(i);
    } else {
      if i < 24 {
        BitToIdxOfMiddleBit(i);
      } else {
        BitToIdxOfHighBit(i);
      }
      WordOfHighIndex(i);
    }
  }

  lemma BitDoubles(i: Idx)
    requires i < 31
    ensures 0 < Bit(i) < 0x8000_0000 && Bit(i + 1) == Bit(i) << 1
  {
    hide Bit;
    LowBits();
    HighBits();
    Cases(i);
  }

  lemma DoubleIsLarger(x: bv32)
    requires 0 < x < 0x8000_0000
    ensures x < x << 1
  {
  }

  lemma {:induction false} BitMonotone(i: Idx, j: Idx)
    requires i < j
    ensures Bit(i) < Bit(j)
    decreases j
  {
    hide Bit;
    BitDoubles(j - 1);
    DoubleIsLarger(Bit(j - 1));
    if i < j - 1 {
      BitMonotone(i, j - 1);
    }
  }

  lemma SinglesDisjoint(a: bv32, b: bv32)
    requires Single(a) && Single(b) && a != b
    ensures a & b == 0
  {
  }

  lemma SetClearSame(m: bv32, a: bv32)
    requires a != 0
    ensures (m | a) & a != 0 && (m & !a) & a == 0
  {
  }

  lemma SetOther(m: bv32, a: bv32, b: bv32)
    requires a & b == 0
    ensures (m | a) & b == m & b
  {
  }

  lemma ClearOther(m: bv32, a: bv32, b: bv32)
    requires a & b == 0
    ensures (m & !a) & b == m & b
  {
  }

  lemma BitsDiffer(i: Idx, j: Idx)
    requires i != j
    ensures Bit(i) & Bit(j) == 0
  {
    hide Bit;
    BitSingle(i);
    BitSingle(j);
    if i < j {
      BitMonotone(i, j);
    } else {
      BitMonotone(j, i);
    }
    SinglesDisjoint(Bit(i), Bit(j));
  }

  lemma OtherBitsKeptByMark(m: bv32, i: Idx, j: Idx)
    requires i != j
    ensures (m | Bit(i)) & Bit(j) == m & Bit(j)
  {
    hide Bit, Single;
    BitsDiffer(i, j);
    SetOther(m, Bit(i), Bit(j));
  }

  lemma OtherBitsKeptByClear(m: bv32, i: Idx, j: Idx)
    requires i != j
    ensures (m & !Bit(i)) & Bit(j) == m & Bit(j)
  {
    hide Bit, Single;
    BitsDiffer(i, j);
    ClearOther(m, Bit(i), Bit(j));
  }

  lemma OwnBitSet(m: bv32, i: Idx)
    ensures (m | Bit(i)) & Bit(i) != 0
  {
    hide Bit;
    assert Bit(i) != 0 by { BitSingle(i); }
    SetClearSame(m, Bit(i));
  }

  lemma OwnBitCleared(m: bv32, i: Idx)
    ensures (m & !Bit(i)) & Bit(i) == 0
  {
    hide Bit;
    assert Bit(i) != 0 by { BitSingle(i); }
    SetClearSame(m, Bit(i));
  }

  lemma MarkOwn(m: bv32, i: Idx)
    ensures Marked(m | Bit(i), i) && !Marked(m & !Bit(i), i)
  {
    hide Bit;
    OwnBitSet(m, i);
    OwnBitCleared(m, i);
  }

  lemma MarkOther(m: bv32, i: Idx, j: Idx)
    requires i != j
    ensures Marked(m | Bit(i), j) <==> Marked(m, j)
  {
    hide Bit;
    OtherBitsKeptByMark(m, i, j);
  }

  lemma ClearOtherMark(m: bv32, i: Idx, j: Idx)
    requires i != j
    ensures Marked(m & !Bit(i), j) <==> Marked(m, j)
  {
    hide Bit;
    OtherBitsKeptByClear(m, i, j);
  }

  /** Marking sets exactly the one bit, clearing clears exactly the one bit. */
  lemma MarkAndClear(m: bv32, i: Idx, j: Idx)
    ensures Marked(m | Bit(i), j) <==> i == j || Marked(m, j)
    ensures Marked(m & !Bit(i), j) <==> i != j && Marked(m, j)
  {
    hide Bit, Marked;
    if i == j {
      MarkOwn(m, i);
    } else {
      MarkOther(m, i, j);
      ClearOtherMark(m, i, j);
    }
  }

  lemma LeftBitsOfSingle(a: bv32, b: bv32)
    requires Single(a) && Single(b)
    ensures LeftBits(a) & b == if b > a then b else 0
  {
  }

  lemma LeastSingle(y: bv32)
    requires y != 0
    ensures Single(LeastBit(y))
  {
  }

  lemma LeastBitOf(y: bv32, b: bv32)
    requires y != 0 && Single(b) && b < LeastBit(y)
    ensures y & b == 0
  {
  }

  lemma SingleWords(x: bv32)
    requires Single(x)
    ensures x == 0x1 || x == 0x2 || x == 0x4 || x == 0x8 || x == 0x10 || x == 0x20 || x == 0x40 || x == 0x80
         || x == 0x100 || x == 0x200 || x == 0x400 || x == 0x800
         || x == 0x1000 || x == 0x2000 || x == 0x4000 || x == 0x8000
         || x == 0x1_0000 || x == 0x2_0000 || x == 0x4_0000 || x == 0x8_0000
         || x == 0x10_0000 || x == 0x20_0000 || x == 0x40_0000 || x == 0x80_0000
         || x == 0x100_0000 || x == 0x200_0000 || x == 0x400_0000 || x == 0x800_0000
         || x == 0x1000_0000 || x == 0x2000_0000 || x == 0x4000_0000 || x == 0x8000_0000
  {
  }

  lemma SingleCases(x: bv32)
    requires Single(x)
    ensures exists i: Idx :: x == Bit(i)
  {
    hide Bit, Single;
    SingleWords(x);
    LowBits();
    HighBits();
  }

  lemma MarkedByLeast(m: bv32, b: bv32)
    requires m != 0 && b == LeastBit(m)
    ensures m & b != 0
  {
  }

  lemma BelowLeastUnmarked(m: bv32, i: Idx, k: Idx)
    requires m != 0 && LeastBit(m) == Bit(i) && k < i
    ensures m & Bit(k) == 0
  {
    hide Bit, LeastBit;
    BitSingle(k);
    BitMonotone(k, i);
    LeastBitOf(m, Bit(k));
  }

  lemma LeastIsABit(m: bv32) returns (i: Idx)
    requires m != 0
    ensures LeastBit(m) == Bit(i) && BitIndex(LeastBit(m)) == i
  {
    hide Bit, Single, LeastBit, BitIndex;
    LeastSingle(m);
    SingleCases(LeastBit(m));
    i :| LeastBit(m) == Bit(i);
    BitIndexOfBit(i);
  }

  /** `least_bit` followed by `compute_bit2idx` is the lowest marked index of any non-zero map. */
  lemma LowestMarked(m: bv32)
    requires m != 0
    ensures var i := BitIndex(LeastBit(m));
            0 <= i < 32 && Marked(m, i) && forall k: Idx :: k < i ==> !Marked(m, k)
  {
    hide Bit, Single, LeastBit, BitIndex;
    var i := LeastIsABit(m);
    MarkedByLeast(m, Bit(i));
    forall k: Idx | k < i
      ensures !Marked(m, k)
    {
      BelowLeastUnmarked(m, i, k);
    }
  }

  lemma MaskedAnd(l: bv32, m: bv32, b: bv32)
    requires l & b == b
    ensures (l & m) & b == m & b
  {
  }

  lemma MaskedAway(l: bv32, m: bv32, b: bv32)
    requires l & b == 0
    ensures (l & m) & b == 0
  {
  }

  lemma MaskedAbove(m: bv32, idx: Idx, k: Idx)
    requires idx < k
    ensures (LeftBits(Bit(idx)) & m) & Bit(k) == m & Bit(k)
  {
    hide Bit, LeftBits;
    BitSingle(idx);
    BitSingle(k);
    BitMonotone(idx, k);
    LeftBitsOfSingle(Bit(idx), Bit(k));
    MaskedAnd(LeftBits(Bit(idx)), m, Bit(k));
  }

  lemma MaskedBelow(m: bv32, idx: Idx, k: Idx)
    requires k <= idx
    ensures (LeftBits(Bit(idx)) & m) & Bit(k) == 0
  {
    hide Bit, LeftBits;
    BitSingle(idx);
    BitSingle(k);
    if k < idx {
      BitMonotone(k, idx);
    }
    LeftBitsOfSingle(Bit(idx), Bit(k));
    MaskedAway(LeftBits(Bit(idx)), m, Bit(k));
  }

  lemma MaskedBit(m: bv32, idx: Idx, k: Idx)
    ensures (LeftBits(Bit(idx)) & m) & Bit(k) == if k > idx then m & Bit(k) else 0
  {
    hide Bit, LeftBits;
    if k > idx {
      MaskedAbove(m, idx, k);
    } else {
      MaskedBelow(m, idx, k);
    }
  }

  lemma MaskedMarked(m: bv32, idx: Idx, k: Idx)
    ensures Marked(LeftBits(Bit(idx)) & m, k) <==> k > idx && Marked(m, k)
  {
    hide Bit, LeftBits;
    MaskedBit(m, idx, k);
  }

  lemma ZeroUnmarked(m: bv32)
    ensures m == 0 <==> forall k: Idx :: !Marked(m, k)
  {
    hide Bit;
    if m == 0 {
      forall k: Idx ensures !Marked(m, k) { assert 0 & Bit(k) == 0; }
    } else {
      LowestMarked(m);
    }
  }

  /** `compute_bit2idx(least_bit(left_bits(idx2bit(idx)) & m))`, or 32 when no bit is left. */
  function NextIndex(m: bv32, idx: Idx): int {
    var l := LeftBits(Bit(idx)) & m;
    if l == 0 then 32 else BitIndex(LeastBit(l))
  }

  /** The bit tricks find the lowest marked index above `idx`, for every 32-bit map. */
  lemma NextMarked(m: bv32, idx: Idx)
    ensures idx < NextIndex(m, idx) <= 32
    ensures NextIndex(m, idx) < 32 ==> Marked(m, NextIndex(m, idx))
    ensures forall k: Idx :: idx < k < NextIndex(m, idx) ==> !Marked(m, k)
  {
    hide Bit, Marked, LeftBits, LeastBit, BitIndex;
    var l := LeftBits(Bit(idx)) & m;
    forall k: Idx
      ensures Marked(l, k) <==> k > idx && Marked(m, k)
    {
      MaskedMarked(m, idx, k);
    }
    ZeroUnmarked(l);
    if l != 0 {
      LowestMarked(l);
    }
  }

  // ---- the maps as the allocator holds them ----

  /** A `binmap_t` variable. */
  datatype BinMap = BinMap(word: bv32)

  const EMPTY_MAP := BinMap(0)

  predicate IsMarked(m: BinMap, i: Idx) {
    Marked(m.word, i)
  }

  /** `mark_smallmap`, `mark_treemap` */
  function MarkBin(m: BinMap, i: Idx): BinMap {
    BinMap(m.word | Bit(i))
  }

  /** `clear_smallmap`, `clear_treemap` */
  function ClearBin(m: BinMap, i: Idx): BinMap {
    BinMap(m.word & !Bit(i))
  }

  lemma BinMarked(m: BinMap, i: Idx, j: Idx)
    ensures IsMarked(MarkBin(m, i), j) <==> i == j || IsMarked(m, j)
  {
    hide Bit, Marked;
    MarkAndClear(m.word, i, j);
  }

  lemma BinCleared(m: BinMap, i: Idx, j: Idx)
    ensures IsMarked(ClearBin(m, i), j) <==> i != j && IsMarked(m, j)
  {
    hide Bit, Marked;
    MarkAndClear(m.word, i, j);
  }

  lemma BinUpdates(m: BinMap, i: Idx, j: Idx)
    ensures IsMarked(MarkBin(m, i), j) <==> i == j || IsMarked(m, j)
    ensures IsMarked(ClearBin(m, i), j) <==> i != j && IsMarked(m, j)
  {
    hide IsMarked, MarkBin, ClearBin;
    BinMarked(m, i, j);
    BinCleared(m, i, j);
  }

  predicate NoBin(m: BinMap) {
    m.word == 0
  }

  lemma NoBinMarked(m: BinMap)
    ensures NoBin(m) <==> forall k: Idx :: !IsMarked(m, k)
  {
    hide Bit, Marked;
    ZeroUnmarked(m.word);
    if forall k: Idx :: !IsMarked(m, k) {
      forall k: Idx
        ensures !Marked(m.word, k)
      {
        assert !IsMarked(m, k);
      }
    }
  }

  /** The next marked index of a map above `i`; 32 when there is none. */
  function NextBin(m: BinMap, i: Idx): int {
    NextIndex(m.word, i)
  }

  lemma NextBinIsNext(m: BinMap, i: Idx)
    ensures i < NextBin(m, i) <= 32
    ensures NextBin(m, i) < 32 ==> IsMarked(m, NextBin(m, i))
    ensures forall k: Idx :: i < k < NextBin(m, i) ==> !IsMarked(m, k)
  {
    hide NextIndex, Marked;
    NextMarked(m.word, i);
  }

  /** `compute_bit2idx(least_bit(map))` of a non-empty map. */
  function FirstBin(m: BinMap): int {
    BitIndex(LeastBit(m.word))
  }

  lemma FirstBinIsFirst(m: BinMap)
    requires !NoBin(m)
    ensures 0 <= FirstBin(m) < 32 && IsMarked(m, FirstBin(m))
    ensures forall k: Idx :: k < FirstBin(m) ==> !IsMarked(m, k)
  {
    hide Bit, Marked, LeastBit, BitIndex;
    LowestMarked(m.word);
  }

  // ---- the window of `dlmalloc` on the small map ----

  /** `w >> n`, as n single shifts. */
  function ShiftRight(w: bv32, n: nat): bv32 {
    if n == 0 then w else ShiftRight(w, n - 1) >> 1
  }

  /** `w << n`, as n single shifts. */
  function ShiftLeft(w: bv32, n: nat): bv32 {
    if n == 0 then w else ShiftLeft(w, n - 1) << 1
  }

  lemma HalfBit(w: bv32, b: bv32)
    requires b < 0x8000_0000
    ensures (w >> 1) & b == (w & (b << 1)) >> 1
  {
  }

  lemma HalfZero(w: bv32, b: bv32)
    requires b < 0x8000_0000
    ensures (w & (b << 1)) >> 1 == 0 <==> w & (b << 1) == 0
  {
  }

  lemma MarkedHalf(w: bv32, k: Idx)
    requires k < 31
    ensures Marked(w >> 1, k) <==> Marked(w, k + 1)
  {
    hide Bit;
    BitDoubles(k);
    HalfBit(w, Bit(k));
    HalfZero(w, Bit(k));
  }

  lemma DoubleBit(w: bv32, b: bv32)
    requires b < 0x8000_0000
    ensures (w << 1) & (b << 1) == (w & b) << 1
  {
  }

  lemma DoubleZero(w: bv32, b: bv32)
    requires b < 0x8000_0000
    ensures (w & b) << 1 == 0 <==> w & b == 0
  {
  }

  lemma MarkedDouble(w: bv32, k: Idx)
    requires k < 31
    ensures Marked(w << 1, k + 1) <==> Marked(w, k)
  {
    hide Bit;
    BitDoubles(k);
    DoubleBit(w, Bit(k));
    DoubleZero(w, Bit(k));
  }

  lemma TopHalf(w: bv32)
    ensures (w >> 1) & 0x8000_0000 == 0
  {
  }

  lemma TopMarked(w: bv32)
    ensures !Marked(w >> 1, 31)
  {
    TopHalf(w);
    assert Bit(31) == 0x8000_0000;
  }

  lemma {:induction false} MarkedRight(w: bv32, n: nat, k: Idx)
    ensures Marked(ShiftRight(w, n), k) <==> k + n < 32 && Marked(w, k + n)
    decreases n
  {
    hide Marked;
    if n > 0 {
      var v := ShiftRight(w, n - 1);
      if k < 31 {
        MarkedHalf(v, k);
        MarkedRight(w, n - 1, k + 1);
      } else {
        TopMarked(v);
      }
    }
  }

  lemma {:induction false} MarkedLeft(w: bv32, n: nat, k: Idx)
    requires n <= k
    ensures Marked(ShiftLeft(w, n), k) <==> Marked(w, k - n)
    decreases n
  {
    hide Marked;
    if n > 0 {
      MarkedDouble(ShiftLeft(w, n - 1), k - 1);
      MarkedLeft(w, n - 1, k - 1);
    }
  }

  /** `smallmap >> idx` */
  function SmallBits(m: BinMap, idx: Idx): bv32 {
    ShiftRight(m.word, idx)
  }

  /** `(smallbits & 0x3) != 0` */
  predicate FitsExactly(b: bv32) {
    b & 3 != 0
  }

  /** `idx += ~smallbits & 1` */
  function ExactBin(b: bv32, idx: int): int {
    if !b & 1 == 1 then idx + 1 else idx
  }

  lemma LowTwo(b: bv32)
    ensures b & 3 != 0 <==> b & 1 != 0 || b & 2 != 0
  {
  }

  lemma LowOne(b: bv32)
    ensures !b & 1 == 1 <==> b & 1 == 0
  {
  }

  lemma MarkedZero(b: bv32)
    ensures Marked(b, 0) <==> b & 1 != 0
  {
    assert Bit(0) == 1;
  }

  lemma MarkedOne(b: bv32)
    ensures Marked(b, 1) <==> b & 2 != 0
  {
    assert Bit(1) == 2;
  }

  lemma FitsMarks(b: bv32)
    ensures FitsExactly(b) <==> Marked(b, 0) || Marked(b, 1)
  {
    hide Marked;
    LowTwo(b);
    MarkedZero(b);
    MarkedOne(b);
  }

  lemma ExactBinIs(b: bv32, idx: int)
    ensures ExactBin(b, idx) == if Marked(b, 0) then idx else idx + 1
  {
    hide Marked;
    LowOne(b);
    MarkedZero(b);
  }

  /** The two-bin window finds a marked bin at `idx` or `idx + 1`, preferring `idx`, iff there is one. */
  lemma WindowIsExact(m: BinMap, idx: Idx)
    ensures var b := SmallBits(m, idx);
            if FitsExactly(b) then ExactBin(b, idx) < 32 && IsMarked(m, ExactBin(b, idx))
                                   && (ExactBin(b, idx) == if IsMarked(m, idx) then idx else idx + 1)
            else !IsMarked(m, idx) && (idx < 31 ==> !IsMarked(m, idx + 1))
  {
    hide Marked, ShiftRight, FitsExactly, ExactBin;
    var b := SmallBits(m, idx);
    FitsMarks(b);
    ExactBinIs(b, idx);
    MarkedRight(m.word, idx, 0);
    MarkedRight(m.word, idx, 1);
  }

  /** `compute_bit2idx(least_bit((smallbits << idx) & left_bits(idx2bit(idx))))`, or 32. */
  function NextSmall(b: bv32, idx: Idx): int {
    NextIndex(ShiftLeft(b, idx), idx)
  }

  /** Shifting the window back loses only bins below `idx`: the next marked bin above `idx` is found. */
  lemma NextSmallIsNext(m: BinMap, idx: Idx)
    ensures var k := NextSmall(SmallBits(m, idx), idx);
            && idx < k <= 32
            && (k < 32 ==> IsMarked(m, k))
            && forall j: Idx :: idx < j < k ==> !IsMarked(m, j)
  {
    hide Marked, ShiftRight, ShiftLeft, NextIndex;
    var b := SmallBits(m, idx);
    var w := ShiftLeft(b, idx);
    forall j: Idx | idx < j
      ensures Marked(w, j) <==> IsMarked(m, j)
    {
      MarkedLeft(b, idx, j);
      MarkedRight(m.word, idx, j - idx);
    }
    NextMarked(w, idx);
  }

  /** `smallbits != 0` */
  lemma WindowEmpty(m: BinMap, idx: Idx)
    ensures SmallBits(m, idx) == 0 <==> forall j: Idx :: idx <= j ==> !IsMarked(m, j)
  {
    hide Marked, ShiftRight;
    var b := SmallBits(m, idx);
    ZeroUnmarked(b);
    forall j: Idx
      ensures Marked(b, j) <==> j + idx < 32 && IsMarked(m, j + idx)
    {
      MarkedRight(m.word, idx, j);
    }
    if b == 0 {
      forall j: Idx | idx <= j
        ensures !IsMarked(m, j)
      {
        MarkedRight(m.word, idx, j - idx);
      }
    }
  }
}
