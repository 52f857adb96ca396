/** Sizes, 32-bit words and bin indices of the allocator (SIZE_T_SIZE = 4). */
module MallocSizes {
  import opened Arithmetic

  const WORD := 0x1_0000_0000            // 2^32
  const MIN_CHUNK_SIZE := 16
  const MIN_LARGE_SIZE := 256
  const MAX_SMALL_REQUEST := 244
  const MAX_REQUEST := 0xFFFF_FFC0
  const MAX_SIZE_T := 0xFFFF_FFFF
  const MIN_REQUEST := 11
  const TOP_FOOT_SIZE := 40
  const SYS_ALLOC_PADDING := 48
  const NTREEBINS := 32

  /** The value of an unsigned 32-bit computation. */
  function Wrap(x: int): (r: nat)
    ensures r < WORD
  {
    x % WORD
  }

  function Shl(x: nat, n: nat): nat {
    Wrap(x * Pow2(n))
  }

  lemma QuotientNat(a: nat, b: nat)
    requires b > 0
    ensures a / b >= 0
  {
  }

  function Shr(x: nat, n: nat): nat {
    QuotientNat(x, Pow2(n));
    x / Pow2(n)
  }

  /** `x & 2^n` for a single bit. */
  function AndBit(x: nat, n: nat): (r: nat)
    ensures r == 0 || r == Pow2(n)
  {
    Shr(x, n) % 2 * Pow2(n)
  }

  predicate IsSmall(s: nat) {
    s / 8 < 32
  }

  /** `pad_request`; no request that reaches it wraps. */
  function PadRequest(req: nat): nat {
    (req + 11) / 8 * 8
  }

  /** `request2size` */
  function RequestToSize(req: nat): nat {
    if req < MIN_REQUEST then MIN_CHUNK_SIZE else PadRequest(req)
  }

  /** `compute_tree_index` in its portable form, shift by shift. */
  function TreeIndex(s: nat): int {
    Powers();
    var x := Shr(s, 8);
    if x == 0 then 0
    else if x > 0xFFFF then NTREEBINS - 1
    else
      var n := AndBit(Shr(Wrap(x - 0x100), 16), 3);
      var y := Shl(x, n);
      var k := AndBit(Shr(Wrap(y - 0x1000), 16), 2);
      var n := n + k;
      var y := Shl(y, k);
      var k := AndBit(Shr(Wrap(y - 0x4000), 16), 1);
      var n := n + k;
      var y := Shl(y, k);
      var k := 14 - n + Shr(y, 15);
      k * 2 + Shr(s, k + 7) % 2
  }

  /** `minsize_for_tree_index` */
  function MinSize(i: nat): nat {
    Pow2(i / 2 + 8) + i % 2 * Pow2(i / 2 + 7)
  }

  /** `leftshift_for_tree_index` */
  function LeftShift(i: nat): int
    requires i < NTREEBINS
  {
    if i == NTREEBINS - 1 then 0 else 31 - (i / 2 + 6)
  }

  /** The three borrow tests of `compute_tree_index`: bit 8, 4 or 2 is set iff the value is below the threshold. */
  lemma BorrowBit(y: nat)
    requires y <= 0xFFFF
    ensures AndBit(Shr(Wrap(y - 0x100), 16), 3) == if y < 0x100 then 8 else 0
    ensures AndBit(Shr(Wrap(y - 0x1000), 16), 2) == if y < 0x1000 then 4 else 0
    ensures AndBit(Shr(Wrap(y - 0x4000), 16), 1) == if y < 0x4000 then 2 else 0
  {
    Powers();
  }

  lemma ShlValue(x: nat, n: nat)
    requires x <= 0xFFFF && n <= 16
    ensures n == 0 ==> Shl(x, n) == x
    ensures n == 2 ==> Shl(x, n) == 4 * x
    ensures n == 4 ==> Shl(x, n) == 16 * x
    ensures n == 8 ==> Shl(x, n) == 256 * x
  {
    Powers();
  }

  /** floor(log2(x)) for 16-bit x, by the normalising shifts: 14 - n + (top bit). */
  function NormLog(x: nat): (k: nat)
    requires 0 < x <= 0xFFFF
  {
    var n0 := if x < 0x100 then 8 else 0;
    var y0 := if x < 0x100 then 256 * x else x;
    var n1 := if y0 < 0x1000 then n0 + 4 else n0;
    var y1 := if y0 < 0x1000 then 16 * y0 else y0;
    var n2 := if y1 < 0x4000 then n1 + 2 else n1;
    var y2 := if y1 < 0x4000 then 4 * y1 else y1;
    14 - n2 + y2 / 0x8000
  }

  lemma NormLogValue(x: nat)
    requires 0 < x <= 0xFFFF
    ensures NormLog(x) < 16
    ensures Pow2(NormLog(x)) <= x < 2 * Pow2(NormLog(x))
  {
    Powers();
    assert if x < 0x2 then NormLog(x) == 0 else if x < 0x4 then NormLog(x) == 1
           else if x < 0x8 then NormLog(x) == 2 else if x < 0x10 then NormLog(x) == 3
           else if x < 0x20 then NormLog(x) == 4 else if x < 0x40 then NormLog(x) == 5
           else if x < 0x80 then NormLog(x) == 6 else if x < 0x100 then NormLog(x) == 7
           else if x < 0x200 then NormLog(x) == 8 else if x < 0x400 then NormLog(x) == 9
           else if x < 0x800 then NormLog(x) == 10 else if x < 0x1000 then NormLog(x) == 11
           else if x < 0x2000 then NormLog(x) == 12 else if x < 0x4000 then NormLog(x) == 13
           else if x < 0x8000 then NormLog(x) == 14 else NormLog(x) == 15;
  }

  lemma TreeIndexUnfolds(s: nat)
    requires 0 < s / 256 <= 0xFFFF
    ensures NormLog(s / 256) < 16
    ensures TreeIndex(s) == 2 * NormLog(s / 256) + Shr(s, NormLog(s / 256) + 7) % 2
  {
    hide AndBit, Wrap, Shl;
    Powers();
    NormLogValue(s / 256);
    var x := s / 256;
    assert Shr(s, 8) == x;
    BorrowBit(x);
    var n := if x < 0x100 then 8 else 0;
    ShlValue(x, n);
    var y := Shl(x, n);
    BorrowBit(y);
    var k := if y < 0x1000 then 4 else 0;
    ShlValue(y, k);
    BorrowBit(Shl(y, k));
    var z := Shl(y, k);
    ShlValue(z, if z < 0x4000 then 2 else 0);
  }

  const PAGE := 4096                      // malloc_getpagesize, also the granularity
  const HALF_MAX_SIZE_T := 0x7FFF_FFFF

  /** `granularity_align` and `page_align`, in 32-bit arithmetic */
  function PageAlign(x: nat): nat {
    Wrap(x + (PAGE - 1)) / PAGE * PAGE
  }

  lemma PageAlignIs(x: nat)
    requires x < WORD
    ensures PageAlign(x) % 8 == 0
    ensures x + (PAGE - 1) < WORD ==> x <= PageAlign(x) < x + PAGE
    ensures WORD <= x + (PAGE - 1) ==> PageAlign(x) == 0
  {
    WholePages(Wrap(x + (PAGE - 1)) / PAGE);
  }

  lemma WholePages(q: nat)
    ensures q * PAGE % 8 == 0
  {
    EightTimes(512 * q);
    assert q * PAGE == 8 * (512 * q);
  }

  lemma EightTimes(n: nat)
    ensures 8 * n % 8 == 0
  {
  }

  /** The padded request holds the requested bytes behind the head word. */
  lemma PaddedHolds(bytes: nat)
    ensures RequestToSize(bytes) % 8 == 0 && RequestToSize(bytes) >= MIN_CHUNK_SIZE && RequestToSize(bytes) >= bytes + 4
    ensures bytes <= MAX_SMALL_REQUEST ==> RequestToSize(bytes) <= 248
    ensures bytes > MAX_SMALL_REQUEST ==> RequestToSize(bytes) == PadRequest(bytes) >= MIN_LARGE_SIZE
    ensures bytes < MAX_REQUEST ==> RequestToSize(bytes) < WORD - 48
  {
  }

  /** It is the smallest chunk size that does. */
  lemma PaddedIsLeast(bytes: nat, s: nat)
    requires s % 8 == 0 && MIN_CHUNK_SIZE <= s && bytes + 4 <= s
    ensures RequestToSize(bytes) <= s
  {
    if bytes >= MIN_REQUEST {
      var q := s / 8;
      assert s == 8 * q && bytes + 11 < 8 * (q + 1);
    }
  }

  /** A request that survives the wrap-around test of `sys_alloc` is padded without wrapping. */
  lemma AskedSize(nb: nat)
    requires nb < WORD
    requires nb < PageAlign(Wrap(nb + SYS_ALLOC_PADDING))
    ensures nb + SYS_ALLOC_PADDING + (PAGE - 1) < WORD
    ensures nb + SYS_ALLOC_PADDING <= PageAlign(Wrap(nb + SYS_ALLOC_PADDING)) < nb + SYS_ALLOC_PADDING + PAGE
    ensures PageAlign(Wrap(nb + SYS_ALLOC_PADDING)) % 8 == 0
  {
    hide PageAlign;
    PageAlignIs(Wrap(nb + SYS_ALLOC_PADDING));
  }

  lemma WrapOnce(x: int)
    requires -WORD <= x < 2 * WORD && x % 8 == 0
    ensures Wrap(x) == (if x < 0 then x + WORD else if x < WORD then x else x - WORD) && Wrap(x) % 8 == 0
  {
  }

  lemma EightsApart(a: int, b: int)
    requires a % 8 == 0 && b % 8 == 0
    ensures (a - b) % 8 == 0
  {
  }

  lemma ToPageEnd(start: nat)
    requires start < WORD && start % 8 == 0
    ensures Wrap(PageAlign(start) - start) < PAGE && Wrap(PageAlign(start) - start) % 8 == 0
  {
    hide PageAlign, Wrap;
    PageAlignIs(start);
    var end := PageAlign(start);
    EightsApart(end, start);
    assert end == 0 || start <= end < start + PAGE;
    WrapOnce(end - start);
  }

  /** Rounding the first request up to end on a page boundary. */
  lemma FirstSize(nb: nat, asize: nat, start: nat)
    requires start < WORD && start % 8 == 0 && asize % 8 == 0
    requires nb + SYS_ALLOC_PADDING <= asize < nb + SYS_ALLOC_PADDING + PAGE
    requires nb + SYS_ALLOC_PADDING + (PAGE - 1) < WORD
    ensures var s := if PageAlign(start) == start then asize else Wrap(asize + Wrap(PageAlign(start) - start));
            s % 8 == 0 && (nb < s ==> nb + SYS_ALLOC_PADDING <= s)
  {
    hide PageAlign, Wrap;
    ToPageEnd(start);
    WrapOnce(asize + Wrap(PageAlign(start) - start));
  }
}
