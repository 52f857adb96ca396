/** When the allocator can get memory from the system, and how much it asks for, in plain arithmetic; the code
    computes it in 32 bits. */
module MallocGrowth {
  import opened MallocSizes
  import opened MallocLayout
  import opened MallocHeapInv
  import opened MallocHeapFacts

  /** The padded request, rounded up to whole pages. */
  function Requested(nb: nat): nat {
    (nb + SYS_ALLOC_PADDING + (PAGE - 1)) / PAGE * PAGE
  }

  /** The whole pages that hold the padded request. */
  lemma RequestedPages(nb: nat)
    ensures Requested(nb) % PAGE == 0 && nb + SYS_ALLOC_PADDING <= Requested(nb) < nb + SYS_ALLOC_PADDING + PAGE
  {
    Pages((nb + SYS_ALLOC_PADDING + (PAGE - 1)) / PAGE);
  }

  lemma Pages(q: nat)
    ensures q * PAGE % PAGE == 0
  {
  }

  /** From `start` to the next page. */
  function ToPage(start: nat): (r: nat)
    ensures r < PAGE
  {
    (PAGE - start % PAGE) % PAGE
  }

  lemma PageReached(start: nat)
    ensures (start + ToPage(start)) % PAGE == 0
  {
    var q, r := start / PAGE, start % PAGE;
    assert start == PAGE * q + r;
    if r != 0 {
      assert start + ToPage(start) == PAGE * (q + 1);
    }
  }

  /** What the contiguous attempt asks for: what the top lacks, or the first segment, which ends on a page. */
  function Lacking(h: HeapMem, nb: nat, start: nat): nat
    requires h.topsize <= nb
  {
    if h.top == 0 then Requested(nb) + ToPage(start) else Requested(nb - h.topsize)
  }

  /** Where memory from the system continues: the end of the segment. */
  function BreakOf(h: HeapMem, start: int): int {
    if h.top == 0 then start else h.base + h.segsize
  }

  /** The contiguous attempt is made and granted. */
  predicate FirstServes(h: HeapMem, contiguous: bool, nb: nat, start: nat, first: bool)
    requires h.topsize <= nb
  {
    && contiguous && first && Lacking(h, nb, start) < HALF_MAX_SIZE_T
    && BreakOf(h, start) + Lacking(h, nb, start) <= WORD
  }

  /** The second attempt, for the whole request, would be granted. */
  predicate SecondServes(h: HeapMem, nb: nat, start: nat, second: bool) {
    second && Requested(nb) < HALF_MAX_SIZE_T && BreakOf(h, start) + Requested(nb) <= WORD
  }

  /** Memory for `nb` bytes can be had: padding does not wrap, and one of the attempts is granted. */
  predicate CanGrow(h: HeapMem, contiguous: bool, nb: nat, start: nat, first: bool, second: bool)
    requires h.topsize <= nb
  {
    && nb + SYS_ALLOC_PADDING + (PAGE - 1) < WORD
    && (FirstServes(h, contiguous, nb, start, first) || SecondServes(h, nb, start, second))
  }

  /** How much memory is granted then. */
  function Grant(h: HeapMem, contiguous: bool, nb: nat, start: nat, first: bool): nat
    requires h.topsize <= nb
  {
    if FirstServes(h, contiguous, nb, start, first) then Lacking(h, nb, start) else Requested(nb)
  }

  /** A request for `nb` bytes cannot be served: no free chunk fits, the top is too small, no memory is granted. */
  ghost predicate Exhausted(h: HeapMem, C: Chunks, live: set<int>, contiguous: bool, nb: nat, start: nat, first: bool,
                            second: bool)
  {
    NoneFits(C, live, nb) && h.topsize <= nb && !CanGrow(h, contiguous, nb, start, first, second)
  }

  /** `dlmalloc` cannot serve the request. */
  ghost predicate Starved(h: HeapMem, C: Chunks, live: set<int>, contiguous: bool, bytes: nat, start: nat, first: bool,
                          second: bool)
  {
    bytes >= MAX_REQUEST || Exhausted(h, C, live, contiguous, RequestToSize(bytes), start, first, second)
  }

  /** The block `r` can be resized where it is. */
  ghost predicate FitsInPlace(h: HeapMem, C: Chunks, live: set<int>, r: int, bytes: nat) {
    r - 8 in C && Resizable(C, live, h.top, h.topsize, r - 8, RequestToSize(bytes))
  }

  /** The bytes that `internal_memalign` asks for, to find an aligned chunk inside. */
  function AlignedRequest(al: nat, bytes: nat): nat {
    RequestToSize(bytes) + al + MIN_CHUNK_SIZE - 4
  }

  /** `dlmemalign` cannot serve the request, for the alignment `a` that it works with. */
  ghost predicate AlignedStarved(h: HeapMem, C: Chunks, live: set<int>, contiguous: bool, alignment: nat, a: nat,
                                 bytes: nat, start: nat, first: bool, second: bool)
  {
    if alignment <= 8 then Starved(h, C, live, contiguous, bytes, start, first, second)
    else
      || bytes + a >= MAX_REQUEST
      || Starved(h, C, live, contiguous, AlignedRequest(a, bytes), start, first, second)
  }

  /** `asize` in 32 bits */
  lemma RequestedIs(nb: nat)
    requires nb < WORD
    ensures var asize := PageAlign(Wrap(nb + SYS_ALLOC_PADDING));
            if nb + SYS_ALLOC_PADDING + (PAGE - 1) < WORD then asize == Requested(nb) > nb else asize <= nb
  {
    hide PageAlign;
    var asize := PageAlign(Wrap(nb + SYS_ALLOC_PADDING));
    if nb + SYS_ALLOC_PADDING + (PAGE - 1) < WORD {
      PagesOf(nb + SYS_ALLOC_PADDING);
      RequestedPages(nb);
    } else if nb < asize {
      AskedSize(nb);
      assert false;
    }
  }

  lemma PagesOf(x: nat)
    requires x + (PAGE - 1) < WORD
    ensures PageAlign(Wrap(x)) == (x + (PAGE - 1)) / PAGE * PAGE
  {
    SmallWrap(x);
    SmallWrap(x + (PAGE - 1));
  }

  lemma SmallWrap(x: nat)
    requires x < WORD
    ensures Wrap(x) == x
  {
  }

  /** `ssize` in 32 bits, with segments */
  lemma LackingIs(h: HeapMem, nb: nat, start: nat)
    requires h.topsize <= nb && nb + SYS_ALLOC_PADDING + (PAGE - 1) < WORD && h.top != 0
    ensures PageAlign(Wrap(Wrap(nb - h.topsize) + SYS_ALLOC_PADDING)) == Lacking(h, nb, start)
  {
    hide PageAlign;
    SmallWrap(nb - h.topsize);
    PagesOf(nb - h.topsize + SYS_ALLOC_PADDING);
  }

  lemma ToPageIs(start: nat)
    requires start < WORD
    ensures if PageAlign(start) == start then ToPage(start) == 0 else Wrap(PageAlign(start) - start) == ToPage(start)
  {
    hide Wrap;
    var q, r := start / PAGE, start % PAGE;
    assert start == PAGE * q + r;
    if start + (PAGE - 1) < WORD {
      SmallWrap(start + (PAGE - 1));
      PagesUp(q, r);
      SmallWrap(ToPage(start));
    } else {
      LastPage(start);
    }
  }

  lemma PagesUp(q: nat, r: nat)
    requires r < PAGE
    ensures (PAGE * q + r + (PAGE - 1)) / PAGE == if r == 0 then q else q + 1
    ensures ToPage(PAGE * q + r) == if r == 0 then 0 else PAGE - r
  {
    assert (PAGE * q + r) % PAGE == r;
  }

  /** In the last page of the address space alignment wraps to 0. */
  lemma LastPage(start: nat)
    requires start < WORD <= start + (PAGE - 1)
    ensures PageAlign(start) == 0 && Wrap(0 - start) == WORD - start == ToPage(start)
  {
    var r := start - (WORD - PAGE);
    assert start == PAGE * (WORD / PAGE - 1) + r;
    assert start % PAGE == r;
    assert (start + (PAGE - 1)) % WORD == r - 1;
    assert 0 - start == WORD * -1 + (WORD - start);
    assert (0 - start) % WORD == WORD - start;
  }

  /** `ssize` in 32 bits for the first segment: the same, unless it is too large for both. */
  lemma FirstIs(h: HeapMem, nb: nat, asize: nat, start: nat)
    requires h.topsize <= nb && nb + SYS_ALLOC_PADDING + (PAGE - 1) < WORD && start < WORD && h.top == 0
    requires asize == Requested(nb)
    ensures var s := if PageAlign(start) == start then asize else Wrap(asize + Wrap(PageAlign(start) - start));
            (nb < s < HALF_MAX_SIZE_T <==> Lacking(h, nb, start) < HALF_MAX_SIZE_T)
            && (nb < s < HALF_MAX_SIZE_T ==> s == Lacking(h, nb, start))
  {
    hide PageAlign, ToPage, Requested;
    ToPageIs(start);
    RequestedPages(nb);
    var x := asize + ToPage(start);
    if x < WORD {
      SmallWrap(x);
    } else {
      assert Wrap(x) == x - WORD;
    }
  }

  /** Each size that may be granted is aligned and covers what is lacking. */
  lemma GrantCovers(h: HeapMem, contiguous: bool, nb: nat, start: nat, first: bool)
    requires h.topsize <= nb && nb + SYS_ALLOC_PADDING + (PAGE - 1) < WORD && Aligned(start) && Aligned(h.topsize)
    ensures var s := Grant(h, contiguous, nb, start, first);
            if h.top == 0 then nb + TOP_FOOT_SIZE < s && Aligned(s - TOP_FOOT_SIZE)
            else nb < h.topsize + s && Aligned(h.topsize + s)
  {
    hide Requested, Aligned, ToPage;
    RequestedPages(nb);
    RequestedPages(nb - h.topsize);
    WholePagesAligned(Requested(nb));
    WholePagesAligned(Requested(nb - h.topsize));
    StepAligned(start);
    TopFoot();
    AlignedSum(Requested(nb), ToPage(start));
    AlignedSum(Requested(nb), TOP_FOOT_SIZE);
    AlignedSum(Requested(nb) + ToPage(start), TOP_FOOT_SIZE);
    AlignedSum(h.topsize, Requested(nb));
    AlignedSum(h.topsize, Requested(nb - h.topsize));
  }

  lemma LackingPositive(h: HeapMem, nb: nat, start: nat)
    requires h.topsize <= nb
    ensures Lacking(h, nb, start) > 0
  {
    hide Requested, ToPage;
    RequestedPages(nb);
    RequestedPages(nb - h.topsize);
  }

  lemma AlignedNothing()
    ensures Aligned(0)
  {
  }

  lemma TopFoot()
    ensures Aligned(TOP_FOOT_SIZE)
  {
  }

  lemma WholePagesAligned(x: nat)
    requires x % PAGE == 0
    ensures Aligned(x)
  {
    var q := x / PAGE;
    assert x == PAGE * q + x % PAGE == 8 * (512 * q);
    EightTimes(512 * q);
  }

  lemma StepAligned(start: nat)
    requires Aligned(start)
    ensures Aligned(ToPage(start))
  {
    PageReached(start);
    WholePagesAligned(start + ToPage(start));
    AlignedSum(start + ToPage(start), start);
  }
}
