/** The invariant of the whole allocator state, and the lemmas that carry it across each of the
    steps of allocation, release and resizing. */
module MallocHeapInv {
  import opened MallocSizes
  import opened MallocTags
  import opened MallocLayout
  import opened MallocTagSteps

  /** The part of `malloc_state` outside the bins, with the tag words of memory. `dv` is the
      designated victim; `base` and `segsize` are the one segment. */
  datatype HeapMem =
    HeapMem(tags: TagMem, dv: int, dvsize: nat, base: int, segsize: nat, top: int, topsize: nat)

  /** The free chunks with their sizes, without the chunk `x` in transition. */
  ghost function Free(C: Chunks, live: set<int>, x: int): Chunks {
    map p | p in C && p !in live && p != x :: C[p]
  }

  /** Every free chunk is the designated victim or in exactly the one kind of bin for its size. */
  ghost predicate Binned(F: Chunks, dv: int, dvsize: nat, S: Chunks, T: Chunks) {
    && (dv == 0 <==> dvsize == 0)
    && (dv in F ==> dvsize == F[dv] && dv != 0)
    && (forall p :: p in F ==> p == dv || p in S || p in T)
    && (forall p :: p in S ==> p in F && S[p] == F[p] && p != dv && F[p] < MIN_LARGE_SIZE)
    && (forall p :: p in T ==> p in F && T[p] == F[p] && p != dv && MIN_LARGE_SIZE <= F[p])
  }

  /** A free chunk is in the one kind of bin for its size. */
  ghost predicate InOneBin(C: Chunks, S: Chunks, T: Chunks, p: int) {
    p in C && if C[p] < MIN_LARGE_SIZE then p in S && S[p] == C[p] && p !in T else p in T && T[p] == C[p] && p !in S
  }

  /** The state between two calls, or with a chunk `x` in transition: the row of chunks, its tags, its bins. */
  ghost predicate Parts(h: HeapMem, C: Chunks, live: set<int>, S: Chunks, T: Chunks, tx: int, bx: int) {
    && Layout(C, h.base, h.top)
    && TagsOk(h.tags, C, live, h.base, h.top, h.topsize, tx)
    && Binned(Free(C, live, bx), h.dv, h.dvsize, S, T)
    && (h.dv != 0 ==> h.dv == bx || h.dv in Free(C, live, bx))
    && h.top + h.topsize + TOP_FOOT_SIZE == h.base + h.segsize <= WORD
  }

  ghost predicate HeapOk(h: HeapMem, C: Chunks, live: set<int>, S: Chunks, T: Chunks) {
    Parts(h, C, live, S, T, 0, 0)
  }

  /** `x` is neither in use, nor tagged free, nor in a bin. */
  ghost predicate Limbo(h: HeapMem, C: Chunks, live: set<int>, S: Chunks, T: Chunks, x: int) {
    x != 0 && x in C && x !in live && Parts(h, C, live, S, T, x, x)
  }

  /** `x` is tagged free but in no bin. */
  ghost predicate Unbinned(h: HeapMem, C: Chunks, live: set<int>, S: Chunks, T: Chunks, x: int) {
    x != 0 && x in C && x !in live && Parts(h, C, live, S, T, 0, x)
  }

  lemma FreeAt(C: Chunks, live: set<int>, x: int, p: int)
    ensures p in Free(C, live, x) <==> p in C && p !in live && p != x
    ensures p in Free(C, live, x) ==> Free(C, live, x)[p] == C[p]
  {
  }

  lemma NoZero(h: HeapMem, C: Chunks, live: set<int>, S: Chunks, T: Chunks, tx: int, bx: int)
    requires Parts(h, C, live, S, T, tx, bx)
    ensures 0 !in C && 0 !in S && 0 !in T && live <= C.Keys
  {
    hide TagsOk;
    TagsParts(h.tags, C, live, h.base, h.top, h.topsize, tx);
    if 0 in C {
      ChunkFacts(C, h.base, h.top, 0);
    }
  }

  lemma FreeSettles(C: Chunks, live: set<int>, x: int)
    requires x in C && x !in live && 0 !in C
    ensures Free(C, live, 0) == Free(C, live, x)[x := C[x]] && Free(C, live, x) == Free(C, live, 0) - {x}
    ensures x !in Free(C, live, x)
  {
  }

  // ---- bins over a set of free chunks ----

  lemma BinnedOut(F: Chunks, dv: int, dvsize: nat, S: Chunks, T: Chunks, p: int)
    requires Binned(F, dv, dvsize, S, T) && p in F && p != dv
    ensures InOneBin(F, S, T, p)
    ensures Binned(F - {p}, dv, dvsize, S - {p}, T - {p})
  {
  }

  lemma BinnedSmall(F: Chunks, dv: int, dvsize: nat, S: Chunks, T: Chunks, x: int, s: nat)
    requires Binned(F, dv, dvsize, S, T) && x !in F && x != dv && s < MIN_LARGE_SIZE
    ensures x !in S && Binned(F[x := s], dv, dvsize, S[x := s], T)
  {
  }

  lemma BinnedLarge(F: Chunks, dv: int, dvsize: nat, S: Chunks, T: Chunks, x: int, s: nat)
    requires Binned(F, dv, dvsize, S, T) && x !in F && x != dv && MIN_LARGE_SIZE <= s
    ensures x !in T && Binned(F[x := s], dv, dvsize, S, T[x := s])
  {
  }

  lemma BinnedVictim(F: Chunks, dv: int, dvsize: nat, S: Chunks, T: Chunks, x: int, s: nat)
    requires Binned(F, dv, dvsize, S, T) && x !in F && x != 0 && (dv == 0 || dv !in F) && s > 0
    ensures Binned(F[x := s], x, s, S, T)
  {
  }

  /** The designated victim is given up. */
  lemma BinnedNoVictim(F: Chunks, dv: int, dvsize: nat, S: Chunks, T: Chunks)
    requires Binned(F, dv, dvsize, S, T) && 0 !in F
    ensures Binned(F - {dv}, 0, 0, S, T)
  {
  }

  // ---- taking a chunk out of its bin, and putting one in ----

  lemma UnlinkedIs(h: HeapMem, C: Chunks, live: set<int>, S: Chunks, T: Chunks, p: int)
    requires HeapOk(h, C, live, S, T) && p in C && p !in live && p != h.dv
    ensures InOneBin(C, S, T, p)
    ensures Unbinned(h, C, live, S - {p}, T - {p}, p)
  {
    hide Layout, TagsOk, Free, Binned;
    NoZero(h, C, live, S, T, 0, 0);
    FreeAt(C, live, 0, p);
    FreeSettles(C, live, p);
    BinnedOut(Free(C, live, 0), h.dv, h.dvsize, S, T, p);
    FreeAt(C, live, 0, p);
  }

  lemma InsertedIs(h: HeapMem, C: Chunks, live: set<int>, S: Chunks, T: Chunks, x: int)
    requires Unbinned(h, C, live, S, T, x) && h.dv != x
    ensures C[x] < MIN_LARGE_SIZE ==> x !in S && HeapOk(h, C, live, S[x := C[x]], T)
    ensures MIN_LARGE_SIZE <= C[x] ==> x !in T && HeapOk(h, C, live, S, T[x := C[x]])
  {
    hide Layout, TagsOk, Free, Binned;
    NoZero(h, C, live, S, T, 0, x);
    FreeSettles(C, live, x);
    if C[x] < MIN_LARGE_SIZE {
      BinnedSmall(Free(C, live, x), h.dv, h.dvsize, S, T, x, C[x]);
    } else {
      BinnedLarge(Free(C, live, x), h.dv, h.dvsize, S, T, x, C[x]);
    }
  }

  /** The unbinned chunk becomes (or already is) the designated victim. */
  lemma VictimIs(h: HeapMem, C: Chunks, live: set<int>, S: Chunks, T: Chunks, x: int)
    requires Unbinned(h, C, live, S, T, x) && (h.dv == 0 || h.dv == x)
    ensures HeapOk(h.(dv := x, dvsize := C[x]), C, live, S, T)
  {
    hide Layout, TagsOk, Free, Binned;
    NoZero(h, C, live, S, T, 0, x);
    FreeSettles(C, live, x);
    ChunkFacts(C, h.base, h.top, x);
    BinnedVictim(Free(C, live, x), h.dv, h.dvsize, S, T, x, C[x]);
  }

  // ---- releasing a chunk ----

  /** Nothing about the bins changes when chunks in use or in transition change. */
  lemma FreeSame(C: Chunks, live: set<int>, x: int, C': Chunks, live': set<int>, x': int)
    requires forall p :: p in C && p !in live && p != x ==> p in C' && p !in live' && p != x' && C'[p] == C[p]
    requires forall p :: p in C' && p !in live' && p != x' ==> p in C && p !in live && p != x
    ensures Free(C', live', x') == Free(C, live, x)
  {
  }

  /** The chunk before is in use: the released chunk stands alone. */
  lemma ReleaseAlone(h: HeapMem, C: Chunks, live: set<int>, S: Chunks, T: Chunks, p: int)
    requires HeapOk(h, C, live, S, T) && p in live && p in C && Pinuse(h.tags, p)
    ensures Limbo(h, C, live - {p}, S, T, p)
  {
    hide Layout, TagsOk, Free, Binned;
    NoZero(h, C, live, S, T, 0, 0);
    Released(h.tags, C, live, h.base, h.top, h.topsize, p);
    FreeSame(C, live, 0, C, live - {p}, p);
  }

  /** The chunk before is free and has been taken out of its bin, or is the designated victim. */
  lemma ReleaseBackward(h: HeapMem, C: Chunks, live: set<int>, S: Chunks, T: Chunks, q: int, p: int)
    requires if q == h.dv then HeapOk(h, C, live, S, T) else Unbinned(h, C, live, S, T, q)
    requires q in C && q !in live && p in live && p in C && q + C[q] == p
    ensures Limbo(h, Merged(C, q), live - {p}, S, T, q)
  {
    hide Layout, TagsOk, Free, Binned;
    var bx := if q == h.dv then 0 else q;
    NoZero(h, C, live, S, T, 0, bx);
    ReleasedBackward(h.tags, C, live, h.base, h.top, h.topsize, q, p);
    var C' := Merged(C, q);
    FreeAt(C, live, 0, q);
    if q == h.dv {
      FreeSettles(C, live, q);
      FreeSame(C, live, q, C', live - {p}, q);
      BinnedWithoutVictim(Free(C, live, 0), h.dv, h.dvsize, S, T);
    } else {
      FreeSame(C, live, q, C', live - {p}, q);
      if h.dv != 0 {
        VictimKept(C, live, q, C', live - {p}, q, h.dv);
      }
    }
  }

  lemma VictimKept(C: Chunks, live: set<int>, x: int, C': Chunks, live': set<int>, x': int, dv: int)
    requires Free(C', live', x') == Free(C, live, x) && dv in Free(C, live, x)
    ensures dv in Free(C', live', x')
  {
  }

  /** With the victim in transition, its recorded size no longer matters. */
  lemma BinnedWithoutVictim(F: Chunks, dv: int, dvsize: nat, S: Chunks, T: Chunks)
    requires Binned(F, dv, dvsize, S, T)
    ensures Binned(F - {dv}, dv, dvsize, S, T)
  {
  }

  /** In front of a chunk in use, the chunk in transition is tagged free. */
  lemma SettleBeforeLive(h: HeapMem, C: Chunks, live: set<int>, S: Chunks, T: Chunks, x: int)
    requires Limbo(h, C, live, S, T, x) && x + C[x] in live
    ensures Unbinned(h.(tags := SetFree(h.tags, x, C[x], x + C[x])), C, live, S, T, x)
  {
    hide Layout, TagsOk, Free, Binned, SetFree;
    FreedBeforeLive(h.tags, C, live, h.base, h.top, h.topsize, x);
  }

  /** A free chunk behind it is swallowed, after leaving its bin. */
  lemma SettleBeforeFree(h: HeapMem, C: Chunks, live: set<int>, S: Chunks, T: Chunks, x: int, n: int)
    requires n in C && n !in live && n != h.dv
    requires Limbo(h, C, live, S, T, x) && x + C[x] == n
    ensures InOneBin(C, S, T, n)
    ensures var C' := Merged(C, x);
            x in C' && C'[x] == C[x] + C[n]
            && Unbinned(h.(tags := SetSizeOfFree(h.tags, x, C'[x])), C', live, S - {n}, T - {n}, x)
  {
    hide Layout, TagsOk, Free, Binned, SetSizeOfFree;
    var C' := Merged(C, x);
    NoZero(h, C, live, S, T, x, x);
    ChunkFacts(C, h.base, h.top, x);
    FreeAt(C, live, x, n);
    BinnedOut(Free(C, live, x), h.dv, h.dvsize, S, T, n);
    JoinedForward(h.tags, C, live, h.base, h.top, h.topsize, x);
    FreedAfterJoin(h.tags, C', live, h.base, h.top, h.topsize, x);
    FreeMinus(C, live, x, n);
    if h.dv != 0 && h.dv != x {
      VictimMinus(C, live, x, n, h.dv);
    }
  }

  lemma FreeMinus(C: Chunks, live: set<int>, x: int, n: int)
    requires x in C && n == x + C[x] && n in C && n != x
    ensures Free(Merged(C, x), live, x) == Free(C, live, x) - {n}
  {
  }

  lemma VictimMinus(C: Chunks, live: set<int>, x: int, n: int, dv: int)
    requires dv in Free(C, live, x) && dv != n
    ensures dv in Free(C, live, x) - {n}
  {
  }

  /** The designated victim behind it is swallowed and moves down. */
  lemma SettleBeforeVictim(h: HeapMem, C: Chunks, live: set<int>, S: Chunks, T: Chunks, x: int)
    requires Limbo(h, C, live, S, T, x) && x + C[x] == h.dv && h.dv in C && h.dv !in live
    ensures var C' := Merged(C, x);
            x in C' && C'[x] == C[x] + h.dvsize
            && HeapOk(h.(dv := x, dvsize := C'[x], tags := SetSizeOfFree(h.tags, x, C'[x])), C', live, S, T)
  {
    hide Layout, TagsOk, Free, Binned, SetSizeOfFree;
    var n, C' := x + C[x], Merged(C, x);
    NoZero(h, C, live, S, T, x, x);
    ChunkFacts(C, h.base, h.top, x);
    FreeAt(C, live, x, n);
    JoinedForward(h.tags, C, live, h.base, h.top, h.topsize, x);
    FreedAfterJoin(h.tags, C', live, h.base, h.top, h.topsize, x);
    FreeMinus(C, live, x, n);
    VictimSize(Free(C, live, x), h.dv, h.dvsize, S, T);
    BinnedWithoutVictim(Free(C, live, x), h.dv, h.dvsize, S, T);
    FreeSettles(C', live, x);
    BinnedVictim(Free(C', live, x), h.dv, h.dvsize, S, T, x, C'[x]);
  }

  lemma VictimSize(F: Chunks, dv: int, dvsize: nat, S: Chunks, T: Chunks)
    requires Binned(F, dv, dvsize, S, T) && dv in F
    ensures dvsize == F[dv] && dv != 0 && dv !in S && dv !in T
  {
  }

  /** The top behind it takes the chunk in; a victim in transition is given up. */
  lemma SettleBeforeTop(h: HeapMem, C: Chunks, live: set<int>, S: Chunks, T: Chunks, x: int)
    requires Limbo(h, C, live, S, T, x) && x + C[x] == h.top
    ensures var ts := h.topsize + C[x];
            var h1 := h.(top := x, topsize := ts, tags := SetTop(h.tags, x, ts));
            HeapOk(if h.dv == x then h1.(dv := 0, dvsize := 0) else h1, C - {x}, live, S, T)
  {
    hide Layout, TagsOk, Free, Binned, SetHead;
    NoZero(h, C, live, S, T, x, x);
    JoinedTop(h.tags, C, live, h.base, h.top, h.topsize, x);
    FreeSame(C, live, x, C - {x}, live, 0);
    if h.dv == x {
      FreeSettles(C, live, x);
      FreeAt(C, live, x, 0);
      BinnedNoVictim(Free(C, live, x), h.dv, h.dvsize, S, T);
      assert Free(C, live, x) - {x} == Free(C, live, x);
    }
  }

  // ---- taking chunks into use ----

  /** A whole unbinned chunk is handed out. */
  lemma AllocWhole(h: HeapMem, C: Chunks, live: set<int>, S: Chunks, T: Chunks, p: int)
    requires Unbinned(h, C, live, S, T, p) && h.dv != p
    ensures HeapOk(h.(tags := SetInuseAndPinuse(h.tags, p, C[p])), C, live + {p}, S, T)
  {
    hide Layout, TagsOk, Free, Binned, SetInuseAndPinuse;
    NoZero(h, C, live, S, T, 0, p);
    TakenWhole(h.tags, C, live, h.base, h.top, h.topsize, p);
    FreeSettles(C, live, p);
    FreeSame(C, live, p, C, live + {p}, 0);
  }

  /** The leading part of an unbinned chunk is handed out; the remainder is free and unbinned. */
  lemma AllocPart(h: HeapMem, C: Chunks, live: set<int>, S: Chunks, T: Chunks, p: int, nb: nat)
    requires p in C && Unbinned(h, C, live, S, T, p) && h.dv != p
    requires Aligned(nb) && MIN_CHUNK_SIZE <= nb && nb + MIN_CHUNK_SIZE <= C[p]
    ensures Unbinned(h.(tags := SplitTags(h.tags, p, nb, C[p] - nb)), Split(C, p, nb), live + {p}, S, T, p + nb)
    ensures p + nb in Split(C, p, nb) && Split(C, p, nb)[p + nb] == C[p] - nb
    ensures p + nb !in C && p + nb != h.dv
  {
    hide Layout, TagsOk, Free, Binned, SplitTags;
    NoZero(h, C, live, S, T, 0, p);
    ChunkFacts(C, h.base, h.top, p);
    SplitPointFree(C, h.base, h.top, p, nb);
    TakenPart(h.tags, C, live, h.base, h.top, h.topsize, p, nb);
    FreeSame(C, live, p, Split(C, p, nb), live + {p}, p + nb);
    FreeAt(C, live, p, h.dv);
  }

  /** The whole designated victim is handed out. */
  lemma AllocVictim(h: HeapMem, C: Chunks, live: set<int>, S: Chunks, T: Chunks)
    requires HeapOk(h, C, live, S, T) && h.dv != 0
    ensures h.dv in C && h.dv !in live && C[h.dv] == h.dvsize
    ensures HeapOk(h.(tags := SetInuseAndPinuse(h.tags, h.dv, h.dvsize), dv := 0, dvsize := 0), C, live + {h.dv}, S, T)
  {
    hide Layout, TagsOk, Free, Binned, SetInuseAndPinuse;
    var p := h.dv;
    NoZero(h, C, live, S, T, 0, 0);
    FreeAt(C, live, 0, p);
    FreeAt(C, live, 0, 0);
    VictimSize(Free(C, live, 0), h.dv, h.dvsize, S, T);
    TakenWhole(h.tags, C, live, h.base, h.top, h.topsize, p);
    FreeSettles(C, live, p);
    FreeSame(C, live, p, C, live + {p}, 0);
    BinnedNoVictim(Free(C, live, 0), h.dv, h.dvsize, S, T);
  }

  /** The leading part of the designated victim is handed out; the remainder is the new victim. */
  lemma AllocVictimPart(h: HeapMem, C: Chunks, live: set<int>, S: Chunks, T: Chunks, nb: nat)
    requires HeapOk(h, C, live, S, T) && h.dv != 0
    requires Aligned(nb) && MIN_CHUNK_SIZE <= nb && nb + MIN_CHUNK_SIZE <= h.dvsize
    ensures h.dv in C && h.dv !in live && C[h.dv] == h.dvsize && h.dv + nb !in C
    ensures var rs := h.dvsize - nb;
            HeapOk(h.(tags := SplitTags(h.tags, h.dv, nb, rs), dv := h.dv + nb, dvsize := rs),
                   Split(C, h.dv, nb), live + {h.dv}, S, T)
  {
    hide Layout, TagsOk, Free, Binned, SplitTags;
    var p, rs := h.dv, h.dvsize - nb;
    NoZero(h, C, live, S, T, 0, 0);
    FreeAt(C, live, 0, p);
    VictimSize(Free(C, live, 0), h.dv, h.dvsize, S, T);
    ChunkFacts(C, h.base, h.top, p);
    SplitPointFree(C, h.base, h.top, p, nb);
    TakenPart(h.tags, C, live, h.base, h.top, h.topsize, p, nb);
    var C', live' := Split(C, p, nb), live + {p};
    FreeSettles(C, live, p);
    FreeSame(C, live, p, C', live', p + nb);
    BinnedWithoutVictim(Free(C, live, 0), h.dv, h.dvsize, S, T);
    SplitZero(C, p, nb);
    FreeSettles(C', live', p + nb);
    BinnedVictim(Free(C', live', p + nb), h.dv, h.dvsize, S, T, p + nb, rs);
    FreeAt(C', live', 0, p + nb);
    FreeAt(C', live', p + nb, p);
  }

  lemma SplitZero(C: Chunks, p: int, nb: nat)
    requires p in C && nb <= C[p] && p > 0 && 0 !in C
    ensures 0 !in Split(C, p, nb) && p + nb in Split(C, p, nb)
  {
  }

  /** A chunk is cut from the top. */
  lemma AllocTop(h: HeapMem, C: Chunks, live: set<int>, S: Chunks, T: Chunks, nb: nat)
    requires HeapOk(h, C, live, S, T) && Aligned(nb) && MIN_CHUNK_SIZE <= nb < h.topsize
    ensures h.top !in C && h.top !in live
    ensures HeapOk(h.(tags := TopTags(h.tags, h.top, nb, h.topsize - nb), top := h.top + nb, topsize := h.topsize - nb),
                   C[h.top := nb], live + {h.top}, S, T)
  {
    hide Layout, TagsOk, Free, Binned, TopTags;
    NoZero(h, C, live, S, T, 0, 0);
    TakenFromTop(h.tags, C, live, h.base, h.top, h.topsize, nb);
    FreeSame(C, live, 0, C[h.top := nb], live + {h.top}, 0);
  }

  /** `replace_dv`: the old victim goes to its small bin. */
  lemma ReplaceVictim(h: HeapMem, C: Chunks, live: set<int>, S: Chunks, T: Chunks, x: int)
    requires Unbinned(h, C, live, S, T, x) && h.dv != x && h.dv != 0 && h.dvsize < MIN_LARGE_SIZE
    ensures h.dv in C && h.dv !in S && h.dvsize == C[h.dv]
    ensures HeapOk(h.(dv := x, dvsize := C[x]), C, live, S[h.dv := h.dvsize], T)
  {
    hide Layout, TagsOk, Free, Binned;
    NoZero(h, C, live, S, T, 0, x);
    FreeAt(C, live, x, h.dv);
    VictimSize(Free(C, live, x), h.dv, h.dvsize, S, T);
    ChunkFacts(C, h.base, h.top, x);
    FreeSettles(C, live, x);
    BinnedRetire(Free(C, live, x), h.dv, h.dvsize, S, T, x, C[x]);
  }

  lemma BinnedRetire(F: Chunks, dv: int, dvsize: nat, S: Chunks, T: Chunks, x: int, s: nat)
    requires Binned(F, dv, dvsize, S, T) && dv in F && dvsize < MIN_LARGE_SIZE && x !in F && x != 0 && s > 0
    ensures dv !in S && Binned(F[x := s], x, s, S[dv := dvsize], T)
  {
  }

  // ---- resizing chunks in use ----

  lemma ResizeSplit(h: HeapMem, m': TagMem, C: Chunks, live: set<int>, S: Chunks, T: Chunks, p: int, nb: nat)
    requires p in C && p in live && HeapOk(h, C, live, S, T)
    requires Aligned(nb) && MIN_CHUNK_SIZE <= nb && nb + MIN_CHUNK_SIZE <= C[p] && TwoLive(h.tags, m', p, nb, C[p] - nb)
    ensures p + nb !in C && HeapOk(h.(tags := m'), Split(C, p, nb), live + {p + nb}, S, T)
  {
    hide Layout, TagsOk, Free, Binned, TwoLive;
    NoZero(h, C, live, S, T, 0, 0);
    ChunkFacts(C, h.base, h.top, p);
    LiveSplit(h.tags, m', C, live, h.base, h.top, h.topsize, p, nb);
    FreeSame(C, live, 0, Split(C, p, nb), live + {p + nb}, 0);
  }

  lemma ResizeIntoTop(h: HeapMem, C: Chunks, live: set<int>, S: Chunks, T: Chunks, p: int, nb: nat)
    requires p in C && p in live && HeapOk(h, C, live, S, T) && p + C[p] == h.top
    requires Aligned(nb) && MIN_CHUNK_SIZE <= nb < C[p] + h.topsize
    ensures var ts := C[p] + h.topsize - nb;
            HeapOk(h.(tags := SetTop(SetInuse(h.tags, p, nb), p + nb, ts), top := p + nb, topsize := ts), C[p := nb],
                   live, S, T)
  {
    hide Layout, TagsOk, Free, Binned, SetHead, SetInuse;
    NoZero(h, C, live, S, T, 0, 0);
    ExtendedIntoTop(h.tags, C, live, h.base, h.top, h.topsize, p, nb);
    FreeSame(C, live, 0, C[p := nb], live, 0);
  }

  /** Extension over the whole designated victim. */
  lemma ResizeOverVictim(h: HeapMem, C: Chunks, live: set<int>, S: Chunks, T: Chunks, p: int)
    requires p in C && p in live && HeapOk(h, C, live, S, T) && p + C[p] == h.dv && h.dv in C
    ensures h.dv !in live && C[h.dv] == h.dvsize
    ensures var s := C[p] + h.dvsize;
            HeapOk(h.(tags := SetInuse(h.tags, p, s), dv := 0, dvsize := 0), Merged(C, p), live, S, T)
  {
    hide Layout, TagsOk, Free, Binned, SetInuse;
    NoZero(h, C, live, S, T, 0, 0);
    ChunkFacts(C, h.base, h.top, p);
    FreeAt(C, live, 0, h.dv);
    FreeAt(C, live, 0, 0);
    VictimSize(Free(C, live, 0), h.dv, h.dvsize, S, T);
    LiveExtended(h.tags, C, live, h.base, h.top, h.topsize, p);
    FreeWithoutNext(C, live, p, h.dv);
    BinnedNoVictim(Free(C, live, 0), h.dv, h.dvsize, S, T);
  }

  lemma FreeWithoutNext(C: Chunks, live: set<int>, p: int, n: int)
    requires p in C && p in live && n in C && n !in live && p + C[p] == n && 0 !in C
    ensures Free(Merged(C, p), live, 0) == Free(C, live, 0) - {n}
    ensures Free(Merged(C, p), live, 0) == Free(C, live, n)
    ensures p in Merged(C, p) && Merged(C, p)[p] == C[p] + C[n]
  {
  }

  /** Extension over part of the designated victim. */
  lemma ResizeIntoVictim(h: HeapMem, C: Chunks, live: set<int>, S: Chunks, T: Chunks, p: int, nb: nat)
    requires p in C && p in live && HeapOk(h, C, live, S, T) && p + C[p] == h.dv && h.dv in C
    requires Aligned(nb) && MIN_CHUNK_SIZE <= nb && nb + MIN_CHUNK_SIZE <= C[p] + h.dvsize
    ensures h.dv !in live && C[h.dv] == h.dvsize
    ensures var rs := C[p] + h.dvsize - nb;
            HeapOk(h.(tags := DvTags(h.tags, p, nb, rs), dv := p + nb, dvsize := rs), Split(Merged(C, p), p, nb), live,
                   S, T)
  {
    hide Layout, TagsOk, Free, Binned, DvTags;
    NoZero(h, C, live, S, T, 0, 0);
    ChunkFacts(C, h.base, h.top, p);
    FreeAt(C, live, 0, h.dv);
    VictimSize(Free(C, live, 0), h.dv, h.dvsize, S, T);
    FreeWithoutNext(C, live, p, h.dv);
    ExtendedIntoFree(h.tags, C, live, h.base, h.top, h.topsize, p, nb);
    var C1 := Merged(C, p);
    var C' := Split(C1, p, nb);
    MergedZero(C, p);
    LayoutMerge(C, h.base, h.top, p);
    SplitPointFree(C1, h.base, h.top, p, nb);
    SplitZero(C1, p, nb);
    FreeSame(C1, live, 0, C', live, p + nb);
    BinnedWithoutVictim(Free(C, live, 0), h.dv, h.dvsize, S, T);
    FreeSettles(C', live, p + nb);
    FreeAt(C', live, 0, p + nb);
    FreeAt(C, live, h.dv, h.dv);
    BinnedVictim(Free(C', live, p + nb), h.dv, h.dvsize, S, T, p + nb, C'[p + nb]);
  }

  lemma MergedZero(C: Chunks, p: int)
    requires 0 !in C
    ensures 0 !in Merged(C, p)
  {
  }

  /** Extension over a whole free chunk that has left its bin. */
  lemma ResizeOverFree(h: HeapMem, C: Chunks, live: set<int>, S: Chunks, T: Chunks, p: int, n: int)
    requires n in C && n !in live && n != h.dv && p in C && p in live && p + C[p] == n
    requires Unbinned(h, C, live, S, T, n)
    ensures Merged(C, p)[p] == C[p] + C[n]
    ensures HeapOk(h.(tags := SetInuse(h.tags, p, C[p] + C[n])), Merged(C, p), live, S, T)
  {
    hide Layout, TagsOk, Free, Binned, SetInuse;
    NoZero(h, C, live, S, T, 0, n);
    LiveExtended(h.tags, C, live, h.base, h.top, h.topsize, p);
    FreeWithoutNext(C, live, p, n);
  }

  /** Extension over part of a free chunk that has left its bin: the rest is first marked in use. */
  lemma ResizeIntoFree(h: HeapMem, m': TagMem, C: Chunks, live: set<int>, S: Chunks, T: Chunks, p: int, n: int, nb: nat)
    requires n in C && n !in live && n != h.dv && p in C && p in live && p + C[p] == n
    requires Unbinned(h, C, live, S, T, n)
    requires Aligned(nb) && MIN_CHUNK_SIZE <= nb && nb + MIN_CHUNK_SIZE <= C[p] + C[n]
    requires TwoLive(h.tags, m', p, nb, C[p] + C[n] - nb)
    ensures p + nb !in Merged(C, p)
    ensures HeapOk(h.(tags := m'), Split(Merged(C, p), p, nb), live + {p + nb}, S, T)
  {
    hide Layout, TagsOk, Free, Binned, SetInuse, TwoLive;
    ResizeOverFree(h, C, live, S, T, p, n);
    NoZero(h, C, live, S, T, 0, n);
    ChunkFacts(C, h.base, h.top, p);
    ChunkFacts(C, h.base, h.top, n);
    FreeWithoutNext(C, live, p, n);
    AlignedSum(C[p], C[n]);
    AlignedSum(C[p] + C[n], nb);
    TwoLiveExtended(h.tags, m', p, nb, C[p] + C[n] - nb);
    var h1 := h.(tags := SetInuse(h.tags, p, C[p] + C[n]));
    ResizeSplit(h1, m', Merged(C, p), live, S, T, p, nb);
  }

  // ---- what the parts say about single chunks ----

  lemma TagsOfChunk(h: HeapMem, C: Chunks, live: set<int>, S: Chunks, T: Chunks, tx: int, bx: int, p: int)
    requires Parts(h, C, live, S, T, tx, bx) && p in C && p != tx
    ensures Size(h.tags, p) == C[p] && (Cinuse(h.tags, p) <==> p in live)
    ensures p in live ==> Pinuse(h.tags, p + C[p])
    ensures p + C[p] in C || p + C[p] == h.top
    ensures 0 < p && Aligned(p) && Aligned(C[p]) && MIN_CHUNK_SIZE <= C[p] < WORD && p + C[p] <= h.top
  {
    hide Layout, TagsOk, Binned, Size, Cinuse, Pinuse, PrevFoot, Aligned;
    ChunkFacts(C, h.base, h.top, p);
    RowFacts(C, h.base, h.top);
    TagsAt(h.tags, C, live, h.base, h.top, h.topsize, tx, p);
  }

  lemma TopFacts(h: HeapMem, C: Chunks, live: set<int>, S: Chunks, T: Chunks, tx: int, bx: int)
    requires Parts(h, C, live, S, T, tx, bx)
    ensures !Cinuse(h.tags, h.top) && h.top !in C && 0 < h.base <= h.top && h.topsize > 0
    ensures Aligned(h.top) && Aligned(h.topsize) && h.top + h.topsize + TOP_FOOT_SIZE == h.base + h.segsize <= WORD
    ensures live <= C.Keys
  {
    hide Layout, TagsOk, Binned, Size, Cinuse, Pinuse, PrevFoot, Aligned;
    RowFacts(C, h.base, h.top);
    TagsParts(h.tags, C, live, h.base, h.top, h.topsize, tx);
  }

  /** The heads of the chunks in the tree bins show their sizes. */
  lemma TreeSizes(h: HeapMem, C: Chunks, live: set<int>, S: Chunks, T: Chunks, tx: int, bx: int)
    requires Parts(h, C, live, S, T, tx, bx) && (tx == 0 || tx == bx)
    ensures forall c :: c in T ==> Size(h.tags, c) == T[c]
    ensures forall c :: c in T ==> c in C && c !in live && c != bx && T[c] == C[c]
    ensures forall c :: c in S ==> c in C && c !in live && c != bx && S[c] == C[c]
  {
    hide Layout, TagsOk, Size, Cinuse, Pinuse, PrevFoot, Aligned;
    NoZero(h, C, live, S, T, tx, bx);
    forall c | c in T
      ensures Size(h.tags, c) == T[c]
    {
      FreeAt(C, live, bx, c);
      TagsAt(h.tags, C, live, h.base, h.top, h.topsize, tx, c);
    }
  }

  // ---- the top obtained from the system ----

  /** `init_top` on an aligned address: the top's head and the fake trailing chunk. */
  function InitTopTags(m: TagMem, p: int, ts: nat): TagMem {
    SetHead(SetTop(m, p, ts), p + ts, TOP_FOOT_SIZE, false, false)
  }

  lemma InitTopIs(m: TagMem, p: int, ts: nat)
    requires ts % 8 == 0 && ts > 0
    ensures var m' := InitTopTags(m, p, ts);
            && (forall a {:trigger Size(m', a)} :: a != p && a != p + ts ==> Size(m', a) == Size(m, a))
            && (forall a {:trigger Cinuse(m', a)} :: a != p && a != p + ts ==> Cinuse(m', a) == Cinuse(m, a))
            && (forall a {:trigger Pinuse(m', a)} :: a != p && a != p + ts ==> Pinuse(m', a) == Pinuse(m, a))
            && (forall a {:trigger PrevFoot(m', a)} :: PrevFoot(m', a) == PrevFoot(m, a))
            && Size(m', p) == ts && !Cinuse(m', p) && Pinuse(m', p) && !Pinuse(m', p + ts)
  {
    hide Size, Cinuse, Pinuse, PrevFoot, SetHead;
    SetHeadIs(m, p, ts, false, true);
    SetHeadIs(SetTop(m, p, ts), p + ts, TOP_FOOT_SIZE, false, false);
  }

  lemma FirstTop(m: TagMem, base: int, ts: nat)
    requires 0 < base && Aligned(base) && Aligned(ts) && ts > 0 && base + ts + TOP_FOOT_SIZE <= WORD
    ensures HeapOk(HeapMem(InitTopTags(m, base, ts), 0, 0, base, ts + TOP_FOOT_SIZE, base, ts), map[], {}, map[], map[])
  {
    hide Size, Cinuse, Pinuse, PrevFoot, InitTopTags;
    InitTopIs(m, base, ts);
  }

  lemma LargerTop(h: HeapMem, C: Chunks, live: set<int>, S: Chunks, T: Chunks, ts: nat)
    requires HeapOk(h, C, live, S, T) && Aligned(ts) && h.topsize <= ts && h.top + ts + TOP_FOOT_SIZE <= WORD
    ensures HeapOk(h.(topsize := ts, segsize := h.segsize + (ts - h.topsize), tags := InitTopTags(h.tags, h.top, ts)),
                   C, live, S, T)
  {
    hide Layout, Binned, Free, TagsOk, Size, Cinuse, Pinuse, PrevFoot, InitTopTags;
    TopFacts(h, C, live, S, T, 0, 0);
    NoZero(h, C, live, S, T, 0, 0);
    var m' := InitTopTags(h.tags, h.top, ts);
    TagsParts(h.tags, C, live, h.base, h.top, h.topsize, 0);
    AlignedIs(ts);
    InitTopIs(h.tags, h.top, ts);
    forall p | p in C
      ensures ChunkTags(m', C, live, p)
    {
      ChunkFacts(C, h.base, h.top, p);
      TagsAt(h.tags, C, live, h.base, h.top, h.topsize, 0, p);
    }
    TagsAre(m', C, live, h.base, h.top, ts, 0);
  }

  lemma AlignedIs(x: int)
    ensures Aligned(x) <==> x % 8 == 0
  {
  }
}
