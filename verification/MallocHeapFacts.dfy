/** What the invariant says about single chunks, the victim, the bins and the top, in the form the
    allocator's operations use. */
module MallocHeapFacts {
  import opened MallocSizes
  import opened MallocTags
  import opened MallocLayout
  import opened MallocTagSteps
  import opened MallocHeapInv

  lemma HeapTop(h: HeapMem, C: Chunks, live: set<int>, S: Chunks, T: Chunks)
    ensures HeapOk(h, C, live, S, T) ==>
              && h.top !in C && 0 < h.base && 0 < h.top && 0 < h.topsize && Aligned(h.topsize) && Aligned(h.top)
              && h.top + h.topsize + TOP_FOOT_SIZE == h.base + h.segsize <= WORD
  {
    hide Parts;
    if HeapOk(h, C, live, S, T) {
      TopFacts(h, C, live, S, T, 0, 0);
    }
  }

  lemma SizesHold(h: HeapMem, C: Chunks, live: set<int>, S: Chunks, T: Chunks)
    requires HeapOk(h, C, live, S, T)
    ensures forall c :: c in T ==> Size(h.tags, c) == T[c]
  {
    hide Parts, Size;
    TreeSizes(h, C, live, S, T, 0, 0);
  }

  lemma TreeBound(h: HeapMem, C: Chunks, live: set<int>, S: Chunks, T: Chunks)
    requires HeapOk(h, C, live, S, T)
    ensures forall c :: c in T ==> T[c] < WORD
  {
    hide Size;
    forall c | c in T
      ensures T[c] < WORD
    {
      TreeIsFree(h, C, live, S, T, c);
      HeapChunk(h, C, live, S, T, c);
    }
  }

  lemma VictimBound(h: HeapMem, C: Chunks, live: set<int>, S: Chunks, T: Chunks)
    requires HeapOk(h, C, live, S, T)
    ensures h.dvsize < WORD && Aligned(h.dvsize)
  {
    hide HeapOk;
    if h.dv != 0 {
      AllocVictimFacts(h, C, live, S, T);
      HeapChunk(h, C, live, S, T, h.dv);
    } else {
      NoVictim(h, C, live, S, T);
    }
  }

  lemma NoVictim(h: HeapMem, C: Chunks, live: set<int>, S: Chunks, T: Chunks)
    requires HeapOk(h, C, live, S, T)
    ensures h.dv == 0 <==> h.dvsize == 0
  {
    hide Layout, TagsOk;
  }

  lemma AllocVictimFacts(h: HeapMem, C: Chunks, live: set<int>, S: Chunks, T: Chunks)
    requires HeapOk(h, C, live, S, T) && h.dv != 0
    ensures h.dv in C && h.dv !in live && C[h.dv] == h.dvsize
  {
    hide Layout, TagsOk;
    FreeAt(C, live, 0, h.dv);
  }

  lemma VictimExists(h: HeapMem, C: Chunks, live: set<int>, S: Chunks, T: Chunks)
    requires HeapOk(h, C, live, S, T) && h.dvsize > 0
    ensures h.dv != 0 && h.dv in C && h.dv !in live && C[h.dv] == h.dvsize
  {
    hide Parts;
    NoVictim(h, C, live, S, T);
    AllocVictimFacts(h, C, live, S, T);
  }

  /** The unsigned difference `dvsize - nb`: huge when the victim is too small. */
  lemma WrapVictim(dvsize: nat, nb: nat)
    requires dvsize < WORD && 0 < nb < WORD
    ensures Wrap(dvsize - nb) == if nb <= dvsize then dvsize - nb else dvsize - nb + WORD
  {
  }

  lemma SplitSizes(C: Chunks, p: int, nb: nat)
    requires p in C && 0 < nb < C[p]
    ensures p in Split(C, p, nb) && Split(C, p, nb)[p] == nb
    ensures p + nb in Split(C, p, nb) && Split(C, p, nb)[p + nb] == C[p] - nb
    ensures forall q :: q in C && q != p && q != p + nb ==> q in Split(C, p, nb) && Split(C, p, nb)[q] == C[q]
    ensures Split(C, p, nb).Keys == C.Keys + {p + nb}
  {
  }

  lemma HeapLive(h: HeapMem, C: Chunks, live: set<int>, S: Chunks, T: Chunks)
    requires HeapOk(h, C, live, S, T)
    ensures live <= C.Keys
  {
    HeapNoZero(h, C, live, S, T);
  }

  /** A chunk in a small bin is free and not the victim. */
  lemma SmallIsFree(h: HeapMem, C: Chunks, live: set<int>, S: Chunks, T: Chunks, p: int)
    requires HeapOk(h, C, live, S, T) && p in S
    ensures p in C && p !in live && p != h.dv && C[p] == S[p] && p !in T && live <= C.Keys
  {
    hide Layout, TagsOk;
    HeapNoZero(h, C, live, S, T);
    FreeAt(C, live, 0, p);
  }

  lemma TreeIsFree(h: HeapMem, C: Chunks, live: set<int>, S: Chunks, T: Chunks, p: int)
    requires HeapOk(h, C, live, S, T) && p in T
    ensures p in C && p !in live && p != h.dv && C[p] == T[p] && p !in S && live <= C.Keys
  {
    hide Layout, TagsOk;
    HeapNoZero(h, C, live, S, T);
    FreeAt(C, live, 0, p);
  }

  lemma VictimState(h: HeapMem, C: Chunks, live: set<int>, S: Chunks, T: Chunks, r: int)
    requires Unbinned(h, C, live, S, T, r) && h.dv != r
    ensures h.dvsize == 0 <==> h.dv == 0
    ensures h.dv != 0 ==> h.dv in C && h.dv !in S && C[h.dv] == h.dvsize
  {
    hide Layout, TagsOk;
    FreeAt(C, live, r, h.dv);
  }

  lemma UnbinnedFactsAt(h: HeapMem, C: Chunks, live: set<int>, S: Chunks, T: Chunks, r: int, p: int)
    requires Unbinned(h, C, live, S, T, r) && p in C
    ensures 0 < p && MIN_CHUNK_SIZE <= C[p] < WORD && C[p] % 8 == 0
  {
    hide Parts, Size;
    UnbinnedNoZero(h, C, live, S, T, r);
    TagsOfChunk(h, C, live, S, T, 0, r, p);
  }

  lemma UnbinnedNoZero(h: HeapMem, C: Chunks, live: set<int>, S: Chunks, T: Chunks, r: int)
    requires Unbinned(h, C, live, S, T, r)
    ensures 0 !in C
  {
    hide Parts;
    NoZero(h, C, live, S, T, 0, r);
  }

  lemma UnbinnedFacts(h: HeapMem, C: Chunks, live: set<int>, S: Chunks, T: Chunks, x: int)
    requires Unbinned(h, C, live, S, T, x)
    ensures x in C && 0 < x && MIN_CHUNK_SIZE <= C[x] < WORD && Aligned(C[x])
    ensures forall c :: c in T ==> Size(h.tags, c) == T[c]
  {
    hide Parts, Size;
    TagsOfChunk(h, C, live, S, T, 0, x, x);
    TreeSizes(h, C, live, S, T, 0, x);
  }

  lemma LimboPlace(h: HeapMem, C: Chunks, live: set<int>, S: Chunks, T: Chunks, x: int)
    requires Limbo(h, C, live, S, T, x)
    ensures 0 < x && MIN_CHUNK_SIZE <= C[x] && (x + C[x] in C || x + C[x] == h.top)
  {
    hide Layout, TagsOk, Binned, Aligned, Free;
    ChunkFacts(C, h.base, h.top, x);
  }

  lemma LimboFacts(h: HeapMem, C: Chunks, live: set<int>, S: Chunks, T: Chunks, x: int)
    requires Limbo(h, C, live, S, T, x)
    ensures x in C && 0 < x && MIN_CHUNK_SIZE <= C[x]
    ensures x !in live && live <= C.Keys
    ensures var n := x + C[x];
            if n in C then && n != h.top && Size(h.tags, n) == C[n] && (Cinuse(h.tags, n) <==> n in live)
                           && MIN_CHUNK_SIZE <= C[n]
            else n == h.top && !Cinuse(h.tags, n)
  {
    hide Parts, Size, Cinuse, Aligned;
    LimboPlace(h, C, live, S, T, x);
    TopFacts(h, C, live, S, T, x, x);
    if x + C[x] in C {
      TagsOfChunk(h, C, live, S, T, x, x, x + C[x]);
    }
  }

  /** The victim next to the chunk in transition. */
  lemma LimboVictim(h: HeapMem, C: Chunks, live: set<int>, S: Chunks, T: Chunks, x: int)
    requires Limbo(h, C, live, S, T, x) && h.dv in C && h.dv !in live && h.dv != x
    ensures C[h.dv] == h.dvsize
  {
    hide Layout, TagsOk;
    FreeAt(C, live, x, h.dv);
  }

  lemma VictimIsFree(h: HeapMem, C: Chunks, live: set<int>, S: Chunks, T: Chunks, p: int)
    requires HeapOk(h, C, live, S, T) && p in live
    ensures p != h.dv
  {
    hide Layout, TagsOk, Binned;
    HeapNoZero(h, C, live, S, T);
    FreeAt(C, live, 0, p);
  }

  lemma PreviousFree(h: HeapMem, C: Chunks, live: set<int>, S: Chunks, T: Chunks, p: int) returns (q: int)
    requires HeapOk(h, C, live, S, T) && p in C && !Pinuse(h.tags, p)
    ensures q == p - PrevFoot(h.tags, p) && q in C && q !in live && q + C[q] == p && PrevFoot(h.tags, p) == C[q]
  {
    hide Layout, TagsOk, Binned, Pinuse, PrevFoot;
    q := BackwardNeighbour(h.tags, C, live, h.base, h.top, h.topsize, p);
  }

  lemma MergedSize(C: Chunks, x: int, p: int)
    requires x in C && p in C && x + C[x] == p && x != p
    ensures x in Merged(C, x) && Merged(C, x)[x] == C[x] + C[p]
    ensures forall q :: q in Merged(C, x) && q != x ==> q in C && Merged(C, x)[q] == C[q]
    ensures Merged(C, x).Keys == C.Keys - {p}
  {
  }

  /** The victim absorbs the chunk in use between it and another chunk in use. */
  lemma VictimGrows(h: HeapMem, C: Chunks, live: set<int>, S: Chunks, T: Chunks, p: int)
    requires HeapOk(h, C, live, S, T) && p in live && p in C && !Pinuse(h.tags, p) && p - PrevFoot(h.tags, p) == h.dv
    requires Cinuse(h.tags, p + C[p])
    ensures var x := h.dv;
            var s := C[p] + PrevFoot(h.tags, p);
            s >= 0 && HeapOk(h.(dvsize := s, tags := SetFree(h.tags, x, s, p + C[p])), Merged(C, x), live - {p}, S, T)
  {
    hide HeapOk, Limbo, Unbinned, Pinuse, Cinuse, PrevFoot, SetFree, Merged;
    var x := PreviousFree(h, C, live, S, T, p);
    HeapChunk(h, C, live, S, T, p);
    HeapNext(h, C, live, S, T, p);
    MergedSize(C, x, p);
    ReleaseBackward(h, C, live, S, T, x, p);
    var C', live' := Merged(C, x), live - {p};
    SettleBeforeLive(h, C', live', S, T, x);
    VictimIs(h.(tags := SetFree(h.tags, x, C'[x], x + C'[x])), C', live', S, T, x);
  }

  lemma HeapChunk(h: HeapMem, C: Chunks, live: set<int>, S: Chunks, T: Chunks, p: int)
    requires HeapOk(h, C, live, S, T) && p in C
    ensures Size(h.tags, p) == C[p] && (Cinuse(h.tags, p) <==> p in live)
    ensures p in live ==> Pinuse(h.tags, p + C[p])
    ensures p + C[p] in C || p + C[p] == h.top
    ensures 0 < p && Aligned(p) && Aligned(C[p]) && MIN_CHUNK_SIZE <= C[p] < WORD && p + C[p] <= h.top
  {
    hide Parts, Size, Cinuse, Pinuse;
    HeapNoZero(h, C, live, S, T);
    TagsOfChunk(h, C, live, S, T, 0, 0, p);
  }

  lemma HeapNoZero(h: HeapMem, C: Chunks, live: set<int>, S: Chunks, T: Chunks)
    requires HeapOk(h, C, live, S, T)
    ensures 0 !in C && 0 < h.top && live <= C.Keys
  {
    hide Parts;
    NoZero(h, C, live, S, T, 0, 0);
    TopFacts(h, C, live, S, T, 0, 0);
  }

  /** What follows a chunk: another chunk, whose cinuse bit says whether it is in use, or the top. */
  lemma HeapNext(h: HeapMem, C: Chunks, live: set<int>, S: Chunks, T: Chunks, p: int)
    requires HeapOk(h, C, live, S, T) && p in C
    ensures var n := p + C[p];
            if n in C then n != h.top && Size(h.tags, n) == C[n] && (Cinuse(h.tags, n) <==> n in live)
            else n == h.top && !Cinuse(h.tags, n)
  {
    hide Parts, Size, Cinuse, Pinuse;
    HeapChunk(h, C, live, S, T, p);
    TopFacts(h, C, live, S, T, 0, 0);
    if p + C[p] in C {
      HeapChunk(h, C, live, S, T, p + C[p]);
    }
  }

  lemma NoChunks(C: Chunks)
    ensures C == map[] <==> forall c :: c !in C
  {
    if forall c :: c !in C {
      assert C.Keys == {};
      assert C == map[];
    }
  }

  // ---- which free chunk serves a request ----

  ghost predicate Fits(C: Chunks, live: set<int>, nb: nat, c: int) {
    c in C && c !in live && nb <= C[c]
  }

  /** A large request takes the smallest fitting free chunk, the victim included. */
  ghost predicate BestLarge(C: Chunks, live: set<int>, nb: nat, p: int) {
    Fits(C, live, nb, p) && forall c :: Fits(C, live, nb, c) ==> C[p] <= C[c]
  }

  /** A small request takes a chunk from a small bin that leaves no remainder if there is one, then the
      victim if it fits, and otherwise the smallest fitting free chunk. */
  ghost predicate BestSmall(C: Chunks, live: set<int>, dv: int, nb: nat, p: int) {
    && Fits(C, live, nb, p)
    && if p == dv then (forall c :: Fits(C, live, nb, c) && c != dv && C[c] < MIN_LARGE_SIZE ==>
                                      nb + MIN_CHUNK_SIZE <= C[c])
       else (forall c :: Fits(C, live, nb, c) && c != dv ==> C[p] <= C[c])
            && (Fits(C, live, nb, dv) ==> C[p] < nb + MIN_CHUNK_SIZE)
  }

  /** The choice of `dlmalloc` among the free chunks. */
  ghost predicate Choice(C: Chunks, live: set<int>, dv: int, bytes: nat, p: int) {
    if bytes <= MAX_SMALL_REQUEST then BestSmall(C, live, dv, RequestToSize(bytes), p)
    else BestLarge(C, live, RequestToSize(bytes), p)
  }

  ghost predicate NoneFits(C: Chunks, live: set<int>, nb: nat) {
    forall c :: !Fits(C, live, nb, c)
  }

  lemma ChoiceFits(C: Chunks, live: set<int>, dv: int, bytes: nat, p: int)
    requires Choice(C, live, dv, bytes, p)
    ensures !NoneFits(C, live, RequestToSize(bytes))
  {
    assert Fits(C, live, RequestToSize(bytes), p);
  }

  lemma ChoiceIsFree(C: Chunks, live: set<int>, dv: int, bytes: nat, p: int)
    requires Choice(C, live, dv, bytes, p)
    ensures p in C && p !in live && RequestToSize(bytes) <= C[p]
  {
  }

  /** Every free chunk is the victim, in a small bin or in a tree bin. */
  lemma FreeIsBinned(h: HeapMem, C: Chunks, live: set<int>, S: Chunks, T: Chunks, c: int)
    requires HeapOk(h, C, live, S, T) && c in C && c !in live
    ensures if c == h.dv then C[c] == h.dvsize && c !in S && c !in T
            else if C[c] < MIN_LARGE_SIZE then c in S && S[c] == C[c] && c !in T else c in T && T[c] == C[c] && c !in S
  {
    hide Layout, TagsOk;
    HeapNoZero(h, C, live, S, T);
    FreeAt(C, live, 0, c);
  }

  /** What the bins and the victim tell about all free chunks. */
  lemma Shortage(h: HeapMem, C: Chunks, live: set<int>, S: Chunks, T: Chunks, nb: nat)
    requires HeapOk(h, C, live, S, T) && h.dvsize < nb
    requires forall c :: c in S ==> S[c] < nb
    requires forall c :: c in T ==> T[c] < nb
    ensures forall c :: !Fits(C, live, nb, c)
  {
    hide HeapOk;
    forall c
      ensures !Fits(C, live, nb, c)
    {
      if c in C && c !in live {
        FreeIsBinned(h, C, live, S, T, c);
      }
    }
  }

  /** The smallest sufficient chunk of the small bins. */
  lemma SmallPick(h: HeapMem, C: Chunks, live: set<int>, S: Chunks, T: Chunks, nb: nat, p: int)
    requires HeapOk(h, C, live, S, T) && p in S && nb <= S[p]
    requires forall c :: c in S && nb <= S[c] ==> S[p] <= S[c]
    requires S[p] < nb + MIN_CHUNK_SIZE || h.dvsize < nb
    ensures p != 0 && BestSmall(C, live, h.dv, nb, p)
  {
    hide HeapOk;
    HeapNoZero(h, C, live, S, T);
    SmallIsFree(h, C, live, S, T, p);
    if h.dv in C && h.dv !in live {
      FreeIsBinned(h, C, live, S, T, h.dv);
    }
    FreeIsBinned(h, C, live, S, T, p);
    forall c | Fits(C, live, nb, c) && c != h.dv
      ensures C[p] <= C[c]
    {
      FreeIsBinned(h, C, live, S, T, c);
    }
  }

  /** The smallest sufficient chunk of the tree bins, when no small chunk and no closer victim fits. */
  lemma TreePick(h: HeapMem, C: Chunks, live: set<int>, S: Chunks, T: Chunks, nb: nat, p: int)
    requires HeapOk(h, C, live, S, T) && p in T && nb <= T[p]
    requires forall c :: c in T && nb <= T[c] ==> T[p] <= T[c]
    requires forall c :: c in S ==> S[c] < nb
    requires nb <= h.dvsize ==> T[p] < h.dvsize
    ensures p != 0 && p != h.dv && BestLarge(C, live, nb, p)
    ensures h.dvsize < nb ==> BestSmall(C, live, h.dv, nb, p)
  {
    hide HeapOk;
    HeapNoZero(h, C, live, S, T);
    TreeIsFree(h, C, live, S, T, p);
    forall c | Fits(C, live, nb, c)
      ensures C[p] <= C[c] && (c == h.dv ==> nb <= h.dvsize)
    {
      FreeIsBinned(h, C, live, S, T, c);
    }
  }

  /** The victim, when it fits and nothing in the bins is preferred to it. */
  lemma VictimPick(h: HeapMem, C: Chunks, live: set<int>, S: Chunks, T: Chunks, nb: nat)
    requires HeapOk(h, C, live, S, T) && 0 < nb <= h.dvsize
    ensures (forall c :: c in S && nb <= S[c] ==> nb + MIN_CHUNK_SIZE <= S[c]) ==> BestSmall(C, live, h.dv, nb, h.dv)
    ensures (forall c :: c in T && nb <= T[c] ==> h.dvsize <= T[c]) && MIN_LARGE_SIZE <= nb ==>
              BestLarge(C, live, nb, h.dv)
  {
    hide HeapOk;
    VictimExists(h, C, live, S, T);
    forall c | Fits(C, live, nb, c)
      ensures c == h.dv || (if C[c] < MIN_LARGE_SIZE then c in S && S[c] == C[c] else c in T && T[c] == C[c])
    {
      FreeIsBinned(h, C, live, S, T, c);
    }
  }

  lemma SmallBound(h: HeapMem, C: Chunks, live: set<int>, S: Chunks, T: Chunks, nb: nat)
    requires HeapOk(h, C, live, S, T) && MIN_LARGE_SIZE <= nb
    ensures forall c :: c in S ==> S[c] < nb
  {
    hide HeapOk;
    forall c | c in S
      ensures S[c] < nb
    {
      SmallIsFree(h, C, live, S, T, c);
      FreeIsBinned(h, C, live, S, T, c);
    }
  }

  // ---- resizing in place ----

  /** What `try_realloc_chunk` can serve in place: the chunk is large enough already, or the top or the
      free chunk behind it makes up for the rest. */
  ghost predicate Resizable(C: Chunks, live: set<int>, top: int, topsize: nat, p: int, nb: nat)
    requires p in C
  {
    var n := p + C[p];
    || nb <= C[p]
    || (n == top && nb < C[p] + topsize)
    || (n in C && n !in live && nb <= C[p] + C[n])
  }

  lemma MergedSplit(C: Chunks, p: int, nb: nat)
    requires p in C && p + C[p] in C && 0 < C[p] < nb < C[p] + C[p + C[p]]
    ensures var C1, C2 := Merged(C, p), Split(Merged(C, p), p, nb);
            && p in C2 && C2[p] == nb && p + nb in C2 && C2[p + nb] == C[p] + C[p + C[p]] - nb
            && forall q :: q in C && q != p && q != p + C[p] && q != p + nb ==> q in C2 && C2[q] == C[q]
    ensures Split(Merged(C, p), p, nb).Keys == C.Keys - {p + C[p]} + {p + nb}
  {
  }

  /** Behind a chunk in use: the top, the victim, another free chunk or a chunk in use. */
  lemma Behind(h: HeapMem, C: Chunks, live: set<int>, S: Chunks, T: Chunks, p: int)
    requires HeapOk(h, C, live, S, T) && p in live
    ensures p in C && 0 < p && Aligned(C[p]) && MIN_CHUNK_SIZE <= C[p] && Size(h.tags, p) == C[p]
    ensures p + C[p] <= h.top < WORD
    ensures h.dv != 0 ==> h.dv in C && h.dv !in live && C[h.dv] == h.dvsize
    ensures var n := p + C[p];
            if n in C then && n != h.top && Size(h.tags, n) == C[n] && (Cinuse(h.tags, n) <==> n in live)
                           && MIN_CHUNK_SIZE <= C[n] && Aligned(C[n])
            else n == h.top && !Cinuse(h.tags, n) && n != h.dv
  {
    hide HeapOk, Size, Cinuse, Pinuse, Aligned;
    HeapNoZero(h, C, live, S, T);
    HeapChunk(h, C, live, S, T, p);
    HeapNext(h, C, live, S, T, p);
    HeapTop(h, C, live, S, T);
    if p + C[p] in C {
      HeapChunk(h, C, live, S, T, p + C[p]);
    }
    if h.dv != 0 {
      AllocVictimFacts(h, C, live, S, T);
    }
  }

  lemma RestAligned(nb: nat, s: nat)
    requires Aligned(nb) && Aligned(s) && nb <= s
    ensures nb % 8 == 0 && (s - nb) % 8 == 0
  {
  }

  lemma RestAligned2(nb: nat, s: nat, t: nat)
    requires Aligned(nb) && Aligned(s) && Aligned(t) && nb <= s + t
    ensures nb % 8 == 0 && (s + t - nb) % 8 == 0
  {
  }

  /** Inside a free chunk behind `p` no chunk begins. */
  lemma NoChunkAt(h: HeapMem, C: Chunks, live: set<int>, S: Chunks, T: Chunks, p: int, nb: nat)
    requires p in C && HeapOk(h, C, live, S, T) && p + C[p] in C && C[p] < nb < C[p] + C[p + C[p]]
    ensures p + nb !in C
  {
    hide Layout, TagsOk, Binned;
    if p + nb in C {
      ChunkFacts(C, h.base, h.top, p + C[p]);
      Disjoint(C, h.base, h.top, p + C[p], p + nb);
    }
  }

  lemma TopNotLive(h: HeapMem, C: Chunks, live: set<int>, S: Chunks, T: Chunks)
    requires HeapOk(h, C, live, S, T)
    ensures h.top !in live
  {
    hide HeapOk;
    HeapLive(h, C, live, S, T);
    HeapTop(h, C, live, S, T);
  }

  lemma HeapRow(h: HeapMem, C: Chunks, live: set<int>, S: Chunks, T: Chunks)
    requires HeapOk(h, C, live, S, T)
    ensures Layout(C, h.base, h.top) && live <= C.Keys
  {
    hide Layout, TagsOk, Binned;
    HeapNoZero(h, C, live, S, T);
  }
}
