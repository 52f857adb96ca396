/** How the allocator's tag updates keep the boundary-tag invariant, one step at a time. */
module MallocTagSteps {
  import opened MallocSizes
  import opened MallocTags
  import opened MallocLayout

  lemma TagsAt(m: TagMem, C: Chunks, live: set<int>, base: int, top: int, topsize: nat, x: int, p: int)
    requires TagsOk(m, C, live, base, top, topsize, x) && p in C && p != x
    ensures ChunkTags(m, C, live, p)
  {
  }

  lemma TagsParts(m: TagMem, C: Chunks, live: set<int>, base: int, top: int, topsize: nat, x: int)
    requires TagsOk(m, C, live, base, top, topsize, x)
    ensures live <= C.Keys && Pinuse(m, base)
    ensures Size(m, top) == topsize && !Cinuse(m, top) && Pinuse(m, top) && topsize > 0 && Aligned(topsize)
    ensures !Pinuse(m, top + topsize)
    ensures x != 0 ==> x in C && x !in live && Pinuse(m, x)
  {
  }

  lemma TagsAre(m: TagMem, C: Chunks, live: set<int>, base: int, top: int, topsize: nat, x: int)
    requires live <= C.Keys && Pinuse(m, base)
    requires Size(m, top) == topsize && !Cinuse(m, top) && Pinuse(m, top) && topsize > 0 && Aligned(topsize)
    requires !Pinuse(m, top + topsize)
    requires x != 0 ==> x in C && x !in live && Pinuse(m, x)
    requires forall p :: p in C && p != x ==> ChunkTags(m, C, live, p)
    ensures TagsOk(m, C, live, base, top, topsize, x)
  {
  }

  /** `prev_foot` finds the chunk before a chunk whose pinuse bit is clear; that chunk is free. */
  lemma BackwardNeighbour(m: TagMem, C: Chunks, live: set<int>, base: int, top: int, topsize: nat,
                          p: int) returns (q: int)
    requires Layout(C, base, top) && TagsOk(m, C, live, base, top, topsize, 0) && p in C && !Pinuse(m, p)
    ensures q == p - PrevFoot(m, p) && q in C && q !in live && q + C[q] == p && PrevFoot(m, p) == C[q] && p in live
  {
    hide Size, Cinuse, Pinuse, PrevFoot, Layout, Aligned, TagsOk;
    TagsParts(m, C, live, base, top, topsize, 0);
    q := Predecessor(C, base, top, p);
    ChunkFacts(C, base, top, q);
    TagsAt(m, C, live, base, top, topsize, 0, q);
  }

  /** A chunk in use whose predecessor is in use too is taken out of use. */
  lemma Released(m: TagMem, C: Chunks, live: set<int>, base: int, top: int, topsize: nat, p: int)
    requires Layout(C, base, top) && TagsOk(m, C, live, base, top, topsize, 0) && p in live && Pinuse(m, p)
    ensures TagsOk(m, C, live - {p}, base, top, topsize, p)
  {
    hide Size, Cinuse, Pinuse, PrevFoot, Layout, Aligned, TagsOk;
    TagsParts(m, C, live, base, top, topsize, 0);
    ChunkFacts(C, base, top, p);
    forall q | q in C && q != p
      ensures ChunkTags(m, C, live - {p}, q)
    {
      ChunkFacts(C, base, top, q);
      TagsAt(m, C, live, base, top, topsize, 0, q);
    }
    TagsAre(m, C, live - {p}, base, top, topsize, p);
  }

  /** A chunk in use is taken out of use and joined to the free chunk `q` before it. */
  lemma ReleasedBackward(m: TagMem, C: Chunks, live: set<int>, base: int, top: int, topsize: nat, q: int, p: int)
    requires Layout(C, base, top) && TagsOk(m, C, live, base, top, topsize, 0)
    requires q in C && q !in live && p in live && q + C[q] == p && p in C
    ensures Layout(Merged(C, q), base, top) && TagsOk(m, Merged(C, q), live - {p}, base, top, topsize, q)
  {
    hide Size, Cinuse, Pinuse, PrevFoot, Layout, Aligned, TagsOk;
    LayoutMerge(C, base, top, q);
    TagsParts(m, C, live, base, top, topsize, 0);
    FreeFollowsLive(m, C, live, base, top, topsize, q);
    ChunkFacts(C, base, top, q);
    ChunkFacts(C, base, top, p);
    var C' := Merged(C, q);
    forall r | r in C' && r != q
      ensures ChunkTags(m, C', live - {p}, r)
    {
      ChunkFacts(C, base, top, r);
      TagsAt(m, C, live, base, top, topsize, 0, r);
      Disjoint(C, base, top, r, q);
    }
    TagsAre(m, C', live - {p}, base, top, topsize, q);
  }

  /** The pinuse bit of a free chunk is set: what stands before it is in use. */
  lemma FreeFollowsLive(m: TagMem, C: Chunks, live: set<int>, base: int, top: int, topsize: nat, q: int)
    requires Layout(C, base, top) && TagsOk(m, C, live, base, top, topsize, 0) && q in C && q !in live
    ensures Pinuse(m, q)
  {
    hide Size, Cinuse, Pinuse, PrevFoot, Layout, Aligned, TagsOk;
    TagsParts(m, C, live, base, top, topsize, 0);
    if q != base {
      var r := Predecessor(C, base, top, q);
      ChunkFacts(C, base, top, r);
      TagsAt(m, C, live, base, top, topsize, 0, r);
    }
  }

  /** A chunk in transition swallows the free chunk behind it. */
  lemma JoinedForward(m: TagMem, C: Chunks, live: set<int>, base: int, top: int, topsize: nat, x: int)
    requires Layout(C, base, top) && x != 0 && TagsOk(m, C, live, base, top, topsize, x)
    requires x in C && x + C[x] in C && x + C[x] !in live
    ensures Layout(Merged(C, x), base, top) && TagsOk(m, Merged(C, x), live, base, top, topsize, x)
    ensures var n := x + Merged(C, x)[x]; n in live && !Pinuse(m, n)
  {
    hide Size, Cinuse, Pinuse, PrevFoot, Layout, Aligned, TagsOk;
    LayoutMerge(C, base, top, x);
    TagsParts(m, C, live, base, top, topsize, x);
    var n := x + C[x];
    ChunkFacts(C, base, top, x);
    ChunkFacts(C, base, top, n);
    TagsAt(m, C, live, base, top, topsize, x, n);
    var C' := Merged(C, x);
    forall r | r in C' && r != x
      ensures ChunkTags(m, C', live, r)
    {
      TagsAt(m, C, live, base, top, topsize, x, r);
      Disjoint(C, base, top, r, x);
    }
    TagsAre(m, C', live, base, top, topsize, x);
  }

  /** `set_free_with_pinuse` ends a transition before a chunk in use. */
  lemma FreedBeforeLive(m: TagMem, C: Chunks, live: set<int>, base: int, top: int, topsize: nat, x: int)
    requires Layout(C, base, top) && x != 0 && TagsOk(m, C, live, base, top, topsize, x)
    requires x in C && x + C[x] in live
    ensures TagsOk(SetFree(m, x, C[x], x + C[x]), C, live, base, top, topsize, 0)
  {
    hide Size, Cinuse, Pinuse, PrevFoot, Layout, SetFree, TagsOk;
    RowFacts(C, base, top);
    TagsParts(m, C, live, base, top, topsize, x);
    ChunkFacts(C, base, top, x);
    var n := x + C[x];
    var m' := SetFree(m, x, C[x], n);
    SetFreeIs(m, x, C[x], n);
    ChunkFacts(C, base, top, n);
    forall q | q in C
      ensures ChunkTags(m', C, live, q)
    {
      if q != x {
        TagsAt(m, C, live, base, top, topsize, x, q);
        Disjoint(C, base, top, q, x);
      }
    }
    TagsAre(m', C, live, base, top, topsize, 0);
  }

  /** `set_size_and_pinuse_of_free_chunk` ends a transition when the next pinuse bit is already clear. */
  lemma FreedAfterJoin(m: TagMem, C: Chunks, live: set<int>, base: int, top: int, topsize: nat, x: int)
    requires Layout(C, base, top) && x != 0 && TagsOk(m, C, live, base, top, topsize, x)
    requires x in C && x + C[x] in live && !Pinuse(m, x + C[x])
    ensures TagsOk(SetSizeOfFree(m, x, C[x]), C, live, base, top, topsize, 0)
  {
    hide Size, Cinuse, Pinuse, PrevFoot, Layout, SetSizeOfFree, TagsOk;
    RowFacts(C, base, top);
    TagsParts(m, C, live, base, top, topsize, x);
    ChunkFacts(C, base, top, x);
    var n := x + C[x];
    var m' := SetSizeOfFree(m, x, C[x]);
    SetSizeOfFreeIs(m, x, C[x]);
    ChunkFacts(C, base, top, n);
    forall q | q in C
      ensures ChunkTags(m', C, live, q)
    {
      if q != x {
        TagsAt(m, C, live, base, top, topsize, x, q);
        Disjoint(C, base, top, q, x);
      }
    }
    TagsAre(m', C, live, base, top, topsize, 0);
  }

  /** A transition that ends in the top. */
  lemma JoinedTop(m: TagMem, C: Chunks, live: set<int>, base: int, top: int, topsize: nat, x: int)
    requires Layout(C, base, top) && x != 0 && TagsOk(m, C, live, base, top, topsize, x)
    requires x in C && x + C[x] == top
    ensures Layout(C - {x}, base, x)
    ensures TagsOk(SetTop(m, x, topsize + C[x]), C - {x}, live, base, x, topsize + C[x], 0)
  {
    hide Size, Cinuse, Pinuse, PrevFoot, Layout, SetHead, TagsOk;
    LayoutDropLast(C, base, top, x);
    RowFacts(C, base, top);
    TagsParts(m, C, live, base, top, topsize, x);
    ChunkFacts(C, base, top, x);
    AlignedSum(topsize, C[x]);
    var m' := SetTop(m, x, topsize + C[x]);
    SetHeadIs(m, x, topsize + C[x], false, true);
    forall q | q in C - {x}
      ensures ChunkTags(m', C - {x}, live, q)
    {
      TagsAt(m, C, live, base, top, topsize, x, q);
      ChunkFacts(C, base, top, q);
      Disjoint(C, base, top, q, x);
    }
    TagsAre(m', C - {x}, live, base, x, topsize + C[x], 0);
  }

  // ---- taking a free chunk into use ----

  /** `set_inuse_and_pinuse` on a whole free chunk. */
  lemma TakenWhole(m: TagMem, C: Chunks, live: set<int>, base: int, top: int, topsize: nat, p: int)
    requires Layout(C, base, top) && TagsOk(m, C, live, base, top, topsize, 0) && p in C && p !in live
    ensures TagsOk(SetInuseAndPinuse(m, p, C[p]), C, live + {p}, base, top, topsize, 0)
  {
    hide Size, Cinuse, Pinuse, PrevFoot, Layout, SetInuseAndPinuse, TagsOk;
    RowFacts(C, base, top);
    TagsParts(m, C, live, base, top, topsize, 0);
    ChunkFacts(C, base, top, p);
    FreeFollowsLive(m, C, live, base, top, topsize, p);
    var m' := SetInuseAndPinuse(m, p, C[p]);
    SetInuseAndPinuseIs(m, p, C[p]);
    forall q | q in C
      ensures ChunkTags(m', C, live + {p}, q)
    {
      ChunkFacts(C, base, top, q);
      TagsAt(m, C, live, base, top, topsize, 0, q);
      if q != p {
        Disjoint(C, base, top, q, p);
      }
    }
    TagsAre(m', C, live + {p}, base, top, topsize, 0);
  }

  /** The tags of a chunk split into a leading part in use and a free remainder. */
  ghost function SplitTags(m: TagMem, p: int, nb: nat, rs: nat): TagMem {
    SetSizeOfFree(SetSizeOfInuse(m, p, nb), p + nb, rs)
  }

  lemma SplitTagsAre(m: TagMem, p: int, nb: nat, rs: nat)
    requires nb % 8 == 0 && rs % 8 == 0 && nb > 0
    ensures var m', r := SplitTags(m, p, nb, rs), p + nb;
            && (forall a {:trigger Size(m', a)} ::
                  Size(m', a) == if a == p then nb else if a == r then rs else Size(m, a))
            && (forall a {:trigger Cinuse(m', a)} :: Cinuse(m', a) == (a == p || (a != r && Cinuse(m, a))))
            && (forall a {:trigger Pinuse(m', a)} :: Pinuse(m', a) == (a == p || a == r || Pinuse(m, a)))
            && (forall a {:trigger PrevFoot(m', a)} :: PrevFoot(m', a) == if a == r + rs then rs else PrevFoot(m, a))
  {
    hide Size, Cinuse, Pinuse, PrevFoot, SetHead, SetSizeOfFree;
    SetHeadIs(m, p, nb, true, true);
    SetSizeOfFreeIs(SetSizeOfInuse(m, p, nb), p + nb, rs);
  }

  /** Writing the two heads in the other order gives the same memory. */
  lemma SplitTagsCommute(m: TagMem, p: int, nb: nat, rs: nat)
    requires nb > 0
    ensures SetSizeOfInuse(SetSizeOfFree(m, p + nb, rs), p, nb) == SplitTags(m, p, nb, rs)
  {
    var a, b := HeadWord(nb, true, true), HeadWord(rs, false, true);
    assert m.head[p + nb := b][p := a] == m.head[p := a][p + nb := b];
  }

  lemma TakenPart(m: TagMem, C: Chunks, live: set<int>, base: int, top: int, topsize: nat, p: int, nb: nat)
    requires Layout(C, base, top) && TagsOk(m, C, live, base, top, topsize, 0) && p in C && p !in live
    requires Aligned(nb) && MIN_CHUNK_SIZE <= nb && nb + MIN_CHUNK_SIZE <= C[p]
    ensures Layout(Split(C, p, nb), base, top)
    ensures TagsOk(SplitTags(m, p, nb, C[p] - nb), Split(C, p, nb), live + {p}, base, top, topsize, 0)
    ensures p + nb !in live
  {
    hide Size, Cinuse, Pinuse, PrevFoot, Layout, SplitTags, TagsOk;
    LayoutSplit(C, base, top, p, nb);
    SplitPointFree(C, base, top, p, nb);
    RowFacts(C, base, top);
    TagsParts(m, C, live, base, top, topsize, 0);
    ChunkFacts(C, base, top, p);
    FreeFollowsLive(m, C, live, base, top, topsize, p);
    AlignedSum(C[p], nb);
    var C', m' := Split(C, p, nb), SplitTags(m, p, nb, C[p] - nb);
    SplitTagsAre(m, p, nb, C[p] - nb);
    TagsAt(m, C, live, base, top, topsize, 0, p);
    forall q | q in C'
      ensures ChunkTags(m', C', live + {p}, q)
    {
      if q != p && q != p + nb {
        ChunkFacts(C, base, top, q);
        TagsAt(m, C, live, base, top, topsize, 0, q);
        Disjoint(C, base, top, q, p);
      }
    }
    TagsAre(m', C', live + {p}, base, top, topsize, 0);
  }

  /** `r->head = rsize | PINUSE_BIT; set_size_and_pinuse_of_inuse_chunk(p, nb)` at the top. */
  ghost function TopTags(m: TagMem, top: int, nb: nat, rs: nat): TagMem {
    SetSizeOfInuse(SetTop(m, top + nb, rs), top, nb)
  }

  lemma TakenFromTop(m: TagMem, C: Chunks, live: set<int>, base: int, top: int, topsize: nat, nb: nat)
    requires Layout(C, base, top) && TagsOk(m, C, live, base, top, topsize, 0)
    requires Aligned(nb) && MIN_CHUNK_SIZE <= nb < topsize
    ensures Layout(C[top := nb], base, top + nb) && top !in C
    ensures TagsOk(TopTags(m, top, nb, topsize - nb), C[top := nb], live + {top}, base, top + nb, topsize - nb, 0)
  {
    hide Size, Cinuse, Pinuse, PrevFoot, Layout, SetHead, TagsOk;
    LayoutGrow(C, base, top, nb);
    RowFacts(C, base, top);
    TagsParts(m, C, live, base, top, topsize, 0);
    AlignedSum(topsize, nb);
    var C', m1, m' := C[top := nb], SetTop(m, top + nb, topsize - nb), TopTags(m, top, nb, topsize - nb);
    SetHeadIs(m, top + nb, topsize - nb, false, true);
    SetHeadIs(m1, top, nb, true, true);
    forall q | q in C'
      ensures ChunkTags(m', C', live + {top}, q)
    {
      if q != top {
        ChunkFacts(C, base, top, q);
        TagsAt(m, C, live, base, top, topsize, 0, q);
      }
    }
    TagsAre(m', C', live + {top}, base, top + nb, topsize - nb, 0);
  }

  // ---- splitting and extending chunks in use ----

  /** Two in-use heads where one chunk in use was. */
  ghost predicate TwoLive(m: TagMem, m': TagMem, p: int, nb: nat, rs: nat) {
    var r := p + nb;
    && (forall a {:trigger Size(m', a)} :: Size(m', a) == if a == p then nb else if a == r then rs else Size(m, a))
    && (forall a {:trigger Cinuse(m', a)} :: Cinuse(m', a) == (a == p || a == r || Cinuse(m, a)))
    && (forall a {:trigger Pinuse(m', a)} :: Pinuse(m', a) == (a == r || a == r + rs || Pinuse(m, a)))
    && (forall a {:trigger PrevFoot(m', a)} :: PrevFoot(m', a) == PrevFoot(m, a))
  }

  /** `set_inuse(p, nb); set_inuse(r, rs)` and the same in the other order. */
  lemma TwoLiveIs(m: TagMem, p: int, nb: nat, rs: nat)
    requires nb % 8 == 0 && rs % 8 == 0 && nb > 0 && rs > 0
    ensures TwoLive(m, SetInuse(SetInuse(m, p, nb), p + nb, rs), p, nb, rs)
    ensures TwoLive(m, SetInuse(SetInuse(m, p + nb, rs), p, nb), p, nb, rs)
  {
    hide Size, Cinuse, Pinuse, PrevFoot, SetInuse;
    SetInuseIs(m, p, nb);
    SetInuseIs(SetInuse(m, p, nb), p + nb, rs);
    SetInuseIs(m, p + nb, rs);
    SetInuseIs(SetInuse(m, p + nb, rs), p, nb);
  }

  lemma LiveSplit(m: TagMem, m': TagMem, C: Chunks, live: set<int>, base: int, top: int, topsize: nat, p: int, nb: nat)
    requires Layout(C, base, top) && TagsOk(m, C, live, base, top, topsize, 0) && p in live && p in C
    requires Aligned(nb) && MIN_CHUNK_SIZE <= nb && nb + MIN_CHUNK_SIZE <= C[p] && TwoLive(m, m', p, nb, C[p] - nb)
    ensures Layout(Split(C, p, nb), base, top)
    ensures TagsOk(m', Split(C, p, nb), live + {p + nb}, base, top, topsize, 0)
    ensures p + nb !in C
  {
    hide Size, Cinuse, Pinuse, PrevFoot, Layout, TagsOk;
    LayoutSplit(C, base, top, p, nb);
    SplitPointFree(C, base, top, p, nb);
    RowFacts(C, base, top);
    TagsParts(m, C, live, base, top, topsize, 0);
    ChunkFacts(C, base, top, p);
    TagsAt(m, C, live, base, top, topsize, 0, p);
    var C' := Split(C, p, nb);
    forall q | q in C'
      ensures ChunkTags(m', C', live + {p + nb}, q)
    {
      if q != p && q != p + nb {
        ChunkFacts(C, base, top, q);
        TagsAt(m, C, live, base, top, topsize, 0, q);
        Disjoint(C, base, top, q, p);
      }
    }
    TagsAre(m', C', live + {p + nb}, base, top, topsize, 0);
  }

  /** `set_inuse(p, newsize)` over a chunk in use and the free chunk behind it. */
  lemma LiveExtended(m: TagMem, C: Chunks, live: set<int>, base: int, top: int, topsize: nat, p: int)
    requires Layout(C, base, top) && TagsOk(m, C, live, base, top, topsize, 0) && p in live && p in C
    requires p + C[p] in C && p + C[p] !in live
    ensures Layout(Merged(C, p), base, top)
    ensures TagsOk(SetInuse(m, p, Merged(C, p)[p]), Merged(C, p), live, base, top, topsize, 0)
  {
    hide Size, Cinuse, Pinuse, PrevFoot, Layout, SetInuse, TagsOk;
    LayoutMerge(C, base, top, p);
    RowFacts(C, base, top);
    TagsParts(m, C, live, base, top, topsize, 0);
    ChunkFacts(C, base, top, p);
    var n := p + C[p];
    ChunkFacts(C, base, top, n);
    TagsAt(m, C, live, base, top, topsize, 0, p);
    TagsAt(m, C, live, base, top, topsize, 0, n);
    var C' := Merged(C, p);
    AlignedSum(C[p], C[n]);
    var m' := SetInuse(m, p, C'[p]);
    SetInuseIs(m, p, C'[p]);
    forall q | q in C'
      ensures ChunkTags(m', C', live, q)
    {
      if q != p {
        ChunkFacts(C, base, top, q);
        TagsAt(m, C, live, base, top, topsize, 0, q);
        Disjoint(C, base, top, q, p);
        Disjoint(C, base, top, q, n);
      }
    }
    TagsAre(m', C', live, base, top, topsize, 0);
  }

  /** Splitting memory relative to the extended chunk is splitting relative to the original one. */
  lemma TwoLiveExtended(m: TagMem, m': TagMem, p: int, nb: nat, rs: nat)
    requires nb % 8 == 0 && rs % 8 == 0 && nb > 0 && rs > 0 && TwoLive(m, m', p, nb, rs)
    ensures TwoLive(SetInuse(m, p, nb + rs), m', p, nb, rs)
  {
    hide Size, Cinuse, Pinuse, PrevFoot, SetInuse;
    SetInuseIs(m, p, nb + rs);
  }

  /** A chunk in use extended over the free chunk behind it, of which a free remainder is left. */
  ghost function DvTags(m: TagMem, p: int, nb: nat, rs: nat): TagMem {
    SetPinuse(SetSizeOfFree(SetInuse(m, p, nb), p + nb, rs), p + nb + rs, false)
  }

  lemma DvTagsAre(m: TagMem, p: int, nb: nat, rs: nat)
    requires nb % 8 == 0 && rs % 8 == 0 && nb > 0 && rs > 0
    ensures var m', r := DvTags(m, p, nb, rs), p + nb;
            && (forall a {:trigger Size(m', a)} ::
                  Size(m', a) == if a == p then nb else if a == r then rs else Size(m, a))
            && (forall a {:trigger Cinuse(m', a)} :: Cinuse(m', a) == (a == p || (a != r && Cinuse(m, a))))
            && (forall a {:trigger Pinuse(m', a)} :: Pinuse(m', a) == (a == r || (a != r + rs && Pinuse(m, a))))
            && (forall a {:trigger PrevFoot(m', a)} :: PrevFoot(m', a) == if a == r + rs then rs else PrevFoot(m, a))
  {
    hide Size, Cinuse, Pinuse, PrevFoot, SetInuse, SetSizeOfFree, SetPinuse;
    SetInuseIs(m, p, nb);
    SetSizeOfFreeIs(SetInuse(m, p, nb), p + nb, rs);
    SetPinuseIs(SetSizeOfFree(SetInuse(m, p, nb), p + nb, rs), p + nb + rs, false);
  }

  lemma ExtendedIntoFree(m: TagMem, C: Chunks, live: set<int>, base: int, top: int, topsize: nat, p: int, nb: nat)
    requires Layout(C, base, top) && TagsOk(m, C, live, base, top, topsize, 0) && p in live && p in C
    requires p + C[p] in C && p + C[p] !in live
    requires Aligned(nb) && MIN_CHUNK_SIZE <= nb && nb + MIN_CHUNK_SIZE <= Merged(C, p)[p]
    ensures var C' := Split(Merged(C, p), p, nb);
            Layout(C', base, top) && TagsOk(DvTags(m, p, nb, Merged(C, p)[p] - nb), C', live, base, top, topsize, 0)
    ensures p + nb !in live
  {
    hide Size, Cinuse, Pinuse, PrevFoot, Layout, DvTags, TagsOk;
    var C1 := Merged(C, p);
    LayoutMerge(C, base, top, p);
    LayoutSplit(C1, base, top, p, nb);
    SplitPointFree(C1, base, top, p, nb);
    RowFacts(C, base, top);
    TagsParts(m, C, live, base, top, topsize, 0);
    ChunkFacts(C, base, top, p);
    ChunkFacts(C1, base, top, p);
    var n := p + C[p];
    ChunkFacts(C, base, top, n);
    TagsAt(m, C, live, base, top, topsize, 0, p);
    TagsAt(m, C, live, base, top, topsize, 0, n);
    AlignedSum(C1[p], nb);
    var C', m' := Split(C1, p, nb), DvTags(m, p, nb, C1[p] - nb);
    DvTagsAre(m, p, nb, C1[p] - nb);
    forall q | q in C'
      ensures ChunkTags(m', C', live, q)
    {
      if q != p && q != p + nb {
        ChunkFacts(C, base, top, q);
        TagsAt(m, C, live, base, top, topsize, 0, q);
        Disjoint(C, base, top, q, p);
        Disjoint(C, base, top, q, n);
      }
    }
    TagsAre(m', C', live, base, top, topsize, 0);
  }

  /** `set_inuse(p, nb)` and a new head for the top behind it. */
  lemma ExtendedIntoTop(m: TagMem, C: Chunks, live: set<int>, base: int, top: int, topsize: nat, p: int, nb: nat)
    requires Layout(C, base, top) && TagsOk(m, C, live, base, top, topsize, 0) && p in live && p in C
    requires p + C[p] == top && Aligned(nb) && MIN_CHUNK_SIZE <= nb < C[p] + topsize
    ensures var m' := SetTop(SetInuse(m, p, nb), p + nb, C[p] + topsize - nb);
            Layout(C[p := nb], base, p + nb) && TagsOk(m', C[p := nb], live, base, p + nb, C[p] + topsize - nb, 0)
  {
    hide Size, Cinuse, Pinuse, PrevFoot, Layout, SetHead, SetInuse, TagsOk;
    LayoutDropLast(C, base, top, p);
    LayoutGrow(C - {p}, base, p, nb);
    assert (C - {p})[p := nb] == C[p := nb];
    RowFacts(C, base, top);
    TagsParts(m, C, live, base, top, topsize, 0);
    ChunkFacts(C, base, top, p);
    TagsAt(m, C, live, base, top, topsize, 0, p);
    var ts := C[p] + topsize - nb;
    AlignedSum(C[p], topsize);
    AlignedSum(C[p] + topsize, nb);
    var C', m1 := C[p := nb], SetInuse(m, p, nb);
    var m' := SetTop(m1, p + nb, ts);
    SetInuseIs(m, p, nb);
    SetHeadIs(m1, p + nb, ts, false, true);
    forall q | q in C'
      ensures ChunkTags(m', C', live, q)
    {
      if q != p {
        ChunkFacts(C, base, top, q);
        TagsAt(m, C, live, base, top, topsize, 0, q);
        Disjoint(C, base, top, q, p);
      }
    }
    TagsAre(m', C', live, base, p + nb, ts, 0);
  }
}
