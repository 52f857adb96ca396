/** The steps of resizing in place: what the two or three tag writes of each case do to the invariant,
    the row of chunks and the payloads. */
module MallocResize {
  import opened MallocSizes
  import opened MallocTags
  import opened MallocLayout
  import opened MallocTagSteps
  import opened MallocHeapInv
  import opened MallocHeapFacts
  import opened MallocPayload

  /** The row `C'` differs from `C` in `p` only, as far as chunks in use are concerned. */
  ghost predicate RowKept(C: Chunks, C': Chunks, live: set<int>, p: int) {
    forall q :: q in live && q != p ==> q in C && q in C' && C'[q] == C[q]
  }

  /** A chunk in use is cut in two chunks in use, in either order of the writes. */
  lemma SplitStep(i: Image, m': TagMem, h: HeapMem, C: Chunks, live: set<int>, S: Chunks, T: Chunks, p: int, nb: nat)
    requires p in C && p in live && HeapOk(h, C, live, S, T) && i.tags == h.tags
    requires Aligned(nb) && MIN_CHUNK_SIZE <= nb && nb + MIN_CHUNK_SIZE <= C[p]
    requires || m' == SetInuse(SetInuse(h.tags, p, nb), p + nb, C[p] - nb)
             || m' == SetInuse(SetInuse(h.tags, p + nb, C[p] - nb), p, nb)
    ensures p + nb !in C && HeapOk(h.(tags := m'), Split(C, p, nb), live + {p + nb}, S, T)
    ensures p in Split(C, p, nb) && Split(C, p, nb)[p] == nb && p + nb in Split(C, p, nb)
    ensures Split(C, p, nb)[p + nb] == C[p] - nb
    ensures RowKept(C, Split(C, p, nb), live, p) && p + nb !in live
    ensures Kept(i, i.(tags := m'), C, Split(C, p, nb), live)
  {
    hide HeapOk, SetInuse, Split, Aligned, Kept, TagsOnly, TwoLive, Size, Cinuse, Pinuse;
    var rs, C' := C[p] - nb, Split(C, p, nb);
    HeapLive(h, C, live, S, T);
    HeapChunk(h, C, live, S, T, p);
    RestAligned(nb, C[p]);
    TwoLiveIs(h.tags, p, nb, rs);
    ResizeSplit(h, m', C, live, S, T, p, nb);
    SplitSizes(C, p, nb);
    TwoInuseWrites(h.tags, p, nb, p + nb, rs);
    TwoInuseWrites(h.tags, p + nb, rs, p, nb);
    var H := {p, p + nb} + {p + nb, p + nb + rs};
    assert {p + nb, p + nb + rs} + {p, p + nb} == H;
    HeapTags(i, i.(tags := m'), h, C, C', live, S, T, live - {p}, p, H, {});
    OwnKept(i, i.(tags := m'), C, C', live, p, H, {});
  }

  /** A chunk in use takes the leading part of the unbinned free chunk behind it; the rest is in use. */
  lemma FreeStep(i: Image, m': TagMem, h: HeapMem, C: Chunks, live: set<int>, S0: Chunks, T0: Chunks, S: Chunks,
                 T: Chunks,
                 p: int, n: int, nb: nat)
    requires n in C && n !in live && n != h.dv && p in C && p in live && p + C[p] == n
    requires HeapOk(h, C, live, S0, T0) && Unbinned(h, C, live, S, T, n) && i.tags == h.tags
    requires Aligned(nb) && C[p] < nb && nb + MIN_CHUNK_SIZE <= C[p] + C[n]
    requires m' == SetInuse(SetInuse(h.tags, p, nb), p + nb, C[p] + C[n] - nb)
    ensures var C' := Split(Merged(C, p), p, nb);
            && HeapOk(h.(tags := m'), C', live + {p + nb}, S, T)
            && p in C' && C'[p] == nb && p + nb in C' && C'[p + nb] == C[p] + C[n] - nb
            && RowKept(C, C', live, p) && p + nb !in live
            && Kept(i, i.(tags := m'), C, C', live)
  {
    hide HeapOk, Unbinned, SetInuse, Split, Merged, Aligned, Kept, TagsOnly, TwoLive, Size, Cinuse, Pinuse;
    var rs, C' := C[p] + C[n] - nb, Split(Merged(C, p), p, nb);
    HeapLive(h, C, live, S0, T0);
    HeapChunk(h, C, live, S0, T0, p);
    HeapChunk(h, C, live, S0, T0, n);
    RestAligned2(nb, C[p], C[n]);
    TwoLiveIs(h.tags, p, nb, rs);
    ResizeIntoFree(h, m', C, live, S, T, p, n, nb);
    MergedSplit(C, p, nb);
    NoChunkAt(h, C, live, S0, T0, p, nb);
    TwoInuseWrites(h.tags, p, nb, p + nb, rs);
    HeapTags(i, i.(tags := m'), h, C, C', live, S0, T0, live, n, {p, p + nb} + {p + nb, p + nb + rs}, {});
  }

  /** A chunk in use takes a whole free chunk behind it. */
  lemma WholeKept(i: Image, h: HeapMem, C: Chunks, live: set<int>, S: Chunks, T: Chunks, p: int, n: int, s: nat)
    requires n in C && n !in live && p in C && p in live && p + C[p] == n && s == C[p] + C[n]
    requires HeapOk(h, C, live, S, T) && i.tags == h.tags
    ensures p in Merged(C, p) && Merged(C, p)[p] == s && RowKept(C, Merged(C, p), live, p)
    ensures Kept(i, i.(tags := SetInuse(h.tags, p, s)), C, Merged(C, p), live)
  {
    hide HeapOk, SetInuse, Merged, Kept, TagsOnly, Size, Cinuse, Pinuse;
    HeapLive(h, C, live, S, T);
    HeapChunk(h, C, live, S, T, p);
    HeapChunk(h, C, live, S, T, n);
    MergedSize(C, p, n);
    InuseWrites(h.tags, p, s);
    HeapTags(i, i.(tags := SetInuse(h.tags, p, s)), h, C, Merged(C, p), live, S, T, live, n, {p, p + s}, {});
  }

  /** A chunk in use takes the leading part of the designated victim. */
  lemma VictimStep(i: Image, h: HeapMem, C: Chunks, live: set<int>, S: Chunks, T: Chunks, p: int, nb: nat)
    requires p in C && p in live && HeapOk(h, C, live, S, T) && p + C[p] == h.dv && h.dv in C && i.tags == h.tags
    requires Aligned(nb) && C[p] < nb && nb + MIN_CHUNK_SIZE <= C[p] + h.dvsize
    ensures var rs, C' := C[p] + h.dvsize - nb, Split(Merged(C, p), p, nb);
            && HeapOk(h.(tags := DvTags(h.tags, p, nb, rs), dv := p + nb, dvsize := rs), C', live, S, T)
            && p in C' && C'[p] == nb && RowKept(C, C', live, p)
            && Kept(i, i.(tags := DvTags(h.tags, p, nb, rs)), C, C', live)
  {
    hide HeapOk, SetInuse, SetSizeOfFree, SetPinuse, Split, Merged, Aligned, Kept, TagsOnly, Size, Cinuse, Pinuse;
    var n, rs, C' := h.dv, C[p] + h.dvsize - nb, Split(Merged(C, p), p, nb);
    HeapLive(h, C, live, S, T);
    HeapChunk(h, C, live, S, T, p);
    HeapChunk(h, C, live, S, T, n);
    ResizeIntoVictim(h, C, live, S, T, p, nb);
    MergedSplit(C, p, nb);
    NoChunkAt(h, C, live, S, T, p, nb);
    VictimWrites(h.tags, p, nb, rs);
    HeapTags(i, i.(tags := DvTags(h.tags, p, nb, rs)), h, C, C', live, S, T, live, n, {p, p + nb, p + nb + rs},
             {p + nb + rs});
  }

  /** A chunk in use takes the leading part of the top. */
  lemma TopStep(i: Image, h: HeapMem, C: Chunks, live: set<int>, S: Chunks, T: Chunks, p: int, nb: nat)
    requires p in C && p in live && HeapOk(h, C, live, S, T) && p + C[p] == h.top && i.tags == h.tags
    requires Aligned(nb) && C[p] < nb < C[p] + h.topsize
    ensures var ts := C[p] + h.topsize - nb;
            && HeapOk(h.(tags := SetTop(SetInuse(h.tags, p, nb), p + nb, ts), top := p + nb, topsize := ts),
                      C[p := nb], live, S, T)
            && Kept(i, i.(tags := SetTop(SetInuse(h.tags, p, nb), p + nb, ts)), C, C[p := nb], live)
            && RowKept(C, C[p := nb], live, p)
  {
    hide HeapOk, SetInuse, SetHead, Aligned, Kept, TagsOnly, Size, Cinuse, Pinuse;
    var ts := C[p] + h.topsize - nb;
    HeapLive(h, C, live, S, T);
    HeapChunk(h, C, live, S, T, p);
    TopNotLive(h, C, live, S, T);
    ResizeIntoTop(h, C, live, S, T, p, nb);
    var m1 := SetInuse(h.tags, p, nb);
    InuseWrites(h.tags, p, nb);
    TopWrites(m1, p + nb, ts);
    Writes(h.tags, m1, SetTop(m1, p + nb, ts), {p, p + nb}, {}, {p + nb}, {});
    HeapTags(i, i.(tags := SetTop(m1, p + nb, ts)), h, C, C[p := nb], live, S, T, live, h.top, {p, p + nb} + {p + nb},
             {} + {});
  }
}
