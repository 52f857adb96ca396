/** The heap as a row of chunks: the boundary-tag invariant and the ways chunks are split and joined. */
module MallocLayout {
  import opened MallocSizes
  import opened MallocTags

  type Chunks = map<int, nat>

  predicate Aligned(x: int) {
    x % 8 == 0
  }

  lemma AlignedSum(a: int, b: int)
    requires Aligned(a) && Aligned(b)
    ensures Aligned(a + b) && Aligned(a - b)
  {
  }

  // ---- the row ----

  ghost predicate ChunkOk(C: Chunks, base: int, top: int, p: int)
    requires p in C
  {
    && base <= p < top && Aligned(p) && Aligned(C[p]) && MIN_CHUNK_SIZE <= C[p]
    && (p + C[p] in C || p + C[p] == top)
  }

  /** `C` maps the start of every chunk below `top` to its size: from `base` on, each chunk begins
      where the one before it ends, up to `top`. */
  ghost predicate Layout(C: Chunks, base: int, top: int) {
    && 0 < base <= top && Aligned(base) && Aligned(top)
    && (base in C || base == top)
    && (forall p :: p in C ==> ChunkOk(C, base, top, p))
    && (forall p, q :: p in C && q in C && p < q ==> p + C[p] <= q)
  }

  lemma ChunkFacts(C: Chunks, base: int, top: int, p: int)
    requires Layout(C, base, top) && p in C
    ensures 0 < base <= p < top && Aligned(p) && Aligned(C[p]) && MIN_CHUNK_SIZE <= C[p] && p + C[p] <= top
    ensures p + C[p] in C || p + C[p] == top
  {
    hide Aligned;
    assert ChunkOk(C, base, top, p);
    assert p + C[p] in C ==> ChunkOk(C, base, top, p + C[p]);
  }

  lemma RowFacts(C: Chunks, base: int, top: int)
    requires Layout(C, base, top)
    ensures 0 < base <= top && Aligned(base) && Aligned(top) && top !in C
    ensures base in C || base == top
  {
    hide Aligned;
    assert top in C ==> ChunkOk(C, base, top, top);
  }

  /** Two different chunks never overlap. */
  lemma Disjoint(C: Chunks, base: int, top: int, p: int, q: int)
    requires Layout(C, base, top) && p in C && q in C && p != q
    ensures p + C[p] <= q || q + C[q] <= p
    ensures p + C[p] != q + C[q] && C[p] >= MIN_CHUNK_SIZE && C[q] >= MIN_CHUNK_SIZE
  {
    hide Aligned;
    assert ChunkOk(C, base, top, p) && ChunkOk(C, base, top, q);
  }

  lemma {:induction false} LastBefore(s: set<int>, p: int, k: int) returns (q: int)
    requires k in s && k < p
    ensures q in s && q < p && forall j :: j in s && j < p ==> j <= q
    decreases s
  {
    if j :| j in s && k < j < p {
      q := LastBefore(s - {k}, p, j);
      assert j in s - {k};
      assert forall i :: i in s && i < p ==> i == k || i in s - {k};
    } else {
      q := k;
    }
  }

  /** Every chunk but the first, and the top, is preceded by a chunk. */
  lemma Predecessor(C: Chunks, base: int, top: int, p: int) returns (q: int)
    requires Layout(C, base, top) && (p in C || p == top) && p != base
    ensures q in C && q + C[q] == p
  {
    hide Layout, Aligned;
    RowFacts(C, base, top);
    if p in C {
      ChunkFacts(C, base, top, p);
    }
    q := LastBefore(C.Keys, p, base);
    ChunkFacts(C, base, top, q);
    if p in C {
      Disjoint(C, base, top, p, q);
    }
    assert q + C[q] in C ==> q + C[q] in C.Keys;
  }

  lemma RowIs(C: Chunks, base: int, top: int)
    requires 0 < base <= top && Aligned(base) && Aligned(top) && (base in C || base == top)
    requires forall p :: p in C ==> ChunkOk(C, base, top, p)
    requires forall p, q :: p in C && q in C && p < q ==> p + C[p] <= q
    ensures Layout(C, base, top)
  {
  }

  // ---- joining two neighbours ----

  ghost function Merged(C: Chunks, p: int): Chunks {
    if p in C && p + C[p] in C then (C - {p + C[p]})[p := C[p] + C[p + C[p]]] else C
  }

  lemma MergedChunk(C: Chunks, base: int, top: int, p: int, q: int)
    requires Layout(C, base, top) && p in C && p + C[p] in C && q in C && q != p + C[p]
    ensures ChunkOk(Merged(C, p), base, top, q)
  {
    hide Aligned, Layout;
    ChunkFacts(C, base, top, p);
    ChunkFacts(C, base, top, p + C[p]);
    ChunkFacts(C, base, top, q);
    AlignedSum(C[p], C[p + C[p]]);
    if q != p {
      Disjoint(C, base, top, p, q);
    }
  }

  lemma MergedOrder(C: Chunks, base: int, top: int, p: int, q: int, r: int)
    requires Layout(C, base, top) && p in C && p + C[p] in C
    requires q in C && r in C && q != p + C[p] && r != p + C[p] && q < r
    ensures q + Merged(C, p)[q] <= r
  {
    hide Aligned, Layout;
    Disjoint(C, base, top, q, r);
    Disjoint(C, base, top, p + C[p], r);
  }

  lemma LayoutMerge(C: Chunks, base: int, top: int, p: int)
    requires Layout(C, base, top) && p in C && p + C[p] in C
    ensures Layout(Merged(C, p), base, top)
  {
    hide Aligned, Layout, ChunkOk;
    RowFacts(C, base, top);
    ChunkFacts(C, base, top, p);
    var C' := Merged(C, p);
    forall q | q in C'
      ensures ChunkOk(C', base, top, q)
    {
      MergedChunk(C, base, top, p, q);
    }
    forall q, r | q in C' && r in C' && q < r
      ensures q + C'[q] <= r
    {
      MergedOrder(C, base, top, p, q, r);
    }
    RowIs(C', base, top);
  }

  // ---- splitting a chunk ----

  ghost function Split(C: Chunks, p: int, nb: nat): Chunks {
    if p in C && nb <= C[p] then C[p := nb][p + nb := C[p] - nb] else C
  }

  lemma SplitPointFree(C: Chunks, base: int, top: int, p: int, nb: nat)
    requires Layout(C, base, top) && p in C && 0 < nb < C[p]
    ensures p + nb !in C
  {
    hide Aligned, Layout;
    ChunkFacts(C, base, top, p);
    if p + nb in C {
      Disjoint(C, base, top, p, p + nb);
    }
  }

  lemma SplitChunk(C: Chunks, base: int, top: int, p: int, nb: nat, q: int)
    requires Layout(C, base, top) && p in C && Aligned(nb) && MIN_CHUNK_SIZE <= nb && nb + MIN_CHUNK_SIZE <= C[p]
    requires q in Split(C, p, nb)
    ensures ChunkOk(Split(C, p, nb), base, top, q)
  {
    hide Aligned, Layout;
    ChunkFacts(C, base, top, p);
    SplitPointFree(C, base, top, p, nb);
    AlignedSum(p, nb);
    AlignedSum(C[p], nb);
    if q != p + nb {
      ChunkFacts(C, base, top, q);
    }
  }

  lemma SplitOrder(C: Chunks, base: int, top: int, p: int, nb: nat, q: int, r: int)
    requires Layout(C, base, top) && p in C && MIN_CHUNK_SIZE <= nb && nb + MIN_CHUNK_SIZE <= C[p]
    requires q in Split(C, p, nb) && r in Split(C, p, nb) && q < r
    ensures q + Split(C, p, nb)[q] <= r
  {
    hide Aligned, Layout;
    SplitPointFree(C, base, top, p, nb);
    var q0, r0 := if q == p + nb then p else q, if r == p + nb then p else r;
    if q0 != r0 {
      Disjoint(C, base, top, q0, r0);
    }
  }

  lemma LayoutSplit(C: Chunks, base: int, top: int, p: int, nb: nat)
    requires Layout(C, base, top) && p in C && Aligned(nb) && MIN_CHUNK_SIZE <= nb && nb + MIN_CHUNK_SIZE <= C[p]
    ensures Layout(Split(C, p, nb), base, top)
  {
    hide Aligned, Layout, ChunkOk;
    RowFacts(C, base, top);
    var C' := Split(C, p, nb);
    forall q | q in C'
      ensures ChunkOk(C', base, top, q)
    {
      SplitChunk(C, base, top, p, nb, q);
    }
    forall q, r | q in C' && r in C' && q < r
      ensures q + C'[q] <= r
    {
      SplitOrder(C, base, top, p, nb, q, r);
    }
    RowIs(C', base, top);
  }

  // ---- moving the border between the chunks and the top ----

  /** The last chunk becomes part of the top. */
  lemma LayoutDropLast(C: Chunks, base: int, top: int, p: int)
    requires Layout(C, base, top) && p in C && p + C[p] == top
    ensures Layout(C - {p}, base, p)
  {
    hide Aligned, Layout;
    RowFacts(C, base, top);
    ChunkFacts(C, base, top, p);
    var C' := C - {p};
    forall q | q in C'
      ensures ChunkOk(C', base, p, q)
    {
      ChunkFacts(C, base, top, q);
      Disjoint(C, base, top, p, q);
    }
    forall q, r | q in C' && r in C' && q < r
      ensures q + C'[q] <= r
    {
      Disjoint(C, base, top, q, r);
    }
    RowIs(C', base, p);
  }

  /** A chunk is cut from the low end of the top. */
  lemma LayoutGrow(C: Chunks, base: int, top: int, nb: nat)
    requires Layout(C, base, top) && Aligned(nb) && MIN_CHUNK_SIZE <= nb
    ensures Layout(C[top := nb], base, top + nb)
  {
    hide Aligned, Layout;
    RowFacts(C, base, top);
    AlignedSum(top, nb);
    var C' := C[top := nb];
    forall q | q in C'
      ensures ChunkOk(C', base, top + nb, q)
    {
      if q != top {
        ChunkFacts(C, base, top, q);
      }
    }
    forall q, r | q in C' && r in C' && q < r
      ensures q + C'[q] <= r
    {
      if q == top {
        ChunkFacts(C, base, top, r);
      } else if r == top {
        ChunkFacts(C, base, top, q);
      } else {
        Disjoint(C, base, top, q, r);
      }
    }
    RowIs(C', base, top + nb);
  }

  // ---- the tags along the row ----

  /** The tags around an unexceptional chunk `p`: its own head, and at the chunk behind it the
      pinuse bit and, when `p` is free, the copy of its size. No free chunk is followed by another. */
  ghost predicate ChunkTags(m: TagMem, C: Chunks, live: set<int>, p: int)
    requires p in C
  {
    var n := p + C[p];
    && Size(m, p) == C[p] && (Cinuse(m, p) <==> p in live)
    && (Pinuse(m, n) <==> p in live)
    && (p !in live ==> PrevFoot(m, n) == C[p] && n in live)
  }

  /** The boundary tags agree with the row `C` and the set `live` of chunks in use, and the fake chunk behind
      the top shows a free predecessor. `x`, when not 0, is a chunk in transition: neither in use nor yet
      marked free. */
  ghost predicate TagsOk(m: TagMem, C: Chunks, live: set<int>, base: int, top: int, topsize: nat, x: int) {
    && live <= C.Keys
    && (forall p :: p in C && p != x ==> ChunkTags(m, C, live, p))
    && Pinuse(m, base)
    && Size(m, top) == topsize && !Cinuse(m, top) && Pinuse(m, top) && topsize > 0 && Aligned(topsize)
    && !Pinuse(m, top + topsize)
    && (x != 0 ==> x in C && x !in live && Pinuse(m, x))
  }
}
