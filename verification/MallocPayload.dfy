/** What the allocator may write: never a word inside the payload of a chunk that stays in use. The payload of
    a chunk `p` of size `s` is the memory from `p` + 8 up to `p` + `s` + 4. */
module MallocPayload {
  import opened Arithmetic
  import opened MallocSizes
  import opened MallocTags
  import opened MallocLayout
  import opened MallocHeapInv
  import opened MallocSmallBins
  import opened MallocTrie
  import opened MallocTreeBins

  /** All the words of memory that the allocator writes. */
  datatype Image = Image(tags: TagMem, fd: map<int, int>, bk: map<int, int>, trees: TreeState)

  /** The fields of the chunk structures, which overlap in memory; free chunks of both kinds of bins have links. */
  datatype Field = Head | Foot | Fd | Bk | TreeFd | TreeBk | Child0 | Child1 | Parent | Index

  /** Where a field lies behind the address of its chunk. */
  function Offset(f: Field): nat {
    match f
    case Foot => 0
    case Head => 4
    case Fd => 8
    case TreeFd => 8
    case Bk => 12
    case TreeBk => 12
    case Child0 => 16
    case Child1 => 20
    case Parent => 24
    case Index => 28
  }

  ghost function Load(i: Image, f: Field, a: int): int {
    match f
    case Foot => PrevFoot(i.tags, a)
    case Head => Word(i.tags, a)
    case Fd => Sel(i.fd, a)
    case TreeFd => Sel(i.trees.fd, a)
    case Bk => Sel(i.bk, a)
    case TreeBk => Sel(i.trees.bk, a)
    case Child0 => Child(i.trees.L, a, 0)
    case Child1 => Child(i.trees.L, a, 1)
    case Parent => Sel(i.trees.L.parent, a)
    case Index => Sel(i.trees.index, a)
  }

  /** The field `f` of address `a` is a word of the payload of the chunk `q` of size `s`. */
  ghost predicate InPayload(f: Field, a: int, q: int, s: nat) {
    a % 8 == 0 && q + 8 <= a + Offset(f) < q + s + 4
  }

  /** No word of the payload of the chunk `q` of size `s` has changed, through whichever field it is written. */
  ghost predicate KeptAt(i: Image, i': Image, q: int, s: nat) {
    forall f, a :: InPayload(f, a, q, s) ==> Load(i', f, a) == Load(i, f, a)
  }

  /** The payloads of the chunks `L`, as far as they lie within both the old and the new size. */
  ghost predicate Kept(i: Image, i': Image, C: Chunks, C': Chunks, L: set<int>) {
    forall q :: q in L ==> q in C && q in C' && KeptAt(i, i', q, Min(C[q], C'[q]))
  }

  lemma KeptLess(i: Image, i': Image, q: int, s: nat, t: nat)
    requires KeptAt(i, i', q, s) && t <= s
    ensures KeptAt(i, i', q, t)
  {
    hide Load;
    forall f, a | InPayload(f, a, q, t)
      ensures Load(i', f, a) == Load(i, f, a)
    {
      assert InPayload(f, a, q, s);
    }
  }

  lemma KeptAtTrans(i0: Image, i1: Image, i2: Image, q: int, s: nat)
    requires KeptAt(i0, i1, q, s) && KeptAt(i1, i2, q, s)
    ensures KeptAt(i0, i2, q, s)
  {
    hide Load, InPayload;
  }

  lemma KeptTrans(i0: Image, i1: Image, i2: Image, C0: Chunks, C1: Chunks, C2: Chunks, L: set<int>)
    requires Kept(i0, i1, C0, C1, L) && Kept(i1, i2, C1, C2, L)
    requires forall q :: q in L && q in C0 && q in C1 && q in C2 ==> Min(C0[q], C2[q]) <= C1[q]
    ensures Kept(i0, i2, C0, C2, L)
  {
    hide KeptAt;
    forall q | q in L
      ensures q in C0 && q in C2 && KeptAt(i0, i2, q, Min(C0[q], C2[q]))
    {
      assert KeptAt(i0, i1, q, Min(C0[q], C1[q])) && KeptAt(i1, i2, q, Min(C1[q], C2[q]));
      KeptLess(i0, i1, q, Min(C0[q], C1[q]), Min(C0[q], C2[q]));
      KeptLess(i1, i2, q, Min(C1[q], C2[q]), Min(C0[q], C2[q]));
      KeptAtTrans(i0, i1, i2, q, Min(C0[q], C2[q]));
    }
  }

  lemma KeptRefl(i: Image, C: Chunks, C': Chunks, L: set<int>)
    requires L <= C.Keys && L <= C'.Keys
    ensures Kept(i, i, C, C', L)
  {
  }

  lemma KeptFewer(i: Image, i': Image, C: Chunks, C': Chunks, L: set<int>, K: set<int>)
    requires Kept(i, i', C, C', L) && K <= L
    ensures Kept(i, i', C, C', K)
  {
    hide KeptAt;
  }

  // ---- writing boundary tags ----

  /** Head words are written only at `H`, feet only at `F`. */
  ghost predicate TagsOnly(m: TagMem, m': TagMem, H: set<int>, F: set<int>) {
    (forall a :: a !in H ==> Word(m', a) == Word(m, a)) && (forall a :: a !in F ==> PrevFoot(m', a) == PrevFoot(m, a))
  }

  lemma BasicWrites(m: TagMem, p: int, s: nat, cinuse: bool, pinuse: bool)
    ensures TagsOnly(m, SetHead(m, p, s, cinuse, pinuse), {p}, {})
    ensures TagsOnly(m, SetPinuse(m, p, pinuse), {p}, {})
    ensures TagsOnly(m, SetFoot(m, p, s), {}, {p})
  {
    hide HeadWord, WithPinuse, WithoutPinuse;
  }

  lemma Writes(m0: TagMem, m1: TagMem, m2: TagMem, H0: set<int>, F0: set<int>, H1: set<int>, F1: set<int>)
    requires TagsOnly(m0, m1, H0, F0) && TagsOnly(m1, m2, H1, F1)
    ensures TagsOnly(m0, m2, H0 + H1, F0 + F1)
  {
    hide Word, PrevFoot;
  }

  lemma InuseWrites(m: TagMem, p: int, s: nat)
    ensures TagsOnly(m, SetInuseAndPinuse(m, p, s), {p, p + s}, {})
    ensures TagsOnly(m, SetInuse(m, p, s), {p, p + s}, {})
  {
    hide TagsOnly, SetHead, SetPinuse, Pinuse;
    BasicWrites(m, p, s, true, true);
    BasicWrites(m, p, s, true, Pinuse(m, p));
    var m1, m2 := SetHead(m, p, s, true, true), SetHead(m, p, s, true, Pinuse(m, p));
    BasicWrites(m1, p + s, 0, true, true);
    BasicWrites(m2, p + s, 0, true, true);
    Writes(m, m1, SetPinuse(m1, p + s, true), {p}, {}, {p + s}, {});
    Writes(m, m2, SetPinuse(m2, p + s, true), {p}, {}, {p + s}, {});
    Union(p, p + s);
  }

  lemma Union(a: int, b: int)
    ensures {a} + {b} == {a, b} && {a} + {} == {a} && {} + {b} == {b}
    ensures var e: set<int> := {}; e + e == e
  {
  }

  lemma FreeWrites(m: TagMem, p: int, s: nat, n: int)
    ensures TagsOnly(m, SetSizeOfFree(m, p, s), {p}, {p + s})
    ensures TagsOnly(m, SetFree(m, p, s, n), {n, p}, {p + s})
  {
    hide TagsOnly, SetHead, SetPinuse, SetFoot;
    BasicWrites(m, p, s, false, true);
    BasicWrites(SetHead(m, p, s, false, true), p + s, s, false, true);
    Writes(m, SetHead(m, p, s, false, true), SetSizeOfFree(m, p, s), {p}, {}, {}, {p + s});
    var m1 := SetPinuse(m, n, false);
    BasicWrites(m, n, s, false, false);
    BasicWrites(m1, p, s, false, true);
    BasicWrites(SetHead(m1, p, s, false, true), p + s, s, false, true);
    Writes(m1, SetHead(m1, p, s, false, true), SetSizeOfFree(m1, p, s), {p}, {}, {}, {p + s});
    Union(p, p + s);
    Union(n, p);
    Writes(m, m1, SetFree(m, p, s, n), {n}, {}, {p}, {p + s});
  }

  lemma TopWrites(m: TagMem, p: int, s: nat)
    ensures TagsOnly(m, SetTop(m, p, s), {p}, {})
    ensures TagsOnly(m, InitTopTags(m, p, s), {p, p + s}, {})
  {
    hide TagsOnly, SetHead;
    BasicWrites(m, p, s, false, true);
    var m1 := SetTop(m, p, s);
    BasicWrites(m1, p + s, TOP_FOOT_SIZE, false, false);
    Writes(m, m1, InitTopTags(m, p, s), {p}, {}, {p + s}, {});
    Union(p, p + s);
  }

  lemma TagsOnlyMore(m: TagMem, m': TagMem, H: set<int>, F: set<int>, H': set<int>, F': set<int>)
    requires TagsOnly(m, m', H, F) && H <= H' && F <= F'
    ensures TagsOnly(m, m', H', F')
  {
  }

  /** Heads at borders of chunks, and heads and feet inside or at the end of a chunk `x` that is not
      (or no longer) in use, lie outside every payload in use. */
  lemma TagsKeptAt(i: Image, i': Image, C: Chunks, base: int, top: int, x: int, H: set<int>, F: set<int>, q: int)
    requires Layout(C, base, top) && q in C && x != q
    requires i' == i.(tags := i'.tags) && TagsOnly(i.tags, i'.tags, H, F)
    requires forall a :: a in H ==> a in C || top <= a || (x in C && x <= a < x + C[x])
    requires forall a :: a in F ==> x in C && x < a <= x + C[x]
    ensures KeptAt(i, i', q, C[q])
  {
    hide Layout, Word, PrevFoot, Child, Sel;
    ChunkFacts(C, base, top, q);
    forall f, a | InPayload(f, a, q, C[q])
      ensures Load(i', f, a) == Load(i, f, a)
    {
      if f == Head && a in H {
        if a in C {
          Disjoint(C, base, top, q, a);
        } else if x in C {
          Disjoint(C, base, top, q, x);
        }
      } else if f == Foot && a in F {
        Disjoint(C, base, top, q, x);
      }
    }
  }

  lemma TagsKept(i: Image, i': Image, C: Chunks, C': Chunks, base: int, top: int, L: set<int>, x: int, H: set<int>,
                 F: set<int>)
    requires Layout(C, base, top) && L <= C.Keys && L <= C'.Keys && x !in L
    requires i' == i.(tags := i'.tags) && TagsOnly(i.tags, i'.tags, H, F)
    requires forall a :: a in H ==> a in C || top <= a || (x in C && x <= a < x + C[x])
    requires forall a :: a in F ==> x in C && x < a <= x + C[x]
    ensures Kept(i, i', C, C', L)
  {
    hide Layout, TagsOnly, KeptAt;
    forall q | q in L
      ensures q in C && q in C' && KeptAt(i, i', q, Min(C[q], C'[q]))
    {
      TagsKeptAt(i, i', C, base, top, x, H, F, q);
      KeptLess(i, i', q, C[q], Min(C[q], C'[q]));
    }
  }

  // ---- writing link fields ----

  /** Only list links of the chunks `A` (and of the bin headers) and tree fields of the chunks `B` are written. */
  ghost predicate LinksOnly(i: Image, i': Image, A: set<int>, B: set<int>) {
    i'.tags == i.tags && LinksOf(i.fd, i.bk, i'.fd, i'.bk, A) && Spares(i.trees, i'.trees, B)
  }

  /** The fields of a tree chunk reach 32 bytes, and tree chunks have at least 256. */
  lemma LinksKeptAt(i: Image, i': Image, C: Chunks, base: int, top: int, A: set<int>, B: set<int>, q: int)
    requires Layout(C, base, top) && q in C && q !in A && q !in B
    requires LinksOnly(i, i', A, B) && A <= C.Keys && B <= C.Keys && forall c :: c in B ==> MIN_LARGE_SIZE <= C[c]
    ensures KeptAt(i, i', q, C[q])
  {
    hide Layout, Word, PrevFoot, Child, Sel;
    ChunkFacts(C, base, top, q);
    forall f, a | InPayload(f, a, q, C[q])
      ensures Load(i', f, a) == Load(i, f, a)
    {
      if f == Fd || f == Bk {
        if a in A {
          Disjoint(C, base, top, q, a);
        }
        assert SameLink(i.fd, i.bk, i'.fd, i'.bk, a);
      } else if f != Head && f != Foot {
        if a in B {
          Disjoint(C, base, top, q, a);
        }
        assert SameAt(i.trees, i'.trees, a);
      }
    }
  }

  lemma LinksKept(i: Image, i': Image, C: Chunks, C': Chunks, base: int, top: int, L: set<int>, A: set<int>,
                  B: set<int>)
    requires Layout(C, base, top) && L <= C.Keys && L <= C'.Keys && A !! L && B !! L
    requires LinksOnly(i, i', A, B) && A <= C.Keys && B <= C.Keys && forall c :: c in B ==> MIN_LARGE_SIZE <= C[c]
    ensures Kept(i, i', C, C', L)
  {
    hide Layout, LinksOnly, KeptAt;
    forall q | q in L
      ensures q in C && q in C' && KeptAt(i, i', q, Min(C[q], C'[q]))
    {
      LinksKeptAt(i, i', C, base, top, A, B, q);
      KeptLess(i, i', q, C[q], Min(C[q], C'[q]));
    }
  }

  /** The chunks in the bins are free, and those in the tree bins are large. */
  lemma BinsAreFree(h: HeapMem, C: Chunks, live: set<int>, S: Chunks, T: Chunks, tx: int, bx: int)
    requires Parts(h, C, live, S, T, tx, bx)
    ensures Layout(C, h.base, h.top) && live <= C.Keys && S.Keys <= C.Keys && T.Keys <= C.Keys
    ensures S.Keys !! live && T.Keys !! live && forall c :: c in T ==> MIN_LARGE_SIZE <= C[c]
  {
    hide Layout, TagsOk;
    NoZero(h, C, live, S, T, tx, bx);
    forall c | c in S.Keys + T.Keys
      ensures c in C && c !in live && (c in T ==> MIN_LARGE_SIZE <= C[c])
    {
      FreeAt(C, live, bx, c);
    }
  }

  lemma SmallLinks(i: Image, i': Image, A: set<int>, B: set<int>)
    requires i' == i.(fd := i'.fd, bk := i'.bk) && LinksOf(i.fd, i.bk, i'.fd, i'.bk, A)
    ensures LinksOnly(i, i', A, B)
  {
    hide Sel, Child, LinksOf;
  }

  lemma TreeLinks(i: Image, i': Image, A: set<int>, B: set<int>)
    requires i' == i.(trees := i'.trees) && Spares(i.trees, i'.trees, B)
    ensures LinksOnly(i, i', A, B)
  {
    hide Sel, Spares;
  }

  // ---- whole steps ----

  /** One or two writes of tags; `x` is a chunk that is not in use afterwards or has not been before. */
  lemma StepTags(i: Image, i': Image, h: HeapMem, C: Chunks, C': Chunks, live: set<int>, S: Chunks, T: Chunks,
                 tx: int, bx: int,
                 L: set<int>, x: int, H: set<int>, F: set<int>)
    requires Parts(h, C, live, S, T, tx, bx) && L <= live && L <= C'.Keys && x !in L
    requires i' == i.(tags := i'.tags) && TagsOnly(i.tags, i'.tags, H, F)
    requires forall a :: a in H ==> a in C || h.top <= a || (x in C && x <= a < x + C[x])
    requires forall a :: a in F ==> x in C && x < a <= x + C[x]
    ensures Kept(i, i', C, C', L)
  {
    hide Layout, TagsOk, Kept, TagsOnly;
    BinsAreFree(h, C, live, S, T, tx, bx);
    TagsKept(i, i', C, C', h.base, h.top, L, x, H, F);
  }

  /** One bin operation, on the chunks that are in the bins before or after it. */
  lemma StepLinks(i: Image, i': Image, h: HeapMem, C: Chunks, C': Chunks, live: set<int>, S: Chunks, T: Chunks,
                  tx: int, bx: int,
                  L: set<int>)
    requires Parts(h, C, live, S, T, tx, bx) && L <= live && L <= C'.Keys
    requires LinksOnly(i, i', S.Keys, T.Keys)
    ensures Kept(i, i', C, C', L)
  {
    hide Layout, TagsOk, Kept, LinksOnly;
    BinsAreFree(h, C, live, S, T, tx, bx);
    LinksKept(i, i', C, C', h.base, h.top, L, S.Keys, T.Keys);
  }

  lemma OneMore(i: Image, i': Image, C: Chunks, C': Chunks, L: set<int>, p: int)
    requires Kept(i, i', C, C', L - {p}) && p in C && p in C' && KeptAt(i, i', p, Min(C[p], C'[p]))
    ensures Kept(i, i', C, C', L)
  {
    hide KeptAt;
  }

  /** The chunk that is resized itself: what is written lies outside its first `s` bytes. */
  lemma OwnKept(i: Image, i': Image, C: Chunks, C': Chunks, L: set<int>, p: int, H: set<int>, F: set<int>)
    requires Kept(i, i', C, C', L - {p}) && p in C && p in C'
    requires i' == i.(tags := i'.tags) && TagsOnly(i.tags, i'.tags, H, F)
    requires forall a :: a in H ==> a <= p || p + Min(C[p], C'[p]) <= a
    requires F == {}
    ensures Kept(i, i', C, C', L)
  {
    assert forall q :: q in L ==> q == p || q in L - {p};
    hide Word, PrevFoot, Child, Sel, Kept;
    assert KeptAt(i, i', p, Min(C[p], C'[p]));
    OneMore(i, i', C, C', L, p);
  }

  lemma LinksOfRefl(fd: map<int, int>, bk: map<int, int>, A: set<int>)
    ensures LinksOf(fd, bk, fd, bk, A)
  {
  }

  lemma HeapTags(i: Image, i': Image, h: HeapMem, C: Chunks, C': Chunks, live: set<int>, S: Chunks, T: Chunks,
                 L: set<int>, x: int, H: set<int>, F: set<int>)
    requires HeapOk(h, C, live, S, T) && L <= live && L <= C'.Keys && x !in L
    requires i' == i.(tags := i'.tags) && TagsOnly(i.tags, i'.tags, H, F)
    requires forall a :: a in H ==> a in C || h.top <= a || (x in C && x <= a < x + C[x])
    requires forall a :: a in F ==> x in C && x < a <= x + C[x]
    ensures Kept(i, i', C, C', L)
  {
    hide Parts, Kept, TagsOnly;
    StepTags(i, i', h, C, C', live, S, T, 0, 0, L, x, H, F);
  }

  lemma LimboTags(i: Image, i': Image, h: HeapMem, C: Chunks, C': Chunks, live: set<int>, S: Chunks, T: Chunks,
                  b: int, x: int, H: set<int>, F: set<int>)
    requires Limbo(h, C, live, S, T, b) && live <= C'.Keys && x !in live
    requires i' == i.(tags := i'.tags) && TagsOnly(i.tags, i'.tags, H, F)
    requires forall a :: a in H ==> a in C || h.top <= a || (x in C && x <= a < x + C[x])
    requires forall a :: a in F ==> x in C && x < a <= x + C[x]
    ensures Kept(i, i', C, C', live)
  {
    hide Parts, Kept, TagsOnly;
    StepTags(i, i', h, C, C', live, S, T, b, b, live, x, H, F);
  }

  lemma HeapLinks(i: Image, i': Image, h: HeapMem, C: Chunks, live: set<int>, S: Chunks, T: Chunks)
    requires HeapOk(h, C, live, S, T) && LinksOnly(i, i', S.Keys, T.Keys)
    ensures Kept(i, i', C, C, live)
  {
    hide Layout, TagsOk, Kept, LinksOnly;
    BinsAreFree(h, C, live, S, T, 0, 0);
    StepLinks(i, i', h, C, C, live, S, T, 0, 0, live);
  }

  lemma UnlinkKept(i: Image, i': Image, h: HeapMem, C: Chunks, C': Chunks, live: set<int>, S: Chunks, T: Chunks,
                   L: set<int>)
    requires HeapOk(h, C, live, S, T) && LinksOnly(i, i', S.Keys, T.Keys) && L <= live && L <= C'.Keys
    ensures Kept(i, i', C, C', L)
  {
    hide Parts, Kept, LinksOnly;
    StepLinks(i, i', h, C, C', live, S, T, 0, 0, L);
  }

  lemma LimboLinks(i: Image, i': Image, h: HeapMem, C: Chunks, live: set<int>, S: Chunks, T: Chunks, b: int)
    requires Limbo(h, C, live, S, T, b) && LinksOnly(i, i', S.Keys, T.Keys)
    ensures Kept(i, i', C, C, live)
  {
    hide Layout, TagsOk, Kept, LinksOnly;
    BinsAreFree(h, C, live, S, T, b, b);
    StepLinks(i, i', h, C, C, live, S, T, b, b, live);
  }

  /** A whole free chunk is handed out. */
  lemma TakenKept(i0: Image, i1: Image, i2: Image, h: HeapMem, C: Chunks, C': Chunks, live: set<int>, S: Chunks,
                  T: Chunks, p: int, s: nat)
    requires HeapOk(h, C, live, S, T) && Kept(i0, i1, C, C, live) && p in C && p !in live && s == C[p] && C' == C
    requires i2 == i1.(tags := SetInuseAndPinuse(i1.tags, p, s))
    ensures Kept(i0, i2, C, C', live)
  {
    hide Layout, TagsOk, Kept, TagsOnly, SetInuseAndPinuse;
    InuseWrites(i1.tags, p, s);
    BinsAreFree(h, C, live, S, T, 0, 0);
    ChunkFacts(C, h.base, h.top, p);
    HeapTags(i1, i2, h, C, C, live, S, T, live, p, {p, p + s}, {});
    KeptTrans(i0, i1, i2, C, C, C, live);
  }

  /** The leading part of a free chunk is handed out, in either order of the two writes. */
  lemma PartKept(i0: Image, i1: Image, i2: Image, h: HeapMem, C: Chunks, C': Chunks, live: set<int>, S: Chunks,
                 T: Chunks, p: int, nb: nat)
    requires HeapOk(h, C, live, S, T) && Kept(i0, i1, C, C, live) && p in C && p !in live && 0 < nb < C[p]
    requires live <= C'.Keys
    requires forall q :: q in live ==> q in C && q in C' && C'[q] == C[q]
    requires i2 == i1.(tags := SetSizeOfFree(SetSizeOfInuse(i1.tags, p, nb), p + nb, C[p] - nb))
          || i2 == i1.(tags := SetSizeOfInuse(SetSizeOfFree(i1.tags, p + nb, C[p] - nb), p, nb))
    ensures Kept(i0, i2, C, C', live)
  {
    hide Layout, TagsOk, Kept, TagsOnly, SetHead, SetSizeOfFree;
    var r, rs, m := p + nb, C[p] - nb, i1.tags;
    BasicWrites(m, p, nb, true, true);
    FreeWrites(SetSizeOfInuse(m, p, nb), r, rs, 0);
    Writes(m, SetSizeOfInuse(m, p, nb), SetSizeOfFree(SetSizeOfInuse(m, p, nb), r, rs), {p}, {}, {r}, {r + rs});
    FreeWrites(m, r, rs, 0);
    BasicWrites(SetSizeOfFree(m, r, rs), p, nb, true, true);
    Writes(m, SetSizeOfFree(m, r, rs), SetSizeOfInuse(SetSizeOfFree(m, r, rs), p, nb), {r}, {r + rs}, {p}, {});
    Same2(p, r, r + rs);
    HeapTags(i1, i2, h, C, C', live, S, T, live, p, {p} + {r}, {r + rs});
    KeptTrans(i0, i1, i2, C, C, C', live);
  }

  lemma Same2(a: int, b: int, c: int)
    ensures {b} + {a} == {a} + {b} && {} + {c} == {c} && {c} + {} == {c}
  {
  }

  lemma TwoInuseWrites(m: TagMem, p: int, s: nat, q: int, t: nat)
    ensures TagsOnly(m, SetInuse(SetInuse(m, p, s), q, t), {p, p + s} + {q, q + t}, {})
  {
    hide TagsOnly, SetInuse;
    InuseWrites(m, p, s);
    InuseWrites(SetInuse(m, p, s), q, t);
    Writes(m, SetInuse(m, p, s), SetInuse(SetInuse(m, p, s), q, t), {p, p + s}, {}, {q, q + t}, {});
    Union(p, q);
  }

  lemma VictimWrites(m: TagMem, p: int, nb: nat, rs: nat)
    ensures TagsOnly(m, SetPinuse(SetSizeOfFree(SetInuse(m, p, nb), p + nb, rs), p + nb + rs, false),
                     {p, p + nb, p + nb + rs}, {p + nb + rs})
  {
    hide TagsOnly, SetInuse, SetSizeOfFree, SetPinuse;
    var m1, r := SetInuse(m, p, nb), p + nb;
    var m2 := SetSizeOfFree(m1, r, rs);
    InuseWrites(m, p, nb);
    FreeWrites(m1, r, rs, 0);
    Writes(m, m1, m2, {p, r}, {}, {r}, {r + rs});
    BasicWrites(m2, r + rs, 0, true, false);
    Writes(m, m2, SetPinuse(m2, r + rs, false), {p, r} + {r}, {} + {r + rs}, {r + rs}, {});
    TagsOnlyMore(m, SetPinuse(m2, r + rs, false), {p, r} + {r} + {r + rs}, {} + {r + rs} + {}, {p, r, r + rs},
                 {r + rs});
  }
}
