/** What a client may do to the allocator's data by storing into its own block: nothing. A word of the payload is
    also a head, a `prev_foot` and several link fields of addresses around it; none of them is ever relied on. */
module MallocClient {
  import opened Arithmetic
  import opened MallocBitmap
  import opened MallocSizes
  import opened MallocTags
  import opened MallocLayout
  import opened MallocTagSteps
  import opened MallocHeapInv
  import opened MallocHeapFacts
  import opened MallocSmallBins
  import opened MallocTrie
  import opened MallocTreeBins
  import opened MallocPayload

  /** `x` is a word of the payload of the chunk `q` of size `s`. */
  predicate WordOfPayload(x: int, q: int, s: nat) {
    x % 4 == 0 && q + 8 <= x < q + s + 4
  }

  lemma WordInside(q: int, k: nat, n: nat, s: nat)
    requires q % 8 == 0 && k % 4 == 0 && k < n && n + 4 <= s
    ensures WordOfPayload(q + 8 + k, q, s)
  {
    Quarter(q + 8 + k, 2 * (q / 8) + 2 + k / 4);
  }

  lemma Quarter(x: int, m: int)
    requires x == 4 * m
    ensures x % 4 == 0
  {
  }

  // ---- the word at `x`, seen through every field ----

  function StoreTags(m: TagMem, x: int, v: nat): TagMem {
    if x % 8 == 0 then m.(foot := m.foot[x := v]) else m.(head := m.head[x - 4 := v])
  }

  function StoreFd(fd: map<int, int>, x: int, v: nat): map<int, int> {
    if x % 8 == 0 then fd[x - 8 := v] else fd
  }

  function StoreBk(bk: map<int, int>, x: int, v: nat): map<int, int> {
    if x % 8 == 0 then bk else bk[x - 12 := v]
  }

  function StoreTree(t: TreeMem, x: int, v: nat): TreeMem {
    var L := if x % 8 == 0 then t.L.(child0 := t.L.child0[x - 16 := v], parent := t.L.parent[x - 24 := v])
             else t.L.(child1 := t.L.child1[x - 20 := v]);
    t.(L := L, fd := StoreFd(t.fd, x, v), bk := StoreBk(t.bk, x, v),
       index := if x % 8 == 0 then t.index else t.index[x - 28 := v])
  }

  /** Exactly the fields that lie at `x` have changed. */
  ghost predicate Stored(i: Image, i': Image, x: int, v: nat) {
    forall f, a :: Load(i', f, a) == if a % 8 == 0 && a + Offset(f) == x then v else Load(i, f, a)
  }

  /** The state of the tree bins with the same ghost view and other fields. */
  ghost function WithFields(st: TreeState, t: TreeMem): TreeState {
    st.(L := t.L, fd := t.fd, bk := t.bk, index := t.index, treemap := t.treemap)
  }

  /** Memory after the store. */
  ghost function After(i: Image, t: TreeMem, x: int, v: nat): Image {
    Image(StoreTags(i.tags, x, v), StoreFd(i.fd, x, v), StoreBk(i.bk, x, v), WithFields(i.trees, StoreTree(t, x, v)))
  }

  lemma StoredIs(i: Image, t: TreeMem, x: int, v: nat)
    requires x % 4 == 0 && i.trees == WithFields(i.trees, t)
    ensures Stored(i, After(i, t, x, v), x, v)
  {
    hide Load, After;
    forall f, a
      ensures Load(After(i, t, x, v), f, a) == if a % 8 == 0 && a + Offset(f) == x then v else Load(i, f, a)
    {
      StoredAt(i, t, x, v, f, a);
    }
  }

  lemma StoredAt(i: Image, t: TreeMem, x: int, v: nat, f: Field, a: int)
    requires x % 4 == 0 && i.trees == WithFields(i.trees, t)
    ensures Load(After(i, t, x, v), f, a) == if a % 8 == 0 && a + Offset(f) == x then v else Load(i, f, a)
  {
    Places(f, a, x);
  }

  /** Fields at multiples of 8 lie at such addresses, the others in between. */
  lemma Places(f: Field, a: int, x: int)
    ensures a % 8 == 0 && a + Offset(f) == x ==>
              (x % 8 == 0 <==> f == Foot || f == Fd || f == TreeFd || f == Child0 || f == Parent)
    ensures x % 8 == 0 ==> (x - 8) % 8 == 0 && (x - 16) % 8 == 0 && (x - 24) % 8 == 0
    ensures x % 4 == 0 && x % 8 != 0 ==>
              (x - 4) % 8 == 0 && (x - 12) % 8 == 0 && (x - 20) % 8 == 0 && (x - 28) % 8 == 0
  {
    hide Offset;
    BehindAligned(a, Offset(f));
    OffsetParity(f);
    if x % 8 == 0 {
      AlignedBefore(x, 8);
      AlignedBefore(x, 16);
      AlignedBefore(x, 24);
    } else if x % 4 == 0 {
      FourBefore(x);
      AlignedBefore(x - 4, 8);
      AlignedBefore(x - 4, 16);
      AlignedBefore(x - 4, 24);
    }
  }

  lemma OffsetParity(f: Field)
    ensures Offset(f) % 8 == 0 <==> f == Foot || f == Fd || f == TreeFd || f == Child0 || f == Parent
  {
  }

  lemma BehindAligned(a: int, n: int)
    ensures a % 8 == 0 ==> (a + n) % 8 == n % 8
  {
  }

  lemma AlignedBefore(x: int, n: int)
    requires x % 8 == 0 && n % 8 == 0
    ensures (x - n) % 8 == 0
  {
  }

  lemma FourBefore(x: int)
    requires x % 4 == 0 && x % 8 != 0
    ensures (x - 4) % 8 == 0
  {
  }

  // ---- memory word by word ----

  lemma WordStored(i: Image, i': Image, x: int, v: nat, y: int)
    requires Stored(i, i', x, v) && x % 4 == 0 && y % 4 == 0
    ensures WordOf(i'.tags, y) == if y == x then v else WordOf(i.tags, y)
  {
    hide Stored;
    if y % 8 == 0 {
      LoadStored(i, i', x, v, Foot, y);
    } else {
      FourBefore(y);
      LoadStored(i, i', x, v, Head, y - 4);
    }
  }

  lemma LoadStored(i: Image, i': Image, x: int, v: nat, f: Field, a: int)
    requires Stored(i, i', x, v)
    ensures Load(i', f, a) == if a % 8 == 0 && a + Offset(f) == x then v else Load(i, f, a)
  {
    hide Load, Offset;
  }

  /** What is kept is kept word by word. */
  lemma WordKept(i: Image, i': Image, q: int, s: nat, x: int)
    requires KeptAt(i, i', q, s) && WordOfPayload(x, q, s)
    ensures WordOf(i'.tags, x) == WordOf(i.tags, x)
  {
    hide KeptAt;
    if x % 8 == 0 {
      LoadKept(i, i', q, s, Foot, x);
    } else {
      FourBefore(x);
      LoadKept(i, i', q, s, Head, x - 4);
    }
  }

  lemma LoadKept(i: Image, i': Image, q: int, s: nat, f: Field, a: int)
    requires KeptAt(i, i', q, s) && InPayload(f, a, q, s)
    ensures Load(i', f, a) == Load(i, f, a)
  {
    hide Load;
  }

  /** The number that the first `m` bytes of a word can hold, lowest byte first. */
  function Range(m: nat): nat
    requires m < 4
  {
    if m == 0 then 1 else if m == 1 then 0x100 else if m == 2 then 0x1_0000 else 0x100_0000
  }

  /** The first `m` bytes of two words agree. */
  predicate SameBytes(v: nat, w: nat, m: nat) {
    if m < 4 then v % Range(m) == w % Range(m) else v == w
  }

  /** The word `v` with its first `m` bytes replaced by those of `w`. */
  function Blend(v: nat, w: nat, m: nat): nat {
    if m < 4 then v / Range(m) * Range(m) + w % Range(m) else w
  }

  lemma BlendIs(v: nat, w: nat, m: nat)
    ensures SameBytes(Blend(v, w, m), w, m)
    ensures m < 4 ==> Blend(v, w, m) / Range(m) == v / Range(m)
  {
    if m == 1 {
      assert (v / 0x100 * 0x100 + w % 0x100) / 0x100 == v / 0x100;
    } else if m == 2 {
      assert (v / 0x1_0000 * 0x1_0000 + w % 0x1_0000) / 0x1_0000 == v / 0x1_0000;
    } else if m == 3 {
      assert (v / 0x100_0000 * 0x100_0000 + w % 0x100_0000) / 0x100_0000 == v / 0x100_0000;
    }
  }

  /** The `j`-th word of the memory at `base` */
  function Nth(m: TagMem, base: int, j: nat): nat {
    WordOf(m, base + 4 * j)
  }

  /** The first `n` bytes at `dst` are now those that were at `src`. */
  ghost predicate Copied(m: TagMem, m': TagMem, src: int, dst: int, n: int) {
    forall j: nat :: 4 * j < n ==> SameBytes(Nth(m', dst, j), Nth(m, src, j), n - 4 * j)
  }

  lemma NothingCopied(m: TagMem, src: int, dst: int)
    ensures Copied(m, m, src, dst, 0)
  {
  }

  lemma NthStored(i: Image, i': Image, base: int, k: nat, v: nat, j: nat)
    requires Stored(i, i', base + 4 * k, v) && base % 4 == 0
    ensures Nth(i'.tags, base, j) == if j == k then v else Nth(i.tags, base, j)
  {
    hide Stored, WordOf;
    FourMore(base, k);
    FourMore(base, j);
    WordStored(i, i', base + 4 * k, v, base + 4 * j);
  }

  lemma FourMore(base: int, k: nat)
    requires base % 4 == 0
    ensures (base + 4 * k) % 4 == 0
  {
    Quarter(base + 4 * k, base / 4 + k);
  }

  lemma NthKept(i: Image, i': Image, C: Chunks, C': Chunks, L: set<int>, q: int, j: nat)
    requires Kept(i, i', C, C', L) && q in L && q in C && q in C' && q % 8 == 0
    requires 4 * j + 4 < C[q] && 4 * j + 4 < C'[q]
    ensures Nth(i'.tags, q + 8, j) == Nth(i.tags, q + 8, j)
  {
    hide KeptAt, WordOf;
    WordInside(q, 4 * j, 4 * j + 1, 4 * j + 5);
    WordKept(i, i', q, Min(C[q], C'[q]), q + 8 + 4 * j);
  }

  /** One turn of copying: the word number `k`. */
  lemma CopyStep(i: Image, i1: Image, i2: Image, C: Chunks, L: set<int>, p: int, q: int, k: nat, n: nat)
    requires Kept(i, i1, C, C, L) && p in L && p in C && n + 4 <= C[p] && 4 * k < n && p % 8 == 0 && q % 8 == 0
    requires Copied(i.tags, i1.tags, p + 8, q + 8, 4 * k)
    requires Stored(i1, i2, q + 8 + 4 * k, Blend(Nth(i1.tags, q + 8, k), Nth(i1.tags, p + 8, k), n - 4 * k))
    ensures Copied(i.tags, i2.tags, p + 8, q + 8, Min(4 * (k + 1), n))
  {
    hide Stored, Kept, Nth, Blend, SameBytes;
    var v, w := Nth(i1.tags, q + 8, k), Nth(i1.tags, p + 8, k);
    var m := Min(4 * (k + 1), n);
    NthKept(i, i1, C, C, L, p, k);
    BlendIs(v, w, n - 4 * k);
    FewerBytes(Blend(v, w, n - 4 * k), w, n - 4 * k, m - 4 * k);
    Quarter(q + 8, 2 * (q / 8) + 2);
    forall j: nat | 4 * j < m
      ensures SameBytes(Nth(i2.tags, q + 8, j), Nth(i.tags, p + 8, j), m - 4 * j)
    {
      NthStored(i1, i2, q + 8, k, Blend(v, w, n - 4 * k), j);
      if j != k {
        MoreBytes(Nth(i2.tags, q + 8, j), Nth(i.tags, p + 8, j), 4 * k - 4 * j, m - 4 * j);
      }
    }
  }

  lemma FewerBytes(v: nat, w: nat, m: nat, l: nat)
    requires SameBytes(v, w, m) && (l == m || 4 <= l <= m)
    ensures SameBytes(v, w, l)
  {
  }

  lemma MoreBytes(v: nat, w: nat, m: nat, l: nat)
    requires SameBytes(v, w, m) && 4 <= m
    ensures SameBytes(v, w, l)
  {
  }

  /** A block whose contents are kept holds its first bytes where they were. */
  lemma InPlace(i: Image, i': Image, C: Chunks, C': Chunks, L: set<int>, p: int, n: nat)
    requires Kept(i, i', C, C', L) && p in L && p in C && p in C' && p % 8 == 0 && n + 4 <= C[p] && n + 4 <= C'[p]
    ensures Copied(i.tags, i'.tags, p + 8, p + 8, n)
  {
    hide Kept, Nth;
    forall j: nat | 4 * j < n
      ensures Nth(i'.tags, p + 8, j) == Nth(i.tags, p + 8, j)
    {
      NthKept(i, i', C, C', L, p, j);
    }
  }

  /** Neither what happens before copying to the source nor what happens after it to the copy does any harm. */
  lemma CopyKept(i0: Image, i1: Image, i2: Image, i3: Image, C0: Chunks, C1: Chunks, C3: Chunks,
                 p: int, q: int, n: nat)
    requires Kept(i0, i1, C0, C1, {p}) && Copied(i1.tags, i2.tags, p + 8, q + 8, n) && Kept(i2, i3, C1, C3, {q})
    requires p in C0 && p in C1 && n + 4 <= C0[p] && n + 4 <= C1[p] && p % 8 == 0
    requires q in C1 && q in C3 && n + 4 <= C1[q] && n + 4 <= C3[q] && q % 8 == 0
    ensures Copied(i0.tags, i3.tags, p + 8, q + 8, n)
  {
    hide Kept, Nth, SameBytes;
    forall j: nat | 4 * j < n
      ensures SameBytes(Nth(i3.tags, q + 8, j), Nth(i0.tags, p + 8, j), n - 4 * j)
    {
      NthKept(i0, i1, C0, C1, {p}, p, j);
      NthKept(i2, i3, C1, C3, {q}, q, j);
    }
  }

  // ---- the tags ----

  /** The words that the allocator relies on: the heads of the chunks, of the top and of the fake chunk behind it,
      the feet of free chunks, and the links of binned chunks. */
  ghost predicate Relied(h: HeapMem, C: Chunks, live: set<int>, S: Chunks, T: Chunks, f: Field, a: int) {
    match f
    case Head => a in C || a == h.top || a == h.top + h.topsize
    case Foot => exists p :: p in C && p !in live && p + C[p] == a
    case Fd => a in S
    case Bk => a in S
    case _ => a in T
  }

  /** Tags that nobody relies on may change. */
  lemma TagsRely(m: TagMem, m': TagMem, C: Chunks, live: set<int>, base: int, top: int, topsize: nat)
    requires Layout(C, base, top) && TagsOk(m, C, live, base, top, topsize, 0)
    requires forall a :: a in C || a == top || a == top + topsize ==> Word(m', a) == Word(m, a)
    requires forall p :: p in C && p !in live ==> PrevFoot(m', p + C[p]) == PrevFoot(m, p + C[p])
    ensures TagsOk(m', C, live, base, top, topsize, 0)
  {
    hide Layout, TagsOk, SizeOf, CinuseBit, PinuseBit, Aligned, Word, PrevFoot;
    RowFacts(C, base, top);
    TagsParts(m, C, live, base, top, topsize, 0);
    forall p | p in C
      ensures ChunkTags(m', C, live, p)
    {
      ChunkFacts(C, base, top, p);
      TagsAt(m, C, live, base, top, topsize, 0, p);
    }
    TagsAre(m', C, live, base, top, topsize, 0);
  }

  /** Where a word lies that the allocator relies on: links lie inside their chunk, which is not in use. */
  lemma ReliedPlace(h: HeapMem, C: Chunks, live: set<int>, S: Chunks, T: Chunks, f: Field, a: int)
    requires HeapOk(h, C, live, S, T) && Relied(h, C, live, S, T, f, a)
    ensures a % 8 == 0 && (a in C || h.top <= a)
    ensures f != Head && f != Foot ==> a in C && a !in live && Offset(f) + 4 <= C[a]
    ensures a in S ==> a !in T
  {
    hide HeapOk, Layout;
    HeapRow(h, C, live, S, T);
    BinsApart(h, C, live, S, T, a);
    match f {
      case Head => HeadPlace(h, C, live, S, T, a);
      case Foot =>
        var p :| p in C && p !in live && p + C[p] == a;
        EndOfChunk(C, h.base, h.top, p);
      case _ => EndOfChunk(C, h.base, h.top, a);
    }
  }

  lemma EndOfChunk(C: Chunks, base: int, top: int, p: int)
    requires Layout(C, base, top) && p in C
    ensures p % 8 == 0 && (p + C[p]) % 8 == 0 && MIN_CHUNK_SIZE <= C[p] && (p + C[p] in C || p + C[p] == top)
  {
    hide Layout;
    ChunkFacts(C, base, top, p);
    EightMore(p, C[p]);
  }

  lemma EightMore(p: int, s: int)
    requires p % 8 == 0 && s % 8 == 0
    ensures (p + s) % 8 == 0
  {
    Eighth(p + s, p / 8 + s / 8);
  }

  lemma HeadPlace(h: HeapMem, C: Chunks, live: set<int>, S: Chunks, T: Chunks, a: int)
    requires HeapOk(h, C, live, S, T) && (a in C || a == h.top || a == h.top + h.topsize)
    ensures a % 8 == 0 && (a in C || h.top <= a)
  {
    hide Layout, TagsOk, Binned;
    RowFacts(C, h.base, h.top);
    TagsParts(h.tags, C, live, h.base, h.top, h.topsize, 0);
    if a in C {
      ChunkFacts(C, h.base, h.top, a);
    } else if a != h.top {
      EightMore(h.top, h.topsize);
    }
  }

  lemma BinsApart(h: HeapMem, C: Chunks, live: set<int>, S: Chunks, T: Chunks, a: int)
    requires HeapOk(h, C, live, S, T)
    ensures a in S || a in T ==> a in C && a !in live
    ensures a in T ==> MIN_LARGE_SIZE <= C[a] && a !in S
  {
    hide Layout, TagsOk;
    BinsAreFree(h, C, live, S, T, 0, 0);
  }

  lemma NothingInside(C: Chunks, base: int, top: int, a: int, s: nat, b: int)
    requires Layout(C, base, top) && a in C && s < C[a] && (b in C || top <= b)
    ensures !(a < b <= a + s)
  {
    hide Layout, Aligned;
    ChunkFacts(C, base, top, a);
    if b in C && a != b {
      Disjoint(C, base, top, a, b);
    }
  }

  /** No two words that the allocator relies on lie at the same place. */
  lemma WordsApart(h: HeapMem, C: Chunks, live: set<int>, S: Chunks, T: Chunks, f: Field, a: int, g: Field, b: int)
    requires HeapOk(h, C, live, S, T) && Relied(h, C, live, S, T, f, a) && Relied(h, C, live, S, T, g, b)
    requires a + Offset(f) == b + Offset(g)
    ensures f == g && a == b
  {
    hide HeapOk, Layout;
    ReliedPlace(h, C, live, S, T, f, a);
    ReliedPlace(h, C, live, S, T, g, b);
    HeapRow(h, C, live, S, T);
    if a < b {
      NothingInside(C, h.base, h.top, a, Offset(f), b);
    } else if b < a {
      NothingInside(C, h.base, h.top, b, Offset(g), a);
    }
  }

  /** And none lies in the payload of a chunk in use. */
  lemma PayloadApart(h: HeapMem, C: Chunks, live: set<int>, S: Chunks, T: Chunks, f: Field, a: int, q: int)
    requires HeapOk(h, C, live, S, T) && Relied(h, C, live, S, T, f, a) && q in C && q in live
    ensures !(q + 8 <= a + Offset(f) < q + C[q] + 4)
  {
    hide HeapOk, Layout;
    ReliedPlace(h, C, live, S, T, f, a);
    HeapRow(h, C, live, S, T);
    ChunkFacts(C, h.base, h.top, q);
    if f == Foot {
      var p :| p in C && p !in live && p + C[p] == a;
      Disjoint(C, h.base, h.top, p, q);
    } else if a in C && a != q {
      Disjoint(C, h.base, h.top, a, q);
    }
  }

  /** The allocator's write of one word that it relies on is its write as one field: what the other fields at the
      same place then show is relied on nowhere. */
  lemma OneWrite(i: Image, one: Image, all: Image, h: HeapMem, C: Chunks, live: set<int>, S: Chunks, T: Chunks,
                 f: Field, a: int, v: nat)
    requires HeapOk(h, C, live, S, T) && Relied(h, C, live, S, T, f, a)
    requires forall g, b :: Load(one, g, b) == if g == f && b == a then v else Load(i, g, b)
    requires Stored(i, all, a + Offset(f), v)
    ensures forall g, b :: Relied(h, C, live, S, T, g, b) ==> Load(all, g, b) == Load(one, g, b)
  {
    hide HeapOk, Relied, Load, Stored;
    forall g, b | Relied(h, C, live, S, T, g, b)
      ensures Load(all, g, b) == Load(one, g, b)
    {
      ReliedPlace(h, C, live, S, T, g, b);
      LoadStored(i, all, a + Offset(f), v, g, b);
      if b + Offset(g) == a + Offset(f) {
        WordsApart(h, C, live, S, T, f, a, g, b);
      }
    }
  }

  /** Heads strictly inside chunks in use and feet behind them do not matter. */
  lemma TagsSurvive(h: HeapMem, C: Chunks, live: set<int>, S: Chunks, T: Chunks, q: int, x: int, v: nat)
    requires HeapOk(h, C, live, S, T) && q in C && q in live && WordOfPayload(x, q, C[q])
    ensures TagsOk(StoreTags(h.tags, x, v), C, live, h.base, h.top, h.topsize, 0)
  {
    hide Layout, TagsOk, Binned, Free;
    var m' := StoreTags(h.tags, x, v);
    forall a | Relied(h, C, live, S, T, Head, a)
      ensures Word(m', a) == Word(h.tags, a)
    {
      PayloadApart(h, C, live, S, T, Head, a, q);
    }
    forall p | p in C && p !in live
      ensures PrevFoot(m', p + C[p]) == PrevFoot(h.tags, p + C[p])
    {
      PayloadApart(h, C, live, S, T, Foot, p + C[p], q);
    }
    TagsRely(h.tags, m', C, live, h.base, h.top, h.topsize);
  }

  lemma HeapSurvives(h: HeapMem, C: Chunks, live: set<int>, S: Chunks, T: Chunks, q: int, x: int, v: nat)
    requires HeapOk(h, C, live, S, T) && q in C && q in live && WordOfPayload(x, q, C[q])
    ensures HeapOk(h.(tags := StoreTags(h.tags, x, v)), C, live, S, T)
  {
    hide Layout, TagsOk, Binned, Free, StoreTags;
    TagsSurvive(h, C, live, S, T, q, x, v);
  }

  // ---- the bins ----

  /** No field of a word of a payload in use belongs to a binned chunk. */
  lemma NotBinned(h: HeapMem, C: Chunks, live: set<int>, S: Chunks, T: Chunks, q: int, x: int)
    requires HeapOk(h, C, live, S, T) && q in C && q in live && WordOfPayload(x, q, C[q])
    ensures x % 8 == 0 ==> 0 < x - 8 && x - 8 !in S && x - 8 !in T && x - 16 !in T && x - 24 !in T
    ensures x % 8 != 0 ==> 0 < x - 12 && x - 12 !in S && x - 12 !in T && x - 20 !in T && x - 28 !in T
  {
    hide HeapOk;
    HeapChunk(h, C, live, S, T, q);
    if x % 8 != 0 {
      NotFirst(q, x);
    }
    forall f: Field | Relied(h, C, live, S, T, f, x - Offset(f))
      ensures false
    {
      PayloadApart(h, C, live, S, T, f, x - Offset(f), q);
    }
    assert x - 8 in S ==> Relied(h, C, live, S, T, Fd, x - Offset(Fd));
    assert x - 12 in S ==> Relied(h, C, live, S, T, Bk, x - Offset(Bk));
    assert x - 8 in T ==> Relied(h, C, live, S, T, TreeFd, x - Offset(TreeFd));
    assert x - 12 in T ==> Relied(h, C, live, S, T, TreeBk, x - Offset(TreeBk));
    assert x - 16 in T ==> Relied(h, C, live, S, T, Child0, x - Offset(Child0));
    assert x - 20 in T ==> Relied(h, C, live, S, T, Child1, x - Offset(Child1));
    assert x - 24 in T ==> Relied(h, C, live, S, T, Parent, x - Offset(Parent));
    assert x - 28 in T ==> Relied(h, C, live, S, T, Index, x - Offset(Index));
  }

  lemma NotFirst(q: int, x: int)
    requires Aligned(q) && x % 4 == 0 && x % 8 != 0 && q + 8 <= x
    ensures q + 12 <= x
  {
    var m, j := q / 8, x / 4;
    assert q + 8 == 8 * (m + 1) && x == 4 * j;
    Eighth(q + 8, m + 1);
    assert x != q + 8;
  }

  lemma Eighth(x: int, m: int)
    requires x == 8 * m
    ensures x % 8 == 0
  {
  }

  lemma SmallSurvive(fd: map<int, int>, bk: map<int, int>, fd': map<int, int>, bk': map<int, int>,
                     bins: seq<seq<int>>, chunks: map<int, nat>)
    requires Lists(bins, chunks) && Links(fd, bk, bins)
    requires forall a :: a <= 0 || a in chunks ==> Sel(fd', a) == Sel(fd, a) && Sel(bk', a) == Sel(bk, a)
    ensures Links(fd', bk', bins)
  {
    hide Linked, NoDup, Sel;
    forall i: Idx | bins[i] != []
      ensures Linked(fd', bk', Header(i), bins[i])
    {
      assert Linked(fd, bk, Header(i), bins[i]);
      ListsUnfold(bins, chunks, i);
      LinkedFrame(fd, bk, fd', bk', Header(i), bins[i]);
    }
  }

  /** The tree bins depend on the fields of tree chunks only. */
  lemma TreesSurvive(st: TreeState, st': TreeState)
    requires TreesOk(st) && forall a :: a in st.chunks ==> SameAt(st, st', a)
    requires st'.L.roots == st.L.roots && st'.treemap == st.treemap
    requires st'.chunks == st.chunks && st'.nodes == st.nodes && st'.stamp == st.stamp && st'.clock == st.clock
    ensures TreesOk(st')
  {
    TrieSurvives(st, st');
    hide Shape, TreeIndex, Sel;
    forall c | c in st.chunks
      ensures RingOk(st'.fd, st'.bk, st'.nodes, st'.chunks, st'.stamp, st'.clock, c)
    {
      assert RingOk(st.fd, st.bk, st.nodes, st.chunks, st.stamp, st.clock, c) && SameAt(st, st', c);
      assert SameAt(st, st', Sel(st.fd, c)) && SameAt(st, st', Sel(st.bk, c));
    }
  }

  lemma TrieSurvives(st: TreeState, st': TreeState)
    requires Shape(st.L, st.nodes, st.chunks) && forall a :: a in st.chunks ==> SameAt(st, st', a)
    requires st'.L.roots == st.L.roots
    ensures Shape(st'.L, st.nodes, st.chunks)
  {
    hide Shr, TreeIndex, Child, Sel, Top, Dir, Same, UpOk, DownOk, SameAt;
    forall t | t in st.nodes
      ensures UpOk(st'.L, st.nodes, st.chunks, t)
    {
      UpSurvives(st, st', t);
    }
    forall t, d | t in st.nodes && 0 <= d < 2
      ensures DownOk(st'.L, st.nodes, st.chunks, t, d)
    {
      DownSurvives(st, st', t, d);
    }
    forall c | c in st.chunks && c !in st.nodes
      ensures Sel(st'.L.parent, c) == 0 && Child(st'.L, c, 0) == 0 && Child(st'.L, c, 1) == 0
    {
      SameLinks(st, st', c);
    }
  }

  lemma SameLinks(st: TreeState, st': TreeState, a: int)
    requires SameAt(st, st', a)
    ensures Sel(st'.L.parent, a) == Sel(st.L.parent, a)
    ensures forall d {:trigger Child(st'.L, a, d)} :: 0 <= d < 2 ==> Child(st'.L, a, d) == Child(st.L, a, d)
  {
    hide Sel;
    ChildCases(st.L, a);
    ChildCases(st'.L, a);
  }

  lemma UpSurvives(st: TreeState, st': TreeState, t: int)
    requires t in st.nodes && t in st.chunks && UpOk(st.L, st.nodes, st.chunks, t)
    requires forall a :: a in st.chunks ==> SameAt(st, st', a)
    ensures UpOk(st'.L, st.nodes, st.chunks, t)
  {
    hide Shr, TreeIndex, Child, Sel, Top, Same, SameAt;
    SameLinks(st, st', t);
    var p := Sel(st.L.parent, t);
    if p in st.chunks {
      SameLinks(st, st', p);
    }
  }

  lemma DownSurvives(st: TreeState, st': TreeState, t: int, d: int)
    requires t in st.nodes && t in st.chunks && 0 <= d < 2 && DownOk(st.L, st.nodes, st.chunks, t, d)
    requires forall a :: a in st.chunks ==> SameAt(st, st', a)
    ensures DownOk(st'.L, st.nodes, st.chunks, t, d)
  {
    hide Shr, TreeIndex, Child, Sel, Top, Dir, Same, SameAt;
    SameLinks(st, st', t);
    var c := Child(st.L, t, d);
    if c in st.chunks {
      SameLinks(st, st', c);
    }
  }

  lemma ChildCases(L: Trie, t: int)
    ensures forall d {:trigger Child(L, t, d)} :: 0 <= d < 2 ==> d == 0 || d == 1
  {
  }

  /** The store leaves the lists of the small bins alone. */
  lemma SmallStored(fd: map<int, int>, bk: map<int, int>, bins: seq<seq<int>>, chunks: map<int, nat>, x: int, v: nat)
    requires Lists(bins, chunks) && Links(fd, bk, bins)
    requires x % 8 == 0 ==> 0 < x - 8 && x - 8 !in chunks
    requires x % 8 != 0 ==> 0 < x - 12 && x - 12 !in chunks
    ensures Links(StoreFd(fd, x, v), StoreBk(bk, x, v), bins)
  {
    hide Lists, Links;
    SmallSurvive(fd, bk, StoreFd(fd, x, v), StoreBk(bk, x, v), bins, chunks);
  }

  /** And the tree bins. */
  lemma TreesStored(st: TreeState, t: TreeMem, x: int, v: nat)
    requires TreesOk(st) && st == WithFields(st, t)
    requires x % 8 == 0 ==> x - 8 !in st.chunks && x - 16 !in st.chunks && x - 24 !in st.chunks
    requires x % 8 != 0 ==> x - 12 !in st.chunks && x - 20 !in st.chunks && x - 28 !in st.chunks
    ensures TreesOk(WithFields(st, StoreTree(t, x, v)))
  {
    hide TreesOk;
    var st' := WithFields(st, StoreTree(t, x, v));
    forall a | a in st.chunks
      ensures SameAt(st, st', a)
    {
    }
    TreesSurvive(st, st');
  }

  /** Other blocks are not touched. */
  lemma OthersKept(i: Image, i': Image, C: Chunks, base: int, top: int, live: set<int>, q: int, x: int, v: nat)
    requires Layout(C, base, top) && live <= C.Keys && q in live && q in C && WordOfPayload(x, q, C[q])
    requires Stored(i, i', x, v)
    ensures Kept(i, i', C, C, live - {q})
  {
    hide Layout, Load, Offset;
    forall r | r in live - {q}
      ensures r in C && KeptAt(i, i', r, Min(C[r], C[r]))
    {
      Disjoint(C, base, top, q, r);
    }
  }
}
