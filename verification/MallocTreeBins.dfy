/** The tree bins: tries of the free chunks of at least 256 bytes, rings of chunks of equal
    size hanging off the trie nodes, and the bitmap `treemap`. */
module MallocTreeBins {
  import opened MallocBitmap
  import opened MallocSizes
  import opened MallocTreeIndex
  import opened MallocSmallBins
  import opened MallocTrie
  import opened MallocTags

  // ---- rings of equal sizes ----

  ghost predicate RingOk(fd: map<int, int>, bk: map<int, int>, nodes: Levels, size: Sizes, stamp: map<int, int>,
                         clock: int, c: int)
    requires c in size
  {
    var f, b := Sel(fd, c), Sel(bk, c);
    && f in size && size[f] == size[c] && Sel(bk, f) == c
    && b in size && size[b] == size[c] && Sel(fd, b) == c
    && (c !in nodes ==> b in nodes || Sel(stamp, b) > Sel(stamp, c))
    && Sel(stamp, c) < clock
  }

  /** Chunks of one size form circular lists. `stamp` is the (ghost) time a chunk joined its ring:
      going backwards from a chunk that is no node meets later and later chunks, then the node. */
  ghost predicate Rings(fd: map<int, int>, bk: map<int, int>, nodes: Levels, size: Sizes, stamp: map<int, int>,
                        clock: int) {
    forall c :: c in size ==> RingOk(fd, bk, nodes, size, stamp, clock, c)
  }

  /** Every chunk shares its size with a node, which is reached by following `bk`. */
  lemma {:induction false} NodeOfSize(fd: map<int, int>, bk: map<int, int>, nodes: Levels, size: Sizes,
                                      stamp: map<int, int>, clock: int, c: int) returns (h: int)
    requires Rings(fd, bk, nodes, size, stamp, clock) && c in size
    requires forall t :: t in nodes ==> t in size
    ensures h in nodes && h in size && size[h] == size[c]
    decreases clock - Sel(stamp, c)
  {
    hide Sel;
    var b := Sel(bk, c);
    assert RingOk(fd, bk, nodes, size, stamp, clock, c);
    if c in nodes {
      h := c;
    } else if b in nodes {
      h := b;
    } else {
      assert RingOk(fd, bk, nodes, size, stamp, clock, b);
      h := NodeOfSize(fd, bk, nodes, size, stamp, clock, b);
    }
  }

  /** A ring of one chunk is a node. */
  lemma LonelyIsNode(fd: map<int, int>, bk: map<int, int>, nodes: Levels, size: Sizes, stamp: map<int, int>,
                     clock: int, c: int)
    requires Rings(fd, bk, nodes, size, stamp, clock) && c in size && Sel(bk, c) == c
    ensures c in nodes
  {
    assert RingOk(fd, bk, nodes, size, stamp, clock, c);
  }

  lemma RingsJoin(fd: map<int, int>, bk: map<int, int>, nodes: Levels, size: Sizes, stamp: map<int, int>, clock: int,
                  t: int, x: int)
    requires Rings(fd, bk, nodes, size, stamp, clock) && t in nodes && t in size && x !in size && x !in nodes
    ensures Rings(fd[t := x][x := Sel(fd, t)], bk[Sel(fd, t) := x][x := t], nodes, size[x := size[t]],
                  stamp[x := clock], clock + 1)
  {
    hide Sel, Rings;
    var f := Sel(fd, t);
    var fd', bk', size', stamp' := fd[t := x][x := f], bk[f := x][x := t], size[x := size[t]], stamp[x := clock];
    SelStore(fd, t, x);
    SelStore(fd[t := x], x, f);
    SelStore(bk, f, x);
    SelStore(bk[f := x], x, t);
    SelStore(stamp, x, clock);
    RingFacts(fd, bk, nodes, size, stamp, clock, t);
    forall c | c in size'
      ensures RingOk(fd', bk', nodes, size', stamp', clock + 1, c)
    {
      if c != x {
        RingFacts(fd, bk, nodes, size, stamp, clock, c);
      }
    }
    RingsIntro(fd', bk', nodes, size', stamp', clock + 1);
  }

  lemma RingFacts(fd: map<int, int>, bk: map<int, int>, nodes: Levels, size: Sizes, stamp: map<int, int>, clock: int,
                  c: int)
    requires Rings(fd, bk, nodes, size, stamp, clock) && c in size
    ensures RingOk(fd, bk, nodes, size, stamp, clock, c)
  {
  }

  lemma RingsIntro(fd: map<int, int>, bk: map<int, int>, nodes: Levels, size: Sizes, stamp: map<int, int>, clock: int)
    requires forall c :: c in size ==> RingOk(fd, bk, nodes, size, stamp, clock, c)
    ensures Rings(fd, bk, nodes, size, stamp, clock)
  {
  }

  lemma RingsAlone(fd: map<int, int>, bk: map<int, int>, nodes: Levels, size: Sizes, stamp: map<int, int>, clock: int,
                   x: int, s: nat, e: nat)
    requires Rings(fd, bk, nodes, size, stamp, clock) && x !in size
    ensures Rings(fd[x := x], bk[x := x], nodes[x := e], size[x := s], stamp[x := clock], clock + 1)
  {
    hide Sel, Rings;
    SelStore(fd, x, x);
    SelStore(bk, x, x);
    SelStore(stamp, x, clock);
    var size' := size[x := s];
    forall c | c in size'
      ensures RingOk(fd[x := x], bk[x := x], nodes[x := e], size', stamp[x := clock], clock + 1, c)
    {
      if c != x {
        RingFacts(fd, bk, nodes, size, stamp, clock, c);
      }
    }
    RingsIntro(fd[x := x], bk[x := x], nodes[x := e], size[x := s], stamp[x := clock], clock + 1);
  }

  /** Leaving a ring of at least two: a plain member, or a node whose place the chunk behind it takes. */
  lemma RingsLeave(fd: map<int, int>, bk: map<int, int>, nodes: Levels, size: Sizes, stamp: map<int, int>, clock: int,
                   x: int, nodes': Levels)
    requires Rings(fd, bk, nodes, size, stamp, clock) && x in size && Sel(bk, x) != x
    requires forall c :: c in nodes && c != x ==> c in nodes'
    requires x in nodes ==> Sel(bk, x) in nodes'
    ensures Rings(fd[Sel(bk, x) := Sel(fd, x)], bk[Sel(fd, x) := Sel(bk, x)], nodes', size - {x}, stamp, clock)
  {
    hide Sel, Rings;
    var f, r := Sel(fd, x), Sel(bk, x);
    var fd', bk' := fd[r := f], bk[f := r];
    SelStore(fd, r, f);
    SelStore(bk, f, r);
    RingFacts(fd, bk, nodes, size, stamp, clock, x);
    forall c | c in size - {x}
      ensures RingOk(fd', bk', nodes', size - {x}, stamp, clock, c)
    {
      RingFacts(fd, bk, nodes, size, stamp, clock, c);
    }
    RingsIntro(fd', bk', nodes', size - {x}, stamp, clock);
  }

  lemma RingsDrop(fd: map<int, int>, bk: map<int, int>, nodes: Levels, size: Sizes, stamp: map<int, int>, clock: int,
                  x: int, nodes': Levels)
    requires Rings(fd, bk, nodes, size, stamp, clock) && x in size && Sel(bk, x) == x
    requires forall c :: c in nodes && c != x ==> c in nodes'
    ensures Rings(fd, bk, nodes', size - {x}, stamp, clock)
  {
    hide Sel, Rings;
    RingFacts(fd, bk, nodes, size, stamp, clock, x);
    forall c | c in size - {x}
      ensures RingOk(fd, bk, nodes', size - {x}, stamp, clock, c)
    {
      RingFacts(fd, bk, nodes, size, stamp, clock, c);
    }
    RingsIntro(fd, bk, nodes', size - {x}, stamp, clock);
  }

  // ---- the bins ----

  ghost predicate TreeMarks(m: BinMap, roots: seq<int>) {
    |roots| == NTREEBINS && forall i: Idx :: IsMarked(m, i) <==> roots[i] != 0
  }

  lemma TreeMarksSet(m: BinMap, roots: seq<int>, i: Idx, x: int)
    requires TreeMarks(m, roots) && x != 0
    ensures TreeMarks(MarkBin(m, i), roots[i := x])
  {
    hide IsMarked, MarkBin, ClearBin;
    var m', roots' := MarkBin(m, i), roots[i := x];
    forall k: Idx
      ensures IsMarked(m', k) <==> roots'[k] != 0
    {
      BinUpdates(m, i, k);
    }
  }

  lemma TreeMarksClear(m: BinMap, roots: seq<int>, i: Idx)
    requires TreeMarks(m, roots)
    ensures TreeMarks(ClearBin(m, i), roots[i := 0])
  {
    hide IsMarked, MarkBin, ClearBin;
    var m', roots' := ClearBin(m, i), roots[i := 0];
    forall k: Idx
      ensures IsMarked(m', k) <==> roots'[k] != 0
    {
      BinUpdates(m, i, k);
    }
  }

  lemma TreeMarked(m: BinMap, roots: seq<int>, i: Idx)
    requires TreeMarks(m, roots)
    ensures |roots| == NTREEBINS && (IsMarked(m, i) <==> roots[i] != 0)
  {
  }

  ghost predicate Indexed(index: map<int, int>, size: Sizes) {
    forall c :: c in size ==> Sel(index, c) == Bin(size[c])
  }

  lemma IndexedAdd(index: map<int, int>, size: Sizes, x: int, s: nat)
    requires Indexed(index, size) && Sel(index, x) == Bin(s)
    ensures Indexed(index, size[x := s])
  {
    hide Sel, TreeIndex;
  }

  /** The trie does not depend on the tree fields of addresses that hold no tree chunk. */
  lemma ShapeFrame(L: Trie, L': Trie, nodes: Levels, size: Sizes, x: int)
    requires Shape(L, nodes, size) && x !in size && L'.roots == L.roots && L'.parent == L.parent
    requires forall t, d {:trigger Child(L', t, d)} :: 0 <= d < 2 && t != x ==> Child(L', t, d) == Child(L, t, d)
    ensures Shape(L', nodes, size)
  {
    hide Shr, TreeIndex, Child, Sel, Top, Dir;
    NotANode(L, nodes, size, x);
    forall t | t in nodes
      ensures UpOk(L', nodes, size, t)
    {
      assert UpOk(L, nodes, size, t);
    }
    forall t, d | t in nodes && 0 <= d < 2
      ensures DownOk(L', nodes, size, t, d)
    {
      assert DownOk(L, nodes, size, t, d);
    }
  }

  /** Reading a child after an update of one child field. */
  lemma ChildStore(L: Trie, t: int, d: int, v: int)
    requires 0 <= d < 2
    ensures ChildrenAre(L, SetChild(L, t, d, v), t, d, v)
  {
  }

  lemma ClearChildren(L: Trie, x: int)
    ensures var L' := L.(child0 := L.child0[x := 0], child1 := L.child1[x := 0]);
            Child(L', x, 0) == 0 && Child(L', x, 1) == 0
            && forall t, d {:trigger Child(L', t, d)} :: 0 <= d < 2 && t != x ==> Child(L', t, d) == Child(L, t, d)
  {
  }

  /** The whole state of the tree bins as a value: the link fields, the bin pointers and map, and
      the ghost view of them. */
  datatype TreeState = TreeState(L: Trie, fd: map<int, int>, bk: map<int, int>, index: map<int, int>, treemap: BinMap,
                                 chunks: Sizes, nodes: Levels, stamp: map<int, int>, clock: int)

  ghost predicate TreesOk(st: TreeState) {
    && Shape(st.L, st.nodes, st.chunks)
    && Rings(st.fd, st.bk, st.nodes, st.chunks, st.stamp, st.clock)
    && Indexed(st.index, st.chunks)
    && TreeMarks(st.treemap, st.L.roots)
  }

  /** A chunk `x` about to be inserted: its index and (empty) children are set, nothing links to it. */
  ghost predicate Fresh(st: TreeState, x: int, s: nat) {
    && TreesOk(st)
    && 0 < x && x !in st.chunks && MIN_LARGE_SIZE <= s < WORD
    && Sel(st.index, x) == Bin(s) && Child(st.L, x, 0) == 0 && Child(st.L, x, 1) == 0
  }

  /** `*H = X; X->parent = H; X->fd = X->bk = X` */
  ghost function WithRoot(st: TreeState, x: int, s: nat, i: Idx): TreeState
    requires |st.L.roots| == NTREEBINS
  {
    TreeState(st.L.(parent := st.L.parent[x := Slot(i)], roots := st.L.roots[i := x]),
              st.fd[x := x], st.bk[x := x], st.index, MarkBin(st.treemap, i),
              st.chunks[x := s], st.nodes[x := Top(s)], st.stamp[x := st.clock], st.clock + 1)
  }

  lemma WithRootOk(st: TreeState, x: int, s: nat, i: Idx)
    requires Fresh(st, x, s) && i == Bin(s) && |st.L.roots| == NTREEBINS && st.L.roots[i] == 0
    ensures TreesOk(WithRoot(st, x, s, i))
  {
    hide Shape, Rings, TreeMarks, TreeIndex, IsMarked, MarkBin, ClearBin, Sel, Child, Top, Indexed;
    var st' := WithRoot(st, x, s, i);
    IndexedAdd(st.index, st.chunks, x, s);
    TreeMarksSet(st.treemap, st.L.roots, i, x);
    RingsAlone(st.fd, st.bk, st.nodes, st.chunks, st.stamp, st.clock, x, s, Top(s));
    SelStore(st.L.parent, x, Slot(i));
    assert Child(st'.L, x, 0) == Child(st.L, x, 0) by { SameChildren(st.L, st'.L, x); }
    AddRoot(st.L, st'.L, st.nodes, st.chunks, x, s);
  }

  lemma SameChildren(L: Trie, L': Trie, x: int)
    requires L'.child0 == L.child0 && L'.child1 == L.child1
    ensures Child(L', x, 0) == Child(L, x, 0) && Child(L', x, 1) == Child(L, x, 1)
  {
  }

  /** `*C = X; X->parent = T; X->fd = X->bk = X` */
  ghost function WithLeaf(st: TreeState, x: int, s: nat, t: int, b: int): TreeState
    requires t in st.nodes && st.nodes[t] >= 1
  {
    TreeState(SetChild(st.L, t, b, x).(parent := st.L.parent[x := t]),
              st.fd[x := x], st.bk[x := x], st.index, st.treemap,
              st.chunks[x := s], st.nodes[x := st.nodes[t] - 1], st.stamp[x := st.clock], st.clock + 1)
  }

  lemma WithLeafOk(st: TreeState, x: int, s: nat, t: int, b: int)
    requires Fresh(st, x, s)
    requires t in st.nodes && t in st.chunks && st.nodes[t] >= 1 && Same(st.chunks[t], s, st.nodes[t])
    requires 0 <= b < 2 && b == Dir(s, st.nodes[t] - 1) && Child(st.L, t, b) == 0
    requires forall u :: u in st.nodes && u in st.chunks ==> st.chunks[u] != s
    ensures TreesOk(WithLeaf(st, x, s, t, b))
  {
    hide Shape, Rings, TreeMarks, TreeIndex, Sel, Child, Top, Indexed, Same, Dir;
    var st' := WithLeaf(st, x, s, t, b);
    IndexedAdd(st.index, st.chunks, x, s);
    RingsAlone(st.fd, st.bk, st.nodes, st.chunks, st.stamp, st.clock, x, s, st.nodes[t] - 1);
    SelStore(st.L.parent, x, t);
    ChildStore(st.L, t, b, x);
    assert ChildrenAre(st.L, st'.L, t, b, x) by {
      var L1 := SetChild(st.L, t, b, x);
      forall u, d | 0 <= d < 2
        ensures Child(st'.L, u, d) == Child(L1, u, d)
      {
        SameChildren(L1, st'.L, u);
      }
    }
    assert st'.L.roots == st.L.roots && st'.L.parent == st.L.parent[x := t];
    AddLeaf(st.L, st'.L, st.nodes, st.chunks, x, s, t, b);
  }

  /** `T->fd = F->bk = X; X->fd = F; X->bk = T; X->parent = 0` */
  ghost function WithTwin(st: TreeState, x: int, t: int): TreeState
    requires t in st.chunks
  {
    TreeState(st.L.(parent := st.L.parent[x := 0]),
              st.fd[t := x][x := Sel(st.fd, t)], st.bk[Sel(st.fd, t) := x][x := t], st.index, st.treemap,
              st.chunks[x := st.chunks[t]], st.nodes, st.stamp[x := st.clock], st.clock + 1)
  }

  lemma WithTwinOk(st: TreeState, x: int, t: int)
    requires t in st.nodes && t in st.chunks && Fresh(st, x, st.chunks[t])
    ensures TreesOk(WithTwin(st, x, t))
  {
    hide Shape, Rings, TreeMarks, TreeIndex, Sel, Child, Indexed;
    NotANode(st.L, st.nodes, st.chunks, x);
    IndexedAdd(st.index, st.chunks, x, st.chunks[t]);
    RingsJoin(st.fd, st.bk, st.nodes, st.chunks, st.stamp, st.clock, t, x);
    ShapeTwin(st.L, st.nodes, st.chunks, x, st.chunks[t]);
  }

  ghost predicate TwinStep(L: Trie, L': Trie, nodes: Levels, size: Sizes, x: int, s: nat) {
    && Shape(L, nodes, size) && 0 < x && x !in size && MIN_LARGE_SIZE <= s < WORD
    && (forall t, d {:trigger Child(L', t, d)} :: 0 <= d < 2 ==> Child(L', t, d) == Child(L, t, d))
    && Child(L, x, 0) == 0 && Child(L, x, 1) == 0
    && L'.roots == L.roots && ParentsAre(L, L', x, 0)
  }

  lemma TwinKeepsUp(L: Trie, L': Trie, nodes: Levels, size: Sizes, x: int, s: nat, u: int)
    requires TwinStep(L, L', nodes, size, x, s) && u in nodes
    ensures UpOk(L', nodes, size[x := s], u)
  {
    hide Shr, TreeIndex, Child, Dir, Sel, Shape, Top, LargeSizes, Same;
    NotANode(L, nodes, size, x);
    NodeFacts(L, nodes, size, u);
    if nodes[u] < Top(size[u]) {
      var p := ParentOf(L, nodes, size, u);
    }
  }

  lemma TwinKeepsDown(L: Trie, L': Trie, nodes: Levels, size: Sizes, x: int, s: nat, u: int, d: int)
    requires TwinStep(L, L', nodes, size, x, s) && u in nodes && 0 <= d < 2
    ensures DownOk(L', nodes, size[x := s], u, d)
  {
    hide Shr, TreeIndex, Child, Dir, Sel, Shape, Top, LargeSizes, Same;
    NotANode(L, nodes, size, x);
    NodeFacts(L, nodes, size, u);
    if Child(L, u, d) != 0 {
      var c := ChildOf(L, nodes, size, u, d);
    }
  }

  lemma TwinKeepsRoots(L: Trie, L': Trie, nodes: Levels, size: Sizes, x: int, s: nat)
    requires TwinStep(L, L', nodes, size, x, s)
    ensures RootsOk(L', nodes, size[x := s])
  {
    hide Shr, TreeIndex, Child, Dir, Sel, UpOk, DownOk, Top;
    NotANode(L, nodes, size, x);
  }

  /** A chunk that only joins a ring is no node; the trie is as before. */
  lemma ShapeTwin(L: Trie, nodes: Levels, size: Sizes, x: int, s: nat)
    requires Shape(L, nodes, size) && 0 < x && x !in size && MIN_LARGE_SIZE <= s < WORD
    requires Child(L, x, 0) == 0 && Child(L, x, 1) == 0
    ensures Shape(L.(parent := L.parent[x := 0]), nodes, size[x := s])
  {
    hide Shr, TreeIndex, Sel, Top, Dir, UpOk, DownOk, RootsOk;
    NotANode(L, nodes, size, x);
    SelStore(L.parent, x, 0);
    var L', size' := L.(parent := L.parent[x := 0]), size[x := s];
    TwinKeepsRoots(L, L', nodes, size, x, s);
    forall t | t in nodes
      ensures UpOk(L', nodes, size', t)
    {
      TwinKeepsUp(L, L', nodes, size, x, s, t);
    }
    forall t, d | t in nodes && 0 <= d < 2
      ensures DownOk(L', nodes, size', t, d)
    {
      TwinKeepsDown(L, L', nodes, size, x, s, t, d);
    }
  }

  /** `X->index = I; X->child[0] = X->child[1] = 0` */
  ghost function Prepared(st: TreeState, x: int, s: nat): TreeState {
    st.(index := st.index[x := Bin(s)], L := st.L.(child0 := st.L.child0[x := 0], child1 := st.L.child1[x := 0]))
  }

  lemma PreparedFresh(st: TreeState, x: int, s: nat)
    requires TreesOk(st) && 0 < x && x !in st.chunks && MIN_LARGE_SIZE <= s < WORD
    ensures Fresh(Prepared(st, x, s), x, s)
  {
    hide Shape, Rings, TreeMarks, TreeIndex, Sel, Child;
    ClearChildren(st.L, x);
    ShapeFrame(st.L, Prepared(st, x, s).L, st.nodes, st.chunks, x);
    SelStore(st.index, x, Bin(s));
  }

  // ---- the walk of insert_large_chunk ----

  /** `t` stands for a prefix of `s`, and no node of size `s` lies above it. */
  ghost predicate OnPath(st: TreeState, s: nat, t: int) {
    && t in st.nodes && t in st.chunks && t != 0 && st.nodes[t] <= 32 && Same(st.chunks[t], s, st.nodes[t])
    && forall u :: u in st.nodes && u in st.chunks && st.chunks[u] == s ==> st.nodes[u] <= st.nodes[t]
  }

  lemma PathStarts(st: TreeState, s: nat, i: Idx)
    requires TreesOk(st) && MIN_LARGE_SIZE <= s < WORD && i == Bin(s) && st.L.roots[i] != 0
    ensures OnPath(st, s, st.L.roots[i]) && st.nodes[st.L.roots[i]] == RootExp(i)
  {
    hide Shape, Rings, TreeMarks, TreeIndex, Sel, Child, Indexed, Top, Same;
    TreeMarked(st.treemap, st.L.roots, i);
    var t := RootFacts(st, i);
    SameAtTop(st.chunks[t], s);
    BinRange(s);
    forall u | u in st.nodes && u in st.chunks && st.chunks[u] == s
      ensures st.nodes[u] <= st.nodes[t]
    {
      NodeFacts(st.L, st.nodes, st.chunks, u);
    }
  }

  lemma RootFacts(st: TreeState, i: Idx) returns (t: int)
    requires TreesOk(st) && |st.L.roots| == NTREEBINS && st.L.roots[i] != 0
    ensures t == st.L.roots[i] && t in st.nodes && t in st.chunks && Bin(st.chunks[t]) == i && t > 0
    ensures MIN_LARGE_SIZE <= st.chunks[t] < WORD && st.nodes[t] == Top(st.chunks[t]) <= 32
  {
    hide Rings, TreeMarks, TreeIndex, Sel, Child, Indexed, Top, Same, UpOk, DownOk;
    t := st.L.roots[i];
    NodeFacts(st.L, st.nodes, st.chunks, t);
  }

  lemma SameAtZero(a: nat, b: nat)
    requires Same(a, b, 0)
    ensures a == b
  {
    ShrZero(a);
    ShrZero(b);
  }

  /** One step down: the branch bit leads to the node of the longer prefix, or no node has size `s`. */
  lemma PathStep(st: TreeState, s: nat, t: int)
    requires TreesOk(st) && OnPath(st, s, t) && st.chunks[t] != s
    ensures st.nodes[t] >= 1
    ensures var c := Child(st.L, t, Dir(s, st.nodes[t] - 1));
            if c != 0 then OnPath(st, s, c) && st.nodes[c] == st.nodes[t] - 1
            else forall u :: u in st.nodes && u in st.chunks ==> st.chunks[u] != s
  {
    hide Shape, Rings, TreeMarks, TreeIndex, Sel, Child, Indexed, Top, Same, Dir;
    if st.nodes[t] == 0 {
      SameAtZero(st.chunks[t], s);
    }
    var e := st.nodes[t] - 1;
    var c := Child(st.L, t, Dir(s, e));
    forall u | u in st.nodes && u in st.chunks && st.chunks[u] == s
      ensures c != 0 && st.nodes[u] <= e
    {
      SameTop(s, st.chunks[t], st.nodes[t]);
      if st.nodes[u] == st.nodes[t] {
        PositionUnique(st.L, st.nodes, st.chunks, t, u);
      }
      var c' := ChildOnPath(st.L, st.nodes, st.chunks, t, u);
    }
    if c != 0 {
      var c' := ChildOf(st.L, st.nodes, st.chunks, t, Dir(s, e));
      SameTop(s, st.chunks[t], e + 1);
      SameTrans(s, st.chunks[t], st.chunks[c], e + 1);
      SameDown(s, st.chunks[c], e);
      SameTop(s, st.chunks[c], e);
    }
  }

  // ---- unlink_large_chunk ----

  lemma ForgetTwin(L: Trie, nodes: Levels, size: Sizes, r: int)
    requires Shape(L, nodes, size) && r !in nodes
    ensures Shape(L, nodes, size - {r})
  {
    hide Shr, TreeIndex, Sel, Child, Top, Dir, UpOk, DownOk, Same;
    forall t | t in nodes
      ensures UpOk(L, nodes, size - {r}, t)
    {
      UpForgets(L, nodes, size, r, t);
    }
    forall t, d | t in nodes && 0 <= d < 2
      ensures DownOk(L, nodes, size - {r}, t, d)
    {
      DownForgets(L, nodes, size, r, t, d);
    }
  }

  lemma UpForgets(L: Trie, nodes: Levels, size: Sizes, r: int, t: int)
    requires r !in nodes && t in nodes && t in size && UpOk(L, nodes, size, t)
    ensures UpOk(L, nodes, size - {r}, t)
  {
    hide Shr, TreeIndex, Sel, Child, Top, Dir, Same;
  }

  lemma DownForgets(L: Trie, nodes: Levels, size: Sizes, r: int, t: int, d: int)
    requires r !in nodes && t in nodes && t in size && DownOk(L, nodes, size, t, d)
    ensures DownOk(L, nodes, size - {r}, t, d)
  {
    hide Shr, TreeIndex, Sel, Child, Top, Dir, Same;
  }

  /** The slot that held `x`, and the fields of `x`'s children, redirected to `r`. */
  ghost function Relinked(L: Trie, x: int, r: int, i: Idx): Trie
    requires |L.roots| == NTREEBINS
  {
    var xp := Sel(L.parent, x);
    var L1 := if L.roots[i] == x then L.(roots := L.roots[i := r])
              else SetChild(L, xp, if Child(L, xp, 0) == x then 0 else 1, r);
    var L2 := L1.(parent := L1.parent[r := xp]);
    var L3 := Adopted(L2, x, r, 0);
    Adopted(L3, x, r, 1)
  }

  /** `if ((C = X->child[d]) != 0) { R->child[d] = C; C->parent = R; }` */
  ghost function Adopted(L: Trie, x: int, r: int, d: int): Trie {
    var c := Child(L, x, d);
    if c == 0 then L
    else var L1 := SetChild(L, r, d, c);
         L1.(parent := L1.parent[c := r])
  }

  lemma AdoptedChildren(L: Trie, x: int, r: int, d: int)
    requires 0 <= d < 2 && r != x && Child(L, r, d) == 0
    ensures Adopted(L, x, r, d).roots == L.roots
    ensures ChildrenAre(L, Adopted(L, x, r, d), r, d, Child(L, x, d))
    ensures if Child(L, x, d) == 0 then Adopted(L, x, r, d).parent == L.parent
            else ParentsAre(L, Adopted(L, x, r, d), Child(L, x, d), r)
  {
    hide Sel;
    var c := Child(L, x, d);
    if c != 0 {
      ChildStore(L, r, d, c);
      var L1, L' := SetChild(L, r, d, c), Adopted(L, x, r, d);
      SelStore(L1.parent, c, r);
      forall t, e | 0 <= e < 2
        ensures Child(L', t, e) == Child(L1, t, e)
      {
        SameChildren(L1, L', t);
      }
    }
  }

  ghost predicate RelinkPre(L: Trie, nodes: Levels, size: Sizes, x: int, r: int, s: nat, i: Idx) {
    && Shape(L, nodes, size)
    && x in nodes && x in size && 0 < r && r !in size && i == Bin(size[x])
    && MIN_LARGE_SIZE <= s < WORD && Same(s, size[x], nodes[x])
    && (forall u :: u in nodes && u in size && u != x ==> size[u] != s)
    && Child(L, r, 0) == 0 && Child(L, r, 1) == 0
  }

  /** The first update of the relinking: the slot. */
  lemma SlotRedirected(L: Trie, nodes: Levels, size: Sizes, x: int, r: int, s: nat, i: Idx) returns (L1: Trie)
    requires RelinkPre(L, nodes, size, x, r, s, i) && |L.roots| == NTREEBINS
    ensures L1 == if L.roots[i] == x then L.(roots := L.roots[i := r])
                  else SetChild(L, Sel(L.parent, x), if Child(L, Sel(L.parent, x), 0) == x then 0 else 1, r)
    ensures L1.parent == L.parent
    ensures forall t, d {:trigger Child(L1, t, d)} :: t in nodes && 0 <= d < 2 ==>
              Child(L1, t, d) == Rename(Child(L, t, d), x, r)
    ensures forall t, d {:trigger Child(L1, t, d)} :: t !in nodes && 0 <= d < 2 ==> Child(L1, t, d) == Child(L, t, d)
    ensures |L1.roots| == NTREEBINS && forall k :: 0 <= k < NTREEBINS ==> L1.roots[k] == Rename(L.roots[k], x, r)
  {
    hide Shr, TreeIndex, Child, Dir, Sel, Shape, Top, Same;
    NodeFacts(L, nodes, size, x);
    var xp := Sel(L.parent, x);
    RootsOnlyOwn(L, nodes, size, x);
    if L.roots[i] == x {
      L1 := L.(roots := L.roots[i := r]);
      forall t, d | 0 <= d < 2
        ensures Child(L1, t, d) == Child(L, t, d)
        ensures t in nodes ==> Child(L, t, d) != x
      {
        SameChildren(L, L1, t);
        if t in nodes && Child(L, t, d) == x {
          var c := ChildOf(L, nodes, size, t, d);
          NodeFacts(L, nodes, size, t);
        }
      }
    } else {
      var p := ParentOf(L, nodes, size, x);
      var b := if Child(L, xp, 0) == x then 0 else 1;
      assert Child(L, xp, b) == x;
      L1 := SetChild(L, xp, b, r);
      ChildStore(L, xp, b, r);
      forall t, d | 0 <= d < 2 && t in nodes && Child(L, t, d) == x
        ensures t == xp && d == b
      {
        var c := ChildOf(L, nodes, size, t, d);
        var c' := ChildOf(L, nodes, size, xp, b);
      }
    }
  }

  /** The fields after the whole relinking, relative to those after the slot update. */
  lemma RelinkedFields(L: Trie, L1: Trie, x: int, r: int, xp: int) returns (L': Trie)
    requires r != x && Child(L1, r, 0) == 0 && Child(L1, r, 1) == 0
    ensures L' == Adopted(Adopted(L1.(parent := L1.parent[r := xp]), x, r, 0), x, r, 1)
    ensures L'.roots == L1.roots
    ensures forall t, d {:trigger Child(L', t, d)} :: 0 <= d < 2 ==>
              Child(L', t, d) == Child(L1, if t == r then x else t, d)
    ensures forall t {:trigger Sel(L'.parent, t)} ::
              Sel(L'.parent, t) == if t != 0 && (t == Child(L1, x, 0) || t == Child(L1, x, 1)) then r
                                   else if t == r then xp else Sel(L1.parent, t)
  {
    hide Sel, Child;
    var L2 := L1.(parent := L1.parent[r := xp]);
    SelStore(L1.parent, r, xp);
    SameChildren(L1, L2, r);
    SameChildren(L1, L2, x);
    AdoptedChildren(L2, x, r, 0);
    var L3 := Adopted(L2, x, r, 0);
    assert Child(L3, r, 1) == Child(L2, r, 1);
    assert Child(L3, x, 1) == Child(L2, x, 1);
    AdoptedChildren(L3, x, r, 1);
    L' := Adopted(L3, x, r, 1);
    forall t, d | 0 <= d < 2
      ensures Child(L', t, d) == Child(L1, if t == r then x else t, d)
    {
      SameChildren(L1, L2, t);
      assert Child(L3, t, d) == if t == r && d == 0 then Child(L2, x, 0) else Child(L2, t, d);
    }
  }

  lemma ChildNotSelf(L: Trie, nodes: Levels, size: Sizes, x: int, d: int)
    requires Shape(L, nodes, size) && x in nodes && x in size && 0 <= d < 2
    ensures Child(L, x, d) != x && x > 0
    ensures Child(L, x, d) != 0 ==> Child(L, x, d) in nodes && Sel(L.parent, Child(L, x, d)) == x
  {
    hide Shr, TreeIndex, Child, Dir, Sel, Shape, Top, Same;
    NodeFacts(L, nodes, size, x);
    if Child(L, x, d) != 0 {
      var c := ChildOf(L, nodes, size, x, d);
    }
  }

  lemma ChildrenOnly(L: Trie, nodes: Levels, size: Sizes, x: int, t: int)
    requires Shape(L, nodes, size) && x in nodes && x in size && t in nodes && t in size && Sel(L.parent, t) == x
    ensures t == Child(L, x, 0) || t == Child(L, x, 1)
    ensures t != 0
  {
    hide Shr, TreeIndex, Child, Dir, Sel, Shape, Top, Same;
    NodeFacts(L, nodes, size, x);
    NodeFacts(L, nodes, size, t);
    assert Slot(Bin(size[t])) < 0;
    var p := ParentOf(L, nodes, size, t);
  }

  lemma NonNodeFields(L: Trie, nodes: Levels, size: Sizes, c: int)
    requires Shape(L, nodes, size) && c in size && c !in nodes
    ensures Sel(L.parent, c) == 0 && Child(L, c, 0) == 0 && Child(L, c, 1) == 0
  {
  }

  /** The relinking code renames `x` to `r` in the trie. */
  lemma RelinkedIsReplace(L: Trie, nodes: Levels, size: Sizes, x: int, r: int, s: nat, i: Idx)
    requires RelinkPre(L, nodes, size, x, r, s, i) && |L.roots| == NTREEBINS
    ensures ReplaceStep(L, Relinked(L, x, r, i), nodes, size, x, r, s)
  {
    hide Shr, TreeIndex, Child, Dir, Sel, Shape, Top, Same;
    NotANode(L, nodes, size, r);
    var xp := Sel(L.parent, x);
    var L1 := SlotRedirected(L, nodes, size, x, r, s, i);
    ChildNotSelf(L, nodes, size, x, 0);
    ChildNotSelf(L, nodes, size, x, 1);
    assert Child(L1, x, 0) == Child(L, x, 0) && Child(L1, x, 1) == Child(L, x, 1);
    var L' := RelinkedFields(L, L1, x, r, xp);
    assert L' == Relinked(L, x, r, i);
    forall t | t in nodes && t != x
      ensures Sel(L'.parent, t) == Rename(Sel(L.parent, t), x, r)
    {
      if Sel(L.parent, t) == x {
        NodeFacts(L, nodes, size, t);
        ChildrenOnly(L, nodes, size, x, t);
      }
    }
    forall c | c in size && c !in nodes
      ensures Sel(L'.parent, c) == 0 && Child(L', c, 0) == 0 && Child(L', c, 1) == 0
    {
      NonNodeFields(L, nodes, size, c);
    }
  }

  lemma RootsOnlyOwn(L: Trie, nodes: Levels, size: Sizes, x: int)
    requires Shape(L, nodes, size) && x in nodes && x in size
    ensures |L.roots| == NTREEBINS
    ensures forall k :: 0 <= k < NTREEBINS && L.roots[k] == x ==> k == Bin(size[x])
  {
    hide Shr, TreeIndex, Child, Dir, Sel, Top, Same, UpOk, DownOk;
    NodeFacts(L, nodes, size, x);
  }

  lemma NodeHasParent(st: TreeState, x: int)
    requires TreesOk(st) && x in st.chunks
    ensures x in st.nodes <==> Sel(st.L.parent, x) != 0
    ensures Sel(st.index, x) == Bin(st.chunks[x]) && 0 <= Bin(st.chunks[x]) < NTREEBINS && |st.L.roots| == NTREEBINS
  {
    hide TreeIndex, Child, Sel, Rings, Top, Same, TreeMarks, Shape, Slot;
    TreeShape(st);
    BinRange(st.chunks[x]);
    if x in st.nodes {
      NodeFacts(st.L, st.nodes, st.chunks, x);
      if st.nodes[x] < Top(st.chunks[x]) {
        var p := ParentOf(st.L, st.nodes, st.chunks, x);
      } else {
        assert Slot(Bin(st.chunks[x])) < 0 by { SlotNegative(Bin(st.chunks[x])); }
      }
    } else {
      NonNodeFields(st.L, st.nodes, st.chunks, x);
    }
  }

  lemma SlotNegative(i: nat)
    ensures Slot(i) < 0
  {
  }

  lemma TreeShape(st: TreeState)
    requires TreesOk(st)
    ensures Shape(st.L, st.nodes, st.chunks) && |st.L.roots| == NTREEBINS
    ensures forall c :: c in st.chunks ==> 0 < c && MIN_LARGE_SIZE <= st.chunks[c] < WORD
    ensures forall t :: t in st.nodes ==> t in st.chunks
  {
  }

  lemma IndexedDrop(index: map<int, int>, size: Sizes, x: int)
    requires Indexed(index, size)
    ensures Indexed(index, size - {x})
  {
  }

  lemma TreeMarksRename(m: BinMap, roots: seq<int>, roots': seq<int>, x: int, r: int)
    requires TreeMarks(m, roots) && x != 0 && r != 0 && |roots'| == NTREEBINS
    requires forall k :: 0 <= k < NTREEBINS ==> roots'[k] == Rename(roots[k], x, r)
    ensures TreeMarks(m, roots')
  {
    hide IsMarked;
  }

  /** `F->bk = R; R->fd = F` around a chunk that is not alone in its ring. */
  ghost function RingLeft(st: TreeState, x: int): TreeState {
    st.(bk := st.bk[Sel(st.fd, x) := Sel(st.bk, x)], fd := st.fd[Sel(st.bk, x) := Sel(st.fd, x)])
  }

  /** A ring member that is no node leaves. */
  lemma TwinUnlinked(st: TreeState, x: int)
    requires TreesOk(st) && x in st.chunks && x !in st.nodes && Sel(st.bk, x) != x
    ensures TreesOk(RingLeft(st, x).(chunks := st.chunks - {x}))
  {
    hide TreeIndex, Child, Sel, Rings, TreeMarks, Shape, Indexed;
    RingsLeave(st.fd, st.bk, st.nodes, st.chunks, st.stamp, st.clock, x, st.nodes);
    ForgetTwin(st.L, st.nodes, st.chunks, x);
    IndexedDrop(st.index, st.chunks, x);
  }

  /** A node with twins leaves: the twin behind it becomes the node. */
  lemma HeadUnlinked(st: TreeState, x: int, i: Idx)
    requires TreesOk(st) && x in st.chunks && x in st.nodes && Sel(st.bk, x) != x
    requires i == Bin(st.chunks[x]) && |st.L.roots| == NTREEBINS
    ensures var r := Sel(st.bk, x);
            TreesOk(RingLeft(st, x).(L := Relinked(st.L, x, r, i), chunks := st.chunks - {x},
                                     nodes := (st.nodes - {x})[r := st.nodes[x]]))
  {
    hide TreeIndex, Child, Sel, Rings, TreeMarks, Shape, Indexed, Relinked, Same;
    TreeShape(st);
    var r := Sel(st.bk, x);
    assert RingOk(st.fd, st.bk, st.nodes, st.chunks, st.stamp, st.clock, x) by {
      RingFacts(st.fd, st.bk, st.nodes, st.chunks, st.stamp, st.clock, x);
    }
    NodeSizesUnique(st.L, st.nodes, st.chunks, x, r);
    var nodes' := (st.nodes - {x})[r := st.nodes[x]];
    RingsLeave(st.fd, st.bk, st.nodes, st.chunks, st.stamp, st.clock, x, nodes');
    ForgetTwin(st.L, st.nodes, st.chunks, r);
    NonNodeFields(st.L, st.nodes, st.chunks, r);
    var size1 := st.chunks - {r};
    NodeSizesUniqueAll(st.L, st.nodes, st.chunks, x);
    SameRefl(st.chunks[x], st.nodes[x]);
    RelinkedIsReplace(st.L, st.nodes, size1, x, r, st.chunks[r], i);
    ReplaceNode(st.L, Relinked(st.L, x, r, i), st.nodes, size1, x, r, st.chunks[r]);
    assert (size1 - {x})[r := st.chunks[r]] == st.chunks - {x};
    IndexedDrop(st.index, st.chunks, x);
    TreeMarksRename(st.treemap, st.L.roots, Relinked(st.L, x, r, i).roots, x, r);
  }

  lemma SameRefl(a: nat, e: nat)
    ensures Same(a, a, e)
  {
  }

  lemma NodeSizesUnique(L: Trie, nodes: Levels, size: Sizes, x: int, r: int)
    requires Shape(L, nodes, size) && x in nodes && x in size && r in size && r != x && size[r] == size[x]
    ensures r !in nodes
  {
  }

  lemma NodeSizesUniqueAll(L: Trie, nodes: Levels, size: Sizes, x: int)
    requires Shape(L, nodes, size) && x in nodes && x in size
    ensures forall u :: u in nodes && u in size && u != x ==> size[u] != size[x]
  {
  }

  /** `r` is a node strictly below `x`, hanging in slot `d` of `p`. */
  ghost predicate Below(st: TreeState, x: int, r: int, p: int, d: int) {
    && r in st.nodes && r in st.chunks && x in st.nodes && x in st.chunks && r != 0
    && st.nodes[r] < st.nodes[x] && Same(st.chunks[r], st.chunks[x], st.nodes[x])
    && 0 <= d < 2 && Child(st.L, p, d) == r && p in st.nodes && p in st.chunks
  }

  /** The end of the walk from `t` that goes right whenever it can, and at most `n` levels down. */
  ghost function RightLeaf(L: Trie, t: int, n: nat): int
    decreases n
  {
    var c := if Child(L, t, 1) != 0 then Child(L, t, 1) else Child(L, t, 0);
    if c == 0 || n == 0 then t else RightLeaf(L, c, n - 1)
  }

  /** Which chunks are trie nodes, and at which level, once `x` is gone: a plain ring member leaves the trie
      alone; the place of a node goes to the twin behind it, or else to its right-first leaf. */
  ghost function NodesWithout(st: TreeState, x: int): Levels {
    if x !in st.nodes then st.nodes
    else if Sel(st.bk, x) != x then (st.nodes - {x})[Sel(st.bk, x) := st.nodes[x]]
    else
      var r := RightLeaf(st.L, x, st.nodes[x]);
      if r == x then st.nodes - {x} else (st.nodes - {r} - {x})[r := st.nodes[x]]
  }

  lemma ChildBelow(st: TreeState, x: int, d: int)
    requires TreesOk(st) && x in st.nodes && x in st.chunks && 0 <= d < 2 && Child(st.L, x, d) != 0
    ensures Below(st, x, Child(st.L, x, d), x, d) && st.nodes[x] == st.nodes[Child(st.L, x, d)] + 1
  {
    hide TreeIndex, Child, Sel, Rings, TreeMarks, Shape, Indexed, Same, Dir;
    var c := ChildOf(st.L, st.nodes, st.chunks, x, d);
    SameTop(st.chunks[c], st.chunks[x], st.nodes[x]);
  }

  lemma FurtherBelow(st: TreeState, x: int, r: int, p: int, b: int, d: int)
    requires TreesOk(st) && Below(st, x, r, p, b) && 0 <= d < 2 && Child(st.L, r, d) != 0
    ensures Below(st, x, Child(st.L, r, d), r, d) && st.nodes[r] == st.nodes[Child(st.L, r, d)] + 1
  {
    hide TreeIndex, Child, Sel, Rings, TreeMarks, Shape, Indexed, Same, Dir;
    var c := ChildOf(st.L, st.nodes, st.chunks, r, d);
    SameTop(st.chunks[c], st.chunks[r], st.nodes[r]);
    SameUp(st.chunks[c], st.chunks[r], st.nodes[r], st.nodes[x]);
    SameTrans(st.chunks[c], st.chunks[r], st.chunks[x], st.nodes[x]);
  }

  /** `*RP = 0`, then `x` renamed to the leaf. */
  ghost function LeafMoved(st: TreeState, x: int, r: int, p: int, d: int, i: Idx): TreeState
    requires |st.L.roots| == NTREEBINS && x in st.nodes
  {
    st.(L := Relinked(SetChild(st.L, p, d, 0), x, r, i), chunks := st.chunks - {x},
        nodes := (st.nodes - {r} - {x})[r := st.nodes[x]])
  }

  lemma BelowDetach(st: TreeState, x: int, r: int, p: int, d: int)
    requires TreesOk(st) && Below(st, x, r, p, d) && Child(st.L, r, 0) == 0 && Child(st.L, r, 1) == 0
    ensures DetachStep(st.L, SetChild(st.L, p, d, 0), st.nodes, st.chunks, r)
    ensures Child(SetChild(st.L, p, d, 0), r, 0) == 0 && Child(SetChild(st.L, p, d, 0), r, 1) == 0
  {
    hide TreeIndex, Child, Sel, Rings, TreeMarks, Shape, Indexed, Same, Dir;
    var L1 := SetChild(st.L, p, d, 0);
    ChildStore(st.L, p, d, 0);
    NodeFacts(st.L, st.nodes, st.chunks, r);
    NodeFacts(st.L, st.nodes, st.chunks, x);
    SameTop(st.chunks[r], st.chunks[x], st.nodes[x]);
    var c := ChildOf(st.L, st.nodes, st.chunks, p, d);
  }

  /** A node without twins leaves: a leaf below it takes its place. */
  lemma InnerUnlinked(st: TreeState, x: int, r: int, p: int, d: int, i: Idx)
    requires TreesOk(st) && Below(st, x, r, p, d) && Child(st.L, r, 0) == 0 && Child(st.L, r, 1) == 0
    requires Sel(st.bk, x) == x && i == Bin(st.chunks[x]) && |st.L.roots| == NTREEBINS
    ensures TreesOk(LeafMoved(st, x, r, p, d, i))
  {
    hide TreeIndex, Child, Sel, Rings, TreeMarks, Shape, Indexed, Relinked, Same, Dir, SetChild;
    TreeShape(st);
    var L1 := SetChild(st.L, p, d, 0);
    BelowDetach(st, x, r, p, d);
    DetachLeaf(st.L, L1, st.nodes, st.chunks, r);
    var nodes1, size1 := st.nodes - {r}, st.chunks - {r};
    NodeSizesUniqueAll(st.L, st.nodes, st.chunks, r);
    RelinkedIsReplace(L1, nodes1, size1, x, r, st.chunks[r], i);
    ReplaceNode(L1, Relinked(L1, x, r, i), nodes1, size1, x, r, st.chunks[r]);
    assert (size1 - {x})[r := st.chunks[r]] == st.chunks - {x};
    var nodes' := (st.nodes - {r} - {x})[r := st.nodes[x]];
    RingsDrop(st.fd, st.bk, st.nodes, st.chunks, st.stamp, st.clock, x, nodes');
    IndexedDrop(st.index, st.chunks, x);
    assert L1.roots == st.L.roots by { SetChildRoots(st.L, p, d, 0); }
    TreeMarksRename(st.treemap, st.L.roots, Relinked(L1, x, r, i).roots, x, r);
  }

  lemma SetChildRoots(L: Trie, p: int, d: int, v: int)
    ensures SetChild(L, p, d, v).roots == L.roots && SetChild(L, p, d, v).parent == L.parent
  {
  }

  /** The slot of a childless node without twins becomes empty, and with the root the bin. */
  ghost function SlotCleared(st: TreeState, x: int, i: Idx): TreeState
    requires |st.L.roots| == NTREEBINS
  {
    var xp := Sel(st.L.parent, x);
    var st1 := if st.L.roots[i] == x then st.(L := st.L.(roots := st.L.roots[i := 0]),
                                              treemap := ClearBin(st.treemap, i))
               else st.(L := SetChild(st.L, xp, if Child(st.L, xp, 0) == x then 0 else 1, 0));
    st1.(chunks := st.chunks - {x}, nodes := st.nodes - {x})
  }

  lemma LeafUnlinked(st: TreeState, x: int, i: Idx)
    requires TreesOk(st) && x in st.nodes && x in st.chunks && Child(st.L, x, 0) == 0 && Child(st.L, x, 1) == 0
    requires Sel(st.bk, x) == x && i == Bin(st.chunks[x]) && |st.L.roots| == NTREEBINS
    ensures TreesOk(SlotCleared(st, x, i))
  {
    hide TreeIndex, Child, Sel, Rings, TreeMarks, Shape, Indexed, Same, SetChild, Dir, ClearBin;
    var st' := SlotCleared(st, x, i);
    NodeFacts(st.L, st.nodes, st.chunks, x);
    var xp := Sel(st.L.parent, x);
    if st.L.roots[i] == x {
      TreeMarksClear(st.treemap, st.L.roots, i);
    } else {
      var p := ParentOf(st.L, st.nodes, st.chunks, x);
      var b := if Child(st.L, xp, 0) == x then 0 else 1;
      assert Child(st.L, xp, b) == x;
      var c := ChildOf(st.L, st.nodes, st.chunks, xp, b);
      ChildStore(st.L, xp, b, 0);
      SetChildRoots(st.L, xp, b, 0);
    }
    DetachLeaf(st.L, st'.L, st.nodes, st.chunks, x);
    RingsDrop(st.fd, st.bk, st.nodes, st.chunks, st.stamp, st.clock, x, st.nodes - {x});
    IndexedDrop(st.index, st.chunks, x);
  }

  // ---- what the operations leave alone ----

  /** The memory fields of the tree chunk at `a`. */
  ghost predicate SameAt(st: TreeState, st': TreeState, a: int) {
    && Child(st'.L, a, 0) == Child(st.L, a, 0) && Child(st'.L, a, 1) == Child(st.L, a, 1)
    && Sel(st'.L.parent, a) == Sel(st.L.parent, a)
    && Sel(st'.fd, a) == Sel(st.fd, a) && Sel(st'.bk, a) == Sel(st.bk, a) && Sel(st'.index, a) == Sel(st.index, a)
  }

  /** Only fields of chunks in `A` are written. */
  ghost predicate Spares(st: TreeState, st': TreeState, A: set<int>) {
    forall a :: a !in A ==> SameAt(st, st', a)
  }

  lemma SparesTrans(st0: TreeState, st1: TreeState, st2: TreeState, A: set<int>)
    requires Spares(st0, st1, A) && Spares(st1, st2, A)
    ensures Spares(st0, st2, A)
  {
    hide Sel, Child;
    forall a | a !in A
      ensures SameAt(st0, st2, a)
    {
      assert SameAt(st0, st1, a) && SameAt(st1, st2, a);
    }
  }

  lemma InsertSpares(st: TreeState, x: int, s: nat, i: Idx, A: set<int>)
    requires x in A
    ensures Spares(st, Prepared(st, x, s), A)
    ensures |st.L.roots| == NTREEBINS ==> Spares(st, WithRoot(st, x, s, i), A)
  {
    hide Bin, Top, Slot, MarkBin;
  }

  lemma LeafSpares(st: TreeState, x: int, s: nat, t: int, b: int, A: set<int>)
    requires t in st.nodes && st.nodes[t] >= 1 && x in A && t in A
    ensures Spares(st, WithLeaf(st, x, s, t, b), A)
  {
  }

  lemma TwinSpares(st: TreeState, x: int, t: int, A: set<int>)
    requires t in st.chunks && t in A && Sel(st.fd, t) in A && x in A
    ensures Spares(st, WithTwin(st, x, t), A)
  {
  }

  lemma LinksIn(st: TreeState, x: int)
    requires TreesOk(st) && x in st.chunks
    ensures Sel(st.fd, x) in st.chunks && Sel(st.bk, x) in st.chunks
  {
    hide Shape, TreeMarks, Indexed, Rings, Sel;
    RingFacts(st.fd, st.bk, st.nodes, st.chunks, st.stamp, st.clock, x);
  }

  lemma RingLeftSpares(st: TreeState, x: int)
    requires Sel(st.fd, x) in st.chunks && Sel(st.bk, x) in st.chunks
    ensures Spares(st, RingLeft(st, x), st.chunks.Keys)
    ensures Spares(st, RingLeft(st, x).(chunks := st.chunks - {x}), st.chunks.Keys)
  {
  }

  lemma RelinkedSpares(L: Trie, nodes: Levels, size: Sizes, x: int, r: int, s: nat, i: Idx, a: int)
    requires RelinkPre(L, nodes, size, x, r, s, i) && |L.roots| == NTREEBINS
    requires a !in nodes && a != r
    ensures Child(Relinked(L, x, r, i), a, 0) == Child(L, a, 0) && Child(Relinked(L, x, r, i), a, 1) == Child(L, a, 1)
    ensures Sel(Relinked(L, x, r, i).parent, a) == Sel(L.parent, a)
  {
    hide Shr, TreeIndex, Child, Dir, Sel, Shape, Top, Same;
    NotANode(L, nodes, size, r);
    var L1 := SlotRedirected(L, nodes, size, x, r, s, i);
    ChildNotSelf(L, nodes, size, x, 0);
    ChildNotSelf(L, nodes, size, x, 1);
    var L' := RelinkedFields(L, L1, x, r, Sel(L.parent, x));
    assert Child(L1, x, 0) == Child(L, x, 0) && Child(L1, x, 1) == Child(L, x, 1);
  }

  lemma HeadSpares(st: TreeState, x: int, i: Idx)
    requires TreesOk(st) && x in st.chunks && x in st.nodes && Sel(st.bk, x) != x
    requires i == Bin(st.chunks[x]) && |st.L.roots| == NTREEBINS
    ensures Spares(st, RingLeft(st, x).(L := Relinked(st.L, x, Sel(st.bk, x), i), chunks := st.chunks - {x},
                                        nodes := (st.nodes - {x})[Sel(st.bk, x) := st.nodes[x]]), st.chunks.Keys)
  {
    hide TreeIndex, Child, Sel, Rings, TreeMarks, Shape, Indexed, Relinked, Same, Spares;
    TreeShape(st);
    LinksIn(st, x);
    NodesIn(st);
    var r := Sel(st.bk, x);
    assert RingOk(st.fd, st.bk, st.nodes, st.chunks, st.stamp, st.clock, x) by {
      RingFacts(st.fd, st.bk, st.nodes, st.chunks, st.stamp, st.clock, x);
    }
    NodeSizesUnique(st.L, st.nodes, st.chunks, x, r);
    ForgetTwin(st.L, st.nodes, st.chunks, r);
    NonNodeFields(st.L, st.nodes, st.chunks, r);
    var size1 := st.chunks - {r};
    NodeSizesUniqueAll(st.L, st.nodes, st.chunks, x);
    SameRefl(st.chunks[x], st.nodes[x]);
    var st1 := RingLeft(st, x);
    RingLeftSpares(st, x);
    SparesTrie(st1, Relinked(st.L, x, r, i), st.nodes, size1, x, r, st.chunks[r], i, st.chunks.Keys);
    var st2 := st1.(L := Relinked(st.L, x, r, i));
    SparesTrans(st, st1, st2, st.chunks.Keys);
    SparesFields(st, st2.(chunks := st.chunks - {x}, nodes := (st.nodes - {x})[r := st.nodes[x]]), st2, st.chunks.Keys);
  }

  lemma SparesTrie(st: TreeState, L': Trie, nodes: Levels, size: Sizes, x: int, r: int, s: nat, i: Idx, A: set<int>)
    requires RelinkPre(st.L, nodes, size, x, r, s, i) && |st.L.roots| == NTREEBINS
    requires nodes.Keys <= A && r in A && L' == Relinked(st.L, x, r, i)
    ensures Spares(st, st.(L := L'), A)
  {
    hide TreeIndex, Child, Sel, RelinkPre, Relinked;
    forall a | a !in A
      ensures SameAt(st, st.(L := L'), a)
    {
      RelinkedSpares(st.L, nodes, size, x, r, s, i, a);
    }
  }

  lemma InnerSpares(st: TreeState, x: int, r: int, p: int, d: int, i: Idx)
    requires TreesOk(st) && Below(st, x, r, p, d) && Child(st.L, r, 0) == 0 && Child(st.L, r, 1) == 0
    requires i == Bin(st.chunks[x]) && |st.L.roots| == NTREEBINS
    ensures Spares(st, LeafMoved(st, x, r, p, d, i), st.chunks.Keys)
  {
    hide TreeIndex, Child, Sel, Rings, TreeMarks, Shape, Indexed, Relinked, Same, Dir, SetChild, Spares;
    TreeShape(st);
    NodesIn(st);
    var L1 := SetChild(st.L, p, d, 0);
    BelowDetach(st, x, r, p, d);
    DetachLeaf(st.L, L1, st.nodes, st.chunks, r);
    var nodes1, size1 := st.nodes - {r}, st.chunks - {r};
    NodeSizesUniqueAll(st.L, st.nodes, st.chunks, r);
    assert L1.roots == st.L.roots by { SetChildRoots(st.L, p, d, 0); }
    SetChildSpares(st, p, d, 0, st.chunks.Keys);
    SparesTrie(st.(L := L1), Relinked(L1, x, r, i), nodes1, size1, x, r, st.chunks[r], i, st.chunks.Keys);
    SparesTrans(st, st.(L := L1), st.(L := Relinked(L1, x, r, i)), st.chunks.Keys);
    SparesFields(st, LeafMoved(st, x, r, p, d, i), st.(L := Relinked(L1, x, r, i)), st.chunks.Keys);
  }

  lemma NodesIn(st: TreeState)
    requires TreesOk(st)
    ensures st.nodes.Keys <= st.chunks.Keys
  {
    hide Shape, Rings, TreeMarks, Indexed;
    TreeShape(st);
    forall t | t in st.nodes.Keys
      ensures t in st.chunks.Keys
    {
      assert t in st.nodes;
    }
  }

  lemma SetChildSpares(st: TreeState, p: int, d: int, v: int, A: set<int>)
    requires p in A
    ensures Spares(st, st.(L := SetChild(st.L, p, d, v)), A)
  {
  }

  lemma SlotSpares(st: TreeState, x: int, i: Idx)
    requires TreesOk(st) && x in st.nodes && x in st.chunks && i == Bin(st.chunks[x]) && |st.L.roots| == NTREEBINS
    ensures Spares(st, SlotCleared(st, x, i), st.chunks.Keys)
  {
    hide TreeIndex, Child, Sel, Rings, TreeMarks, Shape, Indexed, Same, SetChild, Dir, ClearBin, Spares;
    TreeShape(st);
    NodeFacts(st.L, st.nodes, st.chunks, x);
    if st.L.roots[i] != x {
      var p := ParentOf(st.L, st.nodes, st.chunks, x);
      SetChildSpares(st, p, if Child(st.L, p, 0) == x then 0 else 1, 0, st.chunks.Keys);
    }
    SparesFields(st, SlotCleared(st, x, i), if st.L.roots[i] == x then st else
                 st.(L := SetChild(st.L, Sel(st.L.parent, x),
                                   if Child(st.L, Sel(st.L.parent, x), 0) == x then 0 else 1, 0)), st.chunks.Keys);
  }

  /** Bin pointers, map and ghost view are not fields of chunks. */
  lemma SparesFields(st: TreeState, st1: TreeState, st2: TreeState, A: set<int>)
    requires st1.L.child0 == st2.L.child0 && st1.L.child1 == st2.L.child1 && st1.L.parent == st2.L.parent
    requires st1.fd == st2.fd && st1.bk == st2.bk && st1.index == st2.index
    requires st2 == st || Spares(st, st2, A)
    ensures Spares(st, st1, A)
  {
    forall a | a !in A
      ensures SameAt(st, st1, a)
    {
      if st2 != st {
        assert SameAt(st, st2, a);
      }
    }
  }

  /** What the allocator stores: the tree fields of memory, the bin pointers and the map. */
  datatype TreeMem = TreeMem(L: Trie, fd: map<int, int>, bk: map<int, int>, index: map<int, int>, treemap: BinMap)

  /** What the proofs track: the chunks with their sizes, the node levels, the ring stamps. */
  datatype TreeView = TreeView(chunks: Sizes, nodes: Levels, stamp: map<int, int>, clock: int)

  class TreeBins {
    var mem: TreeMem
    ghost var view: TreeView

    ghost function State(): TreeState
      reads this
    {
      TreeState(mem.L, mem.fd, mem.bk, mem.index, mem.treemap, view.chunks, view.nodes, view.stamp, view.clock)
    }

    /** The binned chunks with their sizes. */
    ghost function Chunks(): Sizes
      reads this
    {
      view.chunks
    }

    ghost predicate Valid()
      reads this
    {
      TreesOk(State())
    }

    /** The head words of the binned chunks carry their sizes. */
    ghost predicate SizesIn(tags: TagMem)
      reads this
    {
      forall c :: c in Chunks() ==> Size(tags, c) == Chunks()[c]
    }

    constructor ()
      ensures Valid() && Chunks() == map[]
    {
      mem := TreeMem(Trie(map[], map[], map[], seq(32, _ => 0)), map[], map[], map[], EMPTY_MAP);
      view := TreeView(map[], map[], map[], 0);
      new;
      NoBinMarked(EMPTY_MAP);
    }

    method Prepare(x: int, i: int, ghost s: nat)
      requires i == Bin(s)
      modifies this
      ensures State() == Prepared(old(State()), x, s)
    {
      hide TreeIndex;
      mem := mem.(index := mem.index[x := i]);
      mem := mem.(L := mem.L.(child0 := mem.L.child0[x := 0], child1 := mem.L.child1[x := 0]));
    }

    method PutRoot(x: int, i: Idx, ghost s: nat)
      requires |mem.L.roots| == NTREEBINS
      modifies this
      ensures State() == WithRoot(old(State()), x, s, i)
    {
      hide MarkBin, Top, Slot;
      mem := mem.(treemap := MarkBin(mem.treemap, i));
      mem := mem.(L := mem.L.(roots := mem.L.roots[i := x]));
      mem := mem.(L := mem.L.(parent := mem.L.parent[x := Slot(i)]));
      mem := mem.(fd := mem.fd[x := x], bk := mem.bk[x := x]);
      view := TreeView(view.chunks[x := s], view.nodes[x := Top(s)], view.stamp[x := view.clock], view.clock + 1);
    }

    method HangUnder(x: int, t: int, b: int, ghost s: nat)
      requires t in view.nodes && view.nodes[t] >= 1
      modifies this
      ensures State() == WithLeaf(old(State()), x, s, t, b)
    {
      mem := mem.(L := SetChild(mem.L, t, b, x));
      mem := mem.(L := mem.L.(parent := mem.L.parent[x := t]));
      mem := mem.(fd := mem.fd[x := x], bk := mem.bk[x := x]);
      view := TreeView(view.chunks[x := s], view.nodes[x := view.nodes[t] - 1], view.stamp[x := view.clock],
                       view.clock + 1);
    }

    method JoinRing(x: int, t: int)
      requires t in view.chunks
      modifies this
      ensures State() == WithTwin(old(State()), x, t)
    {
      hide Sel;
      var f := Sel(mem.fd, t);
      mem := mem.(fd := mem.fd[t := x]);
      mem := mem.(bk := mem.bk[f := x]);
      mem := mem.(fd := mem.fd[x := f]);
      mem := mem.(bk := mem.bk[x := t]);
      mem := mem.(L := mem.L.(parent := mem.L.parent[x := 0]));
      view := TreeView(view.chunks[x := view.chunks[t]], view.nodes, view.stamp[x := view.clock], view.clock + 1);
    }

    /** `insert_large_chunk` */
    method Insert(x: int, s: nat, tags: TagMem)
      requires Valid() && SizesIn(tags)
      requires 0 < x && x !in Chunks() && MIN_LARGE_SIZE <= s < WORD
      modifies this
      ensures Valid()
      ensures Chunks() == old(Chunks())[x := s]
      ensures Spares(old(State()), State(), Chunks().Keys)
    {
      hide TreesOk, TreeIndex, IsMarked, Shl, KeyWord, OnPath, Fresh, Top, Spares;
      BinRange(s);
      var i := TreeIndex(s);
      ghost var st := State();
      PreparedFresh(st, x, s);
      InsertSpares(st, x, s, i, Chunks().Keys + {x});
      Prepare(x, i, s);
      InsertSpares(State(), x, s, i, Chunks().Keys + {x});
      FreshOk(State(), x, s);
      MarkedRoot(State(), i);
      if !IsMarked(mem.treemap, i) {
        WithRootOk(State(), x, s, i);
        PutRoot(x, i, s);
      } else {
        PathStarts(State(), s, i);
        KeyInit(s, i);
        InsertBelow(x, s, mem.L.roots[i], Shl(s, LeftShift(i)), tags);
      }
      assert Chunks().Keys == old(Chunks()).Keys + {x};
      SparesTrans(st, Prepared(st, x, s), State(), Chunks().Keys);
    }

    /** The loop of `insert_large_chunk`, entered at the root of a non-empty bin. */
    method InsertBelow(x: int, s: nat, root: int, key: nat, tags: TagMem)
      requires Fresh(State(), x, s) && SizesIn(tags)
      requires OnPath(State(), s, root) && key == KeyWord(s, view.nodes[root])
      modifies this
      ensures Valid()
      ensures Chunks() == old(Chunks())[x := s]
      ensures Spares(old(State()), State(), Chunks().Keys)
    {
      hide TreesOk, Fresh, Shl, KeyWord, Same, Dir, Sel, Spares;
      var t, k := root, key;
      FreshOk(State(), x, s);
      while Size(tags, t) != s
        invariant State() == old(State())
        invariant OnPath(State(), s, t) && k == KeyWord(s, view.nodes[t])
        decreases view.nodes[t]
      {
        PathStep(State(), s, t);
        KeyBit(s, view.nodes[t]);
        var b := BranchBit(k, s, view.nodes[t]);
        k := Shl(k, 1);
        var c := Child(mem.L, t, b);
        if c != 0 {
          t := c;
        } else {
          WithLeafOk(State(), x, s, t, b);
          LeafSpares(State(), x, s, t, b, Chunks()[x := s].Keys);
          HangUnder(x, t, b, s);
          return;
        }
      }
      WithTwinOk(State(), x, t);
      LinksIn(State(), t);
      TwinSpares(State(), x, t, Chunks()[x := s].Keys);
      JoinRing(x, t);
    }

    /** `unlink_large_chunk` */
    method Unlink(x: int)
      requires Valid() && x in Chunks()
      modifies this
      ensures Valid()
      ensures Chunks() == old(Chunks()) - {x} && view.nodes == NodesWithout(old(State()), x)
      ensures Spares(old(State()), State(), old(Chunks()).Keys)
    {
      hide TreesOk, Sel, Child, Relinked, Spares, RightLeaf;
      ghost var st := State();
      NodeHasParent(st, x);
      var xp := Sel(mem.L.parent, x);
      var i := Sel(mem.index, x);
      var r := Sel(mem.bk, x);
      if r != x {
        LinksIn(st, x);
        BackIsChunk(st, x);
        LeaveRing(x);
        if xp != 0 {
          HeadUnlinked(st, x, i);
          HeadSpares(st, x, i);
          view := view.(chunks := view.chunks - {x}, nodes := (view.nodes - {x})[r := view.nodes[x]]);
          Relink(x, r, xp, i);
        } else {
          TwinUnlinked(st, x);
          RingLeftSpares(st, x);
          view := view.(chunks := view.chunks - {x});
        }
      } else {
        LonelyHead(st, x);
        var p, d;
        r, p, d := DescendToLeaf(x);
        if r != 0 {
          InnerUnlinked(st, x, r, p, d, i);
          InnerSpares(st, x, r, p, d, i);
          view := view.(chunks := view.chunks - {x}, nodes := (view.nodes - {r} - {x})[r := view.nodes[x]]);
          mem := mem.(L := SetChild(mem.L, p, d, 0));
          assert xp == Sel(mem.L.parent, x) by { SetChildRoots(st.L, p, d, 0); }
          assert mem.L.roots == st.L.roots by { SetChildRoots(st.L, p, d, 0); }
          Relink(x, r, xp, i);
        } else {
          LeafUnlinked(st, x, i);
          SlotSpares(st, x, i);
          view := view.(chunks := view.chunks - {x}, nodes := view.nodes - {x});
          ClearSlot(x, xp, i);
        }
      }
    }

    /** `F->bk = R; R->fd = F` */
    method LeaveRing(x: int)
      modifies this`mem
      ensures mem == old(mem).(bk := old(mem).bk[Sel(old(mem).fd, x) := Sel(old(mem).bk, x)],
                               fd := old(mem).fd[Sel(old(mem).bk, x) := Sel(old(mem).fd, x)])
    {
      hide Sel;
      var f, r := Sel(mem.fd, x), Sel(mem.bk, x);
      mem := mem.(bk := mem.bk[f := r]);
      mem := mem.(fd := mem.fd[r := f]);
    }

    /** The replacement `r` of `x`: the leaf reached from `x` by going right whenever possible, with the
        slot it hangs in; 0 when `x` is itself a leaf. */
    method DescendToLeaf(x: int) returns (r: int, p: int, d: int)
      requires Valid() && x in view.nodes && x in view.chunks
      ensures r == 0 ==> Child(mem.L, x, 0) == 0 && Child(mem.L, x, 1) == 0
      ensures r != 0 ==> Below(State(), x, r, p, d) && Child(mem.L, r, 0) == 0 && Child(mem.L, r, 1) == 0
      ensures RightLeaf(mem.L, x, view.nodes[x]) == if r == 0 then x else r
    {
      hide TreesOk, Child, Same;
      p, d := x, 1;
      r := Child(mem.L, p, d);
      if r == 0 {
        d := 0;
        r := Child(mem.L, p, d);
      }
      if r != 0 {
        ChildBelow(State(), x, d);
        while Child(mem.L, r, 1) != 0 || Child(mem.L, r, 0) != 0
          invariant r != 0 && Below(State(), x, r, p, d)
          invariant RightLeaf(mem.L, x, view.nodes[x]) == RightLeaf(mem.L, r, view.nodes[r])
          decreases view.nodes[r]
        {
          var e := if Child(mem.L, r, 1) != 0 then 1 else 0;
          FurtherBelow(State(), x, r, p, d, e);
          p, d := r, e;
          r := Child(mem.L, p, d);
        }
      }
    }

    /** `x`'s parent slot and children are handed to `r`. */
    method Relink(x: int, r: int, xp: int, i: Idx)
      requires |mem.L.roots| == NTREEBINS && xp == Sel(mem.L.parent, x) && r != 0
      modifies this`mem
      ensures mem == old(mem).(L := Relinked(old(mem).L, x, r, i))
    {
      hide Sel, Child, SetChild;
      if mem.L.roots[i] == x {
        mem := mem.(L := mem.L.(roots := mem.L.roots[i := r]));
      } else {
        mem := mem.(L := SetChild(mem.L, xp, if Child(mem.L, xp, 0) == x then 0 else 1, r));
      }
      mem := mem.(L := mem.L.(parent := mem.L.parent[r := xp]));
      Adopt(x, r, 0);
      Adopt(x, r, 1);
    }

    method Adopt(x: int, r: int, d: int)
      modifies this`mem
      ensures mem == old(mem).(L := Adopted(old(mem).L, x, r, d))
    {
      hide Sel, Child, SetChild;
      var c := Child(mem.L, x, d);
      if c != 0 {
        mem := mem.(L := SetChild(mem.L, r, d, c));
        mem := mem.(L := mem.L.(parent := mem.L.parent[c := r]));
      }
    }

    method ClearSlot(x: int, xp: int, i: Idx)
      requires |mem.L.roots| == NTREEBINS && xp == Sel(mem.L.parent, x)
      modifies this`mem
      ensures mem == if old(mem).L.roots[i] == x
                     then old(mem).(L := old(mem).L.(roots := old(mem).L.roots[i := 0]),
                                    treemap := ClearBin(old(mem).treemap, i))
                     else old(mem).(L := SetChild(old(mem).L, xp, if Child(old(mem).L, xp, 0) == x then 0 else 1, 0))
    {
      hide Sel, Child, SetChild, ClearBin;
      if mem.L.roots[i] == x {
        mem := mem.(L := mem.L.(roots := mem.L.roots[i := 0]));
        mem := mem.(treemap := ClearBin(mem.treemap, i));
      } else {
        mem := mem.(L := SetChild(mem.L, xp, if Child(mem.L, xp, 0) == x then 0 else 1, 0));
      }
    }
  }

  lemma BackIsChunk(st: TreeState, x: int)
    requires TreesOk(st) && x in st.chunks
    ensures Sel(st.bk, x) in st.chunks && Sel(st.bk, x) != 0
  {
    hide Sel, Rings, Shape;
    TreeShape(st);
    RingFacts(st.fd, st.bk, st.nodes, st.chunks, st.stamp, st.clock, x);
  }

  lemma LonelyHead(st: TreeState, x: int)
    requires TreesOk(st) && x in st.chunks && Sel(st.bk, x) == x
    ensures x in st.nodes
  {
    hide Sel, Rings, Shape;
    LonelyIsNode(st.fd, st.bk, st.nodes, st.chunks, st.stamp, st.clock, x);
  }

  /** `(K >> (SIZE_T_BITSIZE - 1)) & 1` */
  function BranchBit(k: nat, ghost s: nat, ghost e: nat): (b: int)
    requires 1 <= e <= 32 && k == KeyWord(s, e)
    ensures b == Dir(s, e - 1)
  {
    KeyBit(s, e);
    k / 0x8000_0000 % 2
  }

  lemma FreshOk(st: TreeState, x: int, s: nat)
    requires Fresh(st, x, s)
    ensures TreesOk(st) && x !in st.chunks
  {
  }

  lemma MarkedRoot(st: TreeState, i: Idx)
    requires TreesOk(st)
    ensures |st.L.roots| == NTREEBINS && (IsMarked(st.treemap, i) <==> st.L.roots[i] != 0)
  {
    hide Shape, Rings, TreeMarks, IsMarked;
    TreeMarked(st.treemap, st.L.roots, i);
  }
}
