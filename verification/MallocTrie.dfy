/** The tries of the 32 tree bins, as a relation between link fields and the sizes of the chunks.
    A node at level `e` stands for one value of the size bits from `e` up; its children split on
    bit `e - 1`. */
module MallocTrie {
  import opened MallocSizes
  import opened MallocTreeIndex
  import opened MallocSmallBins

  /** The tree link fields of memory. `roots` is the array of bin pointers. */
  datatype Trie = Trie(child0: map<int, int>, child1: map<int, int>, parent: map<int, int>, roots: seq<int>)

  /** The address of bin pointer `i`, kept as the parent of the root; it lies outside every heap segment. */
  function Slot(i: nat): int {
    -100 - i
  }

  function Child(L: Trie, t: int, b: int): int {
    if b == 0 then Sel(L.child0, t) else Sel(L.child1, t)
  }

  function SetChild(L: Trie, t: int, b: int, v: int): Trie {
    if b == 0 then L.(child0 := L.child0[t := v]) else L.(child1 := L.child1[t := v])
  }

  /** The bit a node at level `e` is filed under in its parent. */
  function Dir(s: nat, e: nat): (d: nat)
    ensures d < 2
  {
    Shr(s, e) % 2
  }

  /** Two sizes of one bin that agree on all bits from `e` up. */
  ghost predicate Same(a: nat, b: nat, e: nat) {
    TreeIndex(a) == TreeIndex(b) && Shr(a, e) == Shr(b, e)
  }

  ghost function Bin(s: nat): int {
    TreeIndex(s)
  }

  ghost function Top(s: nat): nat {
    if 0 <= TreeIndex(s) < NTREEBINS then RootExp(TreeIndex(s)) else 0
  }

  type Sizes = map<int, nat>
  type Levels = map<int, nat>

  ghost predicate LargeSizes(size: Sizes) {
    forall c :: c in size ==> 0 < c && MIN_LARGE_SIZE <= size[c] < WORD
  }

  ghost predicate RootsOk(L: Trie, nodes: Levels, size: Sizes) {
    && |L.roots| == NTREEBINS
    && (forall i :: 0 <= i < NTREEBINS && L.roots[i] != 0 ==>
          L.roots[i] in nodes && L.roots[i] in size && Bin(size[L.roots[i]]) == i)
    && (forall t :: t in nodes && t in size && 0 <= Bin(size[t]) < NTREEBINS ==>
          (nodes[t] == Top(size[t]) <==> L.roots[Bin(size[t])] == t))
  }

  ghost predicate UpOk(L: Trie, nodes: Levels, size: Sizes, t: int)
    requires t in nodes && t in size
  {
    var p := Sel(L.parent, t);
    if nodes[t] == Top(size[t]) then p == Slot(if Bin(size[t]) >= 0 then Bin(size[t]) else 0)
    else p in nodes && p in size && nodes[p] == nodes[t] + 1 && Same(size[p], size[t], nodes[p])
         && Child(L, p, Dir(size[t], nodes[t])) == t
  }

  ghost predicate DownOk(L: Trie, nodes: Levels, size: Sizes, t: int, b: int)
    requires t in nodes && t in size
  {
    var c := Child(L, t, b);
    c != 0 ==> c in nodes && c in size && nodes[t] == nodes[c] + 1 && Same(size[t], size[c], nodes[t])
               && Dir(size[c], nodes[c]) == b && Sel(L.parent, c) == t
  }

  /** The trie invariant: `nodes` gives every tree node its level, `size` every chunk its size. */
  ghost predicate Shape(L: Trie, nodes: Levels, size: Sizes) {
    && LargeSizes(size)
    && (forall t :: t in nodes ==> t in size && nodes[t] <= Top(size[t]))
    && RootsOk(L, nodes, size)
    && (forall t :: t in nodes ==> UpOk(L, nodes, size, t))
    && (forall t, b :: t in nodes && 0 <= b < 2 ==> DownOk(L, nodes, size, t, b))
    && (forall t, u :: t in nodes && u in nodes && size[t] == size[u] ==> t == u)
    && (forall c :: c in size && c !in nodes ==> Sel(L.parent, c) == 0 && Child(L, c, 0) == 0 && Child(L, c, 1) == 0)
  }

  lemma BinRange(s: nat)
    requires MIN_LARGE_SIZE <= s < WORD
    ensures 0 <= Bin(s) < NTREEBINS && Top(s) == RootExp(Bin(s)) && Top(s) <= 32
  {
    hide TreeIndex;
    TreeIndexPrefix(s);
  }

  lemma SameUp(a: nat, b: nat, e: nat, f: nat)
    requires Same(a, b, e) && e <= f
    ensures Same(a, b, f)
  {
    hide Shr, TreeIndex;
    ShrAgree(a, b, e, f);
  }

  lemma SameDown(a: nat, b: nat, e: nat)
    requires Same(a, b, e + 1) && Dir(a, e) == Dir(b, e)
    ensures Same(a, b, e)
  {
    hide Shr, TreeIndex;
    ShrStep(a, e);
    ShrStep(b, e);
  }

  lemma SameAtTop(a: nat, b: nat)
    requires MIN_LARGE_SIZE <= a < WORD && MIN_LARGE_SIZE <= b < WORD && Bin(a) == Bin(b)
    ensures Top(a) == Top(b) && Same(a, b, Top(a))
  {
    hide Shr, TreeIndex;
    SameBinSameRoot(a, b);
  }

  lemma NodeFacts(L: Trie, nodes: Levels, size: Sizes, t: int)
    requires Shape(L, nodes, size) && t in nodes
    ensures t in size && 0 < t && MIN_LARGE_SIZE <= size[t] < WORD
    ensures 0 <= Bin(size[t]) < NTREEBINS && nodes[t] <= Top(size[t]) <= 32 && |L.roots| == NTREEBINS
    ensures nodes[t] == Top(size[t]) <==> L.roots[Bin(size[t])] == t
    ensures nodes[t] == Top(size[t]) ==> Sel(L.parent, t) == Slot(Bin(size[t]))
  {
    hide Shr, TreeIndex, Child;
    BinRange(size[t]);
    assert UpOk(L, nodes, size, t);
  }

  lemma ParentOf(L: Trie, nodes: Levels, size: Sizes, t: int) returns (p: int)
    requires Shape(L, nodes, size) && t in nodes && nodes[t] < Top(size[t])
    ensures p == Sel(L.parent, t) && p in nodes && p in size && p > 0 && t > 0
    ensures nodes[p] == nodes[t] + 1 && Same(size[p], size[t], nodes[p])
    ensures Child(L, p, Dir(size[t], nodes[t])) == t && Top(size[p]) == Top(size[t])
  {
    hide Shr, TreeIndex, Child, Dir;
    p := Sel(L.parent, t);
    assert UpOk(L, nodes, size, t);
  }

  lemma ChildOf(L: Trie, nodes: Levels, size: Sizes, t: int, b: int) returns (c: int)
    requires Shape(L, nodes, size) && t in nodes && 0 <= b < 2 && Child(L, t, b) != 0
    ensures c == Child(L, t, b) && c in nodes && c in size && c > 0
    ensures nodes[t] == nodes[c] + 1 && Same(size[t], size[c], nodes[t]) && Dir(size[c], nodes[c]) == b
    ensures Sel(L.parent, c) == t && Top(size[c]) == Top(size[t])
  {
    hide Shr, TreeIndex, Child, Dir;
    c := Child(L, t, b);
    assert DownOk(L, nodes, size, t, b);
  }

  /** At most one node stands for a given prefix. */
  lemma {:induction false} PositionUnique(L: Trie, nodes: Levels, size: Sizes, t: int, u: int)
    requires Shape(L, nodes, size) && t in nodes && u in nodes && t in size && u in size
    requires nodes[t] == nodes[u] && Same(size[t], size[u], nodes[t])
    ensures t == u
    decreases Top(size[t]) - nodes[t]
  {
    hide Shr, TreeIndex, Child, Shape;
    NodeFacts(L, nodes, size, t);
    NodeFacts(L, nodes, size, u);
    SameAtTop(size[t], size[u]);
    if nodes[t] < Top(size[t]) {
      var e := nodes[t];
      var p := ParentOf(L, nodes, size, t);
      var q := ParentOf(L, nodes, size, u);
      SameUp(size[t], size[u], e, e + 1);
      PositionUnique(L, nodes, size, p, q);
    }
  }

  /** Every prefix above a node is itself a node. */
  lemma {:induction false} Ancestor(L: Trie, nodes: Levels, size: Sizes, u: int, e: nat) returns (a: int)
    requires Shape(L, nodes, size) && u in nodes && u in size && nodes[u] <= e <= Top(size[u])
    ensures a in nodes && a in size && nodes[a] == e && Same(size[a], size[u], e)
    ensures a != u ==> e > nodes[u]
    decreases e - nodes[u]
  {
    hide Shr, TreeIndex, Child, Shape;
    if nodes[u] == e {
      a := u;
    } else {
      var p := ParentOf(L, nodes, size, u);
      a := Ancestor(L, nodes, size, p, e);
      SameUp(size[p], size[u], nodes[p], e);
    }
  }

  /** The child a size is filed under does not depend on which size of that prefix is asked. */
  lemma ChildOnPath(L: Trie, nodes: Levels, size: Sizes, t: int, u: int) returns (c: int)
    requires Shape(L, nodes, size) && t in nodes && u in nodes && t in size && u in size
    requires nodes[u] < nodes[t] && Same(size[u], size[t], nodes[t])
    ensures c == Child(L, t, Dir(size[u], nodes[t] - 1)) && c in nodes && c in size && c > 0
    ensures nodes[c] == nodes[t] - 1 && Same(size[u], size[c], nodes[c])
  {
    hide Shr, TreeIndex, Child, Shape;
    NodeFacts(L, nodes, size, t);
    SameUp(size[u], size[t], nodes[t], nodes[t]);
    var e := nodes[t] - 1;
    assert Top(size[u]) == Top(size[t]);
    c := Ancestor(L, nodes, size, u, e);
    var p := ParentOf(L, nodes, size, c);
    SameUp(size[c], size[u], e, e + 1);
    PositionUnique(L, nodes, size, p, t);
    NodeFacts(L, nodes, size, c);
  }

  // ---- updates, described pointwise ----

  ghost predicate ChildrenAre(L: Trie, L': Trie, x: int, b: int, v: int) {
    forall t, d {:trigger Child(L', t, d)} :: 0 <= d < 2 ==>
      Child(L', t, d) == if t == x && d == b then v else Child(L, t, d)
  }

  ghost predicate ParentsAre(L: Trie, L': Trie, x: int, v: int) {
    forall t {:trigger Sel(L'.parent, t)} :: Sel(L'.parent, t) == if t == x then v else Sel(L.parent, t)
  }

  ghost predicate AddStep(L: Trie, L': Trie, nodes: Levels, size: Sizes, x: int, s: nat, t: int, b: int) {
    && Shape(L, nodes, size)
    && 0 < x && x !in size && MIN_LARGE_SIZE <= s < WORD
    && t in nodes && t in size && nodes[t] >= 1 && Same(size[t], s, nodes[t])
    && 0 <= b < 2 && b == Dir(s, nodes[t] - 1) && Child(L, t, b) == 0
    && (forall u :: u in nodes && u in size ==> size[u] != s)
    && Child(L, x, 0) == 0 && Child(L, x, 1) == 0
    && L'.roots == L.roots && ChildrenAre(L, L', t, b, x) && ParentsAre(L, L', x, t)
  }

  lemma SameTop(a: nat, b: nat, e: nat)
    requires Same(a, b, e) || Same(b, a, e)
    ensures Top(a) == Top(b) && Bin(a) == Bin(b) && Same(a, b, e) && Same(b, a, e)
  {
  }

  lemma AddedIsUp(L: Trie, L': Trie, nodes: Levels, size: Sizes, x: int, s: nat, t: int, b: int)
    requires AddStep(L, L', nodes, size, x, s, t, b)
    ensures UpOk(L', nodes[x := nodes[t] - 1], size[x := s], x)
  {
    hide Shr, TreeIndex, Child, Dir, Sel, Shape, Top, LargeSizes, Same;
    NodeFacts(L, nodes, size, t);
    SameTop(s, size[t], nodes[t]);
    NotANode(L, nodes, size, x);
    assert Child(L', t, b) == x;
  }

  lemma AddKeepsUp(L: Trie, L': Trie, nodes: Levels, size: Sizes, x: int, s: nat, t: int, b: int, u: int)
    requires AddStep(L, L', nodes, size, x, s, t, b) && u in nodes
    ensures UpOk(L', nodes[x := nodes[t] - 1], size[x := s], u)
  {
    hide Shr, TreeIndex, Child, Dir, Sel, Shape, Top, LargeSizes, Same;
    NotANode(L, nodes, size, x);
    NodeFacts(L, nodes, size, u);
    if nodes[u] < Top(size[u]) {
      var p := ParentOf(L, nodes, size, u);
      assert Child(L', p, Dir(size[u], nodes[u])) == u;
    }
  }

  lemma NotANode(L: Trie, nodes: Levels, size: Sizes, x: int)
    requires Shape(L, nodes, size) && x !in size
    ensures x !in nodes
  {
  }

  lemma AddKeepsDown(L: Trie, L': Trie, nodes: Levels, size: Sizes, x: int, s: nat, t: int, b: int, u: int, d: int)
    requires AddStep(L, L', nodes, size, x, s, t, b) && (u == x || u in nodes) && 0 <= d < 2
    ensures DownOk(L', nodes[x := nodes[t] - 1], size[x := s], u, d)
  {
    hide Shr, TreeIndex, Child, Dir, Sel, RootsOk, UpOk;
    NodeFacts(L, nodes, size, t);
    if u != x {
      assert DownOk(L, nodes, size, u, d);
    }
  }

  lemma AddKeepsRoots(L: Trie, L': Trie, nodes: Levels, size: Sizes, x: int, s: nat, t: int, b: int)
    requires AddStep(L, L', nodes, size, x, s, t, b)
    ensures RootsOk(L', nodes[x := nodes[t] - 1], size[x := s])
    ensures nodes[t] - 1 <= Top(s)
  {
    hide Shr, TreeIndex, Child, Dir, Sel, UpOk, DownOk;
    NodeFacts(L, nodes, size, t);
    BinRange(s);
  }

  /** A childless node hung under `t` on the free side `b`. */
  lemma AddLeaf(L: Trie, L': Trie, nodes: Levels, size: Sizes, x: int, s: nat, t: int, b: int)
    requires AddStep(L, L', nodes, size, x, s, t, b)
    ensures Shape(L', nodes[x := nodes[t] - 1], size[x := s])
  {
    hide Shr, TreeIndex, Child, Dir, Sel, UpOk, DownOk, RootsOk;
    var nodes', size' := nodes[x := nodes[t] - 1], size[x := s];
    AddKeepsRoots(L, L', nodes, size, x, s, t, b);
    forall u | u in nodes'
      ensures UpOk(L', nodes', size', u)
    {
      if u == x {
        AddedIsUp(L, L', nodes, size, x, s, t, b);
      } else {
        AddKeepsUp(L, L', nodes, size, x, s, t, b, u);
      }
    }
    forall u, d | u in nodes' && 0 <= d < 2
      ensures DownOk(L', nodes', size', u, d)
    {
      AddKeepsDown(L, L', nodes, size, x, s, t, b, u, d);
    }
  }

  // ---- the first node of a bin ----

  lemma RootExists(L: Trie, nodes: Levels, size: Sizes, u: int) returns (r: int)
    requires Shape(L, nodes, size) && u in nodes && u in size
    ensures 0 <= Bin(size[u]) < |L.roots| && r == L.roots[Bin(size[u])] && r != 0
    ensures r in nodes && r in size && nodes[r] == Top(size[r]) && Bin(size[r]) == Bin(size[u])
  {
    hide Shr, TreeIndex, Child, Dir, Sel, Shape, Top;
    NodeFacts(L, nodes, size, u);
    r := Ancestor(L, nodes, size, u, Top(size[u]));
    SameTop(size[r], size[u], Top(size[u]));
    NodeFacts(L, nodes, size, r);
  }

  ghost predicate RootStep(L: Trie, L': Trie, nodes: Levels, size: Sizes, x: int, s: nat) {
    && Shape(L, nodes, size)
    && 0 < x && x !in size && MIN_LARGE_SIZE <= s < WORD
    && 0 <= Bin(s) < |L.roots| && L.roots[Bin(s)] == 0
    && L'.child0 == L.child0 && L'.child1 == L.child1
    && Child(L, x, 0) == 0 && Child(L, x, 1) == 0
    && L'.roots == L.roots[Bin(s) := x] && ParentsAre(L, L', x, Slot(Bin(s)))
  }

  lemma RootKeepsRoots(L: Trie, L': Trie, nodes: Levels, size: Sizes, x: int, s: nat)
    requires RootStep(L, L', nodes, size, x, s)
    ensures RootsOk(L', nodes[x := Top(s)], size[x := s])
    ensures forall u :: u in nodes && u in size ==> size[u] != s
  {
    hide Shr, TreeIndex, Child, Dir, Sel, UpOk, DownOk, Top;
    forall u | u in nodes && u in size
      ensures Bin(size[u]) != Bin(s)
    {
      var r := RootExists(L, nodes, size, u);
    }
  }

  lemma RootKeepsUp(L: Trie, L': Trie, nodes: Levels, size: Sizes, x: int, s: nat, u: int)
    requires RootStep(L, L', nodes, size, x, s) && u in nodes
    ensures UpOk(L', nodes[x := Top(s)], size[x := s], u)
  {
    hide Shr, TreeIndex, Dir, Sel, Shape, Top, LargeSizes, Same;
    NotANode(L, nodes, size, x);
    NodeFacts(L, nodes, size, u);
    if nodes[u] < Top(size[u]) {
      var p := ParentOf(L, nodes, size, u);
    }
  }

  lemma RootKeepsDown(L: Trie, L': Trie, nodes: Levels, size: Sizes, x: int, s: nat, u: int, d: int)
    requires RootStep(L, L', nodes, size, x, s) && (u == x || u in nodes) && 0 <= d < 2
    ensures DownOk(L', nodes[x := Top(s)], size[x := s], u, d)
  {
    hide Shr, TreeIndex, Dir, Sel, RootsOk, UpOk, Top, LargeSizes, Same;
    NotANode(L, nodes, size, x);
    if u != x {
      assert DownOk(L, nodes, size, u, d);
    }
  }

  /** The first chunk of an empty bin becomes its root. */
  lemma AddRoot(L: Trie, L': Trie, nodes: Levels, size: Sizes, x: int, s: nat)
    requires RootStep(L, L', nodes, size, x, s)
    ensures Shape(L', nodes[x := Top(s)], size[x := s])
  {
    hide Shr, TreeIndex, Dir, Sel, UpOk, DownOk, RootsOk, Top;
    var nodes', size' := nodes[x := Top(s)], size[x := s];
    BinRange(s);
    RootKeepsRoots(L, L', nodes, size, x, s);
    forall u | u in nodes'
      ensures UpOk(L', nodes', size', u)
    {
      if u == x {
        RootIsUp(L, L', nodes, size, x, s);
      } else {
        RootKeepsUp(L, L', nodes, size, x, s, u);
      }
    }
    forall u, d | u in nodes' && 0 <= d < 2
      ensures DownOk(L', nodes', size', u, d)
    {
      RootKeepsDown(L, L', nodes, size, x, s, u, d);
    }
  }

  lemma RootIsUp(L: Trie, L': Trie, nodes: Levels, size: Sizes, x: int, s: nat)
    requires RootStep(L, L', nodes, size, x, s)
    ensures UpOk(L', nodes[x := Top(s)], size[x := s], x)
  {
    hide Shr, TreeIndex, Child, Dir, Sel, Shape, Top;
  }

  // ---- taking a leaf out ----

  ghost predicate DetachStep(L: Trie, L': Trie, nodes: Levels, size: Sizes, r: int) {
    && Shape(L, nodes, size)
    && r in nodes && r in size && Child(L, r, 0) == 0 && Child(L, r, 1) == 0
    && L'.parent == L.parent
    && 0 <= Bin(size[r]) < |L.roots|
    && if nodes[r] == Top(size[r])
       then L'.child0 == L.child0 && L'.child1 == L.child1 && L'.roots == L.roots[Bin(size[r]) := 0]
       else ChildrenAre(L, L', Sel(L.parent, r), Dir(size[r], nodes[r]), 0) && L'.roots == L.roots
  }

  lemma DetachKeepsRoots(L: Trie, L': Trie, nodes: Levels, size: Sizes, r: int)
    requires DetachStep(L, L', nodes, size, r)
    ensures RootsOk(L', nodes - {r}, size - {r})
  {
    hide Shr, TreeIndex, Child, Dir, Sel, UpOk, DownOk, Top;
    NodeFacts(L, nodes, size, r);
  }

  lemma DetachKeepsUp(L: Trie, L': Trie, nodes: Levels, size: Sizes, r: int, u: int)
    requires DetachStep(L, L', nodes, size, r) && u in nodes && u != r
    ensures UpOk(L', nodes - {r}, size - {r}, u)
  {
    hide Shr, TreeIndex, Sel, Shape, Top, LargeSizes, Dir;
    NodeFacts(L, nodes, size, u);
    NodeFacts(L, nodes, size, r);
    if nodes[u] < Top(size[u]) {
      var p := ParentOf(L, nodes, size, u);
      var d := Dir(size[u], nodes[u]);
      assert p != r;
      if nodes[r] < Top(size[r]) {
        var q := ParentOf(L, nodes, size, r);
        assert Child(L', p, d) == u;
      }
    }
  }

  lemma DetachKeepsDown(L: Trie, L': Trie, nodes: Levels, size: Sizes, r: int, u: int, d: int)
    requires DetachStep(L, L', nodes, size, r) && u in nodes && u != r && 0 <= d < 2
    ensures DownOk(L', nodes - {r}, size - {r}, u, d)
  {
    hide Shr, TreeIndex, Sel, Shape, Top, LargeSizes, Dir;
    NodeFacts(L, nodes, size, u);
    NodeFacts(L, nodes, size, r);
    if Child(L, u, d) != 0 {
      var c := ChildOf(L, nodes, size, u, d);
      if nodes[r] < Top(size[r]) {
        var q := ParentOf(L, nodes, size, r);
      }
    }
  }

  /** A leaf taken out of its slot. */
  lemma DetachLeaf(L: Trie, L': Trie, nodes: Levels, size: Sizes, r: int)
    requires DetachStep(L, L', nodes, size, r)
    ensures Shape(L', nodes - {r}, size - {r})
  {
    hide Shr, TreeIndex, Dir, UpOk, DownOk, RootsOk, Top;
    var nodes', size' := nodes - {r}, size - {r};
    DetachKeepsRoots(L, L', nodes, size, r);
    forall u | u in nodes'
      ensures UpOk(L', nodes', size', u)
    {
      DetachKeepsUp(L, L', nodes, size, r, u);
    }
    forall u, d | u in nodes' && 0 <= d < 2
      ensures DownOk(L', nodes', size', u, d)
    {
      DetachKeepsDown(L, L', nodes, size, r, u, d);
    }
  }

  // ---- one chunk standing in for another ----

  function Rename(v: int, x: int, r: int): int {
    if v == x then r else v
  }

  /** `L'` is `L` with the node `x` renamed to the chunk `r`, whose size has the same prefix. */
  ghost predicate ReplaceStep(L: Trie, L': Trie, nodes: Levels, size: Sizes, x: int, r: int, s: nat) {
    && Shape(L, nodes, size)
    && x in nodes && x in size && 0 < r && r !in size
    && MIN_LARGE_SIZE <= s < WORD && Same(s, size[x], nodes[x])
    && (forall u :: u in nodes && u in size && u != x ==> size[u] != s)
    && (forall t, d {:trigger Child(L', t, d)} :: t in nodes && t != x && 0 <= d < 2 ==>
                                                    Child(L', t, d) == Rename(Child(L, t, d), x, r))
    && (forall d {:trigger Child(L', r, d)} :: 0 <= d < 2 ==> Child(L', r, d) == Child(L, x, d))
    && (forall t {:trigger Sel(L'.parent, t)} :: t in nodes && t != x ==>
                                                   Sel(L'.parent, t) == Rename(Sel(L.parent, t), x, r))
    && Sel(L'.parent, r) == Sel(L.parent, x)
    && (forall c :: c in size && c !in nodes ==> Sel(L'.parent, c) == 0 && Child(L', c, 0) == 0 && Child(L', c, 1) == 0)
    && |L'.roots| == |L.roots|
    && (forall i :: 0 <= i < |L.roots| ==> L'.roots[i] == Rename(L.roots[i], x, r))
  }

  lemma ReplaceFacts(L: Trie, L': Trie, nodes: Levels, size: Sizes, x: int, r: int, s: nat)
    requires ReplaceStep(L, L', nodes, size, x, r, s)
    ensures r !in nodes && r != x && x > 0 && Bin(s) == Bin(size[x]) && Top(s) == Top(size[x])
    ensures 0 <= Bin(s) < NTREEBINS && nodes[x] <= Top(s)
  {
    hide Shr, TreeIndex, Child, Dir, Sel, Shape, Top;
    NotANode(L, nodes, size, r);
    NodeFacts(L, nodes, size, x);
    SameTop(s, size[x], nodes[x]);
  }

  lemma ReplaceKeepsRoots(L: Trie, L': Trie, nodes: Levels, size: Sizes, x: int, r: int, s: nat)
    requires ReplaceStep(L, L', nodes, size, x, r, s)
    ensures RootsOk(L', (nodes - {x})[r := nodes[x]], (size - {x})[r := s])
  {
    hide Shr, TreeIndex, Child, Dir, Sel, UpOk, DownOk, Top;
    ReplaceFacts(L, L', nodes, size, x, r, s);
    NodeFacts(L, nodes, size, x);
  }

  lemma ReplacedIsUp(L: Trie, L': Trie, nodes: Levels, size: Sizes, x: int, r: int, s: nat)
    requires ReplaceStep(L, L', nodes, size, x, r, s)
    ensures UpOk(L', (nodes - {x})[r := nodes[x]], (size - {x})[r := s], r)
  {
    hide Shr, TreeIndex, Child, Dir, Sel, Shape, Top, Same;
    ReplaceFacts(L, L', nodes, size, x, r, s);
    NodeFacts(L, nodes, size, x);
    if nodes[x] < Top(size[x]) {
      var p := ParentOf(L, nodes, size, x);
      SamePrefix(size[p], size[x], s, nodes[x]);
      assert Child(L', p, Dir(size[x], nodes[x])) == r;
    }
  }

  lemma SamePrefix(a: nat, b: nat, c: nat, e: nat)
    requires Same(a, b, e + 1) && Same(c, b, e)
    ensures Same(a, c, e + 1) && Dir(b, e) == Dir(c, e)
  {
    SameUp(c, b, e, e + 1);
  }

  lemma ReplaceKeepsUp(L: Trie, L': Trie, nodes: Levels, size: Sizes, x: int, r: int, s: nat, u: int)
    requires ReplaceStep(L, L', nodes, size, x, r, s) && u in nodes && u != x
    ensures UpOk(L', (nodes - {x})[r := nodes[x]], (size - {x})[r := s], u)
  {
    hide Shr, TreeIndex, Child, Dir, Sel, Shape, Top, Same;
    ReplaceFacts(L, L', nodes, size, x, r, s);
    NodeFacts(L, nodes, size, u);
    if nodes[u] < Top(size[u]) {
      var p := ParentOf(L, nodes, size, u);
      if p == x {
        SameTrans(s, size[x], size[u], nodes[x]);
        assert Child(L', r, Dir(size[u], nodes[u])) == u;
      } else {
        assert Child(L', p, Dir(size[u], nodes[u])) == u;
      }
    }
  }

  lemma SameTrans(a: nat, b: nat, c: nat, e: nat)
    requires Same(a, b, e) && Same(b, c, e)
    ensures Same(a, c, e)
  {
  }

  lemma ReplaceKeepsDown(L: Trie, L': Trie, nodes: Levels, size: Sizes, x: int, r: int, s: nat, u: int, d: int)
    requires ReplaceStep(L, L', nodes, size, x, r, s) && u in nodes && u != x && 0 <= d < 2
    ensures DownOk(L', (nodes - {x})[r := nodes[x]], (size - {x})[r := s], u, d)
  {
    hide Shr, TreeIndex, Child, Dir, Sel, Shape, Top, Same;
    ReplaceFacts(L, L', nodes, size, x, r, s);
    NodeFacts(L, nodes, size, u);
    if Child(L, u, d) != 0 {
      var c := ChildOf(L, nodes, size, u, d);
      if c == x {
        SamePrefix(size[u], size[x], s, nodes[x]);
      }
    }
  }

  lemma ReplacedIsDown(L: Trie, L': Trie, nodes: Levels, size: Sizes, x: int, r: int, s: nat, d: int)
    requires ReplaceStep(L, L', nodes, size, x, r, s) && 0 <= d < 2
    ensures DownOk(L', (nodes - {x})[r := nodes[x]], (size - {x})[r := s], r, d)
  {
    hide Shr, TreeIndex, Child, Dir, Sel, Shape, Top, Same;
    ReplaceFacts(L, L', nodes, size, x, r, s);
    if Child(L, x, d) != 0 {
      var c := ChildOf(L, nodes, size, x, d);
      assert c != x;
      SameTrans(s, size[x], size[c], nodes[x]);
    }
  }

  /** A chunk that takes over the place of a node. */
  lemma ReplaceNode(L: Trie, L': Trie, nodes: Levels, size: Sizes, x: int, r: int, s: nat)
    requires ReplaceStep(L, L', nodes, size, x, r, s)
    ensures Shape(L', (nodes - {x})[r := nodes[x]], (size - {x})[r := s])
  {
    hide Shr, TreeIndex, Child, Dir, UpOk, DownOk, RootsOk, Top;
    var nodes', size' := (nodes - {x})[r := nodes[x]], (size - {x})[r := s];
    ReplaceFacts(L, L', nodes, size, x, r, s);
    ReplaceKeepsRoots(L, L', nodes, size, x, r, s);
    forall u | u in nodes'
      ensures UpOk(L', nodes', size', u)
    {
      if u == r {
        ReplacedIsUp(L, L', nodes, size, x, r, s);
      } else {
        ReplaceKeepsUp(L, L', nodes, size, x, r, s, u);
      }
    }
    forall u, d | u in nodes' && 0 <= d < 2
      ensures DownOk(L', nodes', size', u, d)
    {
      if u == r {
        ReplacedIsDown(L, L', nodes, size, x, r, s, d);
      } else {
        ReplaceKeepsDown(L, L', nodes, size, x, r, s, u, d);
      }
    }
  }
}
