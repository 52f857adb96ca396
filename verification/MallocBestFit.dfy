/** The searches of `tmalloc_large` and `tmalloc_small`: the smallest tree chunk that holds a request. */
module MallocBestFit {
  import opened MallocBitmap
  import opened MallocSizes
  import opened MallocTreeIndex
  import opened MallocSmallBins
  import opened MallocTrie
  import opened MallocTags
  import opened MallocTreeBins

  // ---- comparing sizes by their prefixes ----

  lemma PrefixLess(a: nat, b: nat, e: nat)
    requires Shr(a, e) < Shr(b, e)
    ensures a < b
  {
    hide Shr;
    if b <= a {
      ShrMonotone(b, a, e);
    }
  }

  lemma BranchLess(a: nat, b: nat, e: nat)
    requires Same(a, b, e + 1) && Dir(a, e) < Dir(b, e)
    ensures Shr(a, e) < Shr(b, e) && a < b
  {
    hide Shr, TreeIndex;
    ShrStep(a, e);
    ShrStep(b, e);
    PrefixLess(a, b, e);
  }

  lemma BinLess(a: nat, b: nat)
    requires MIN_LARGE_SIZE <= a < WORD && MIN_LARGE_SIZE <= b < WORD && Bin(a) < Bin(b)
    ensures a < b
  {
    hide TreeIndex;
    if b <= a {
      TreeIndexMonotone(b, a);
    }
  }

  /** `u` lies in the subtree of `t`. */
  ghost predicate Under(st: TreeState, u: int, t: int) {
    && u in st.nodes && u in st.chunks && t in st.nodes && t in st.chunks
    && st.nodes[u] <= st.nodes[t] && Same(st.chunks[u], st.chunks[t], st.nodes[t])
  }

  ghost predicate IsNode(st: TreeState, t: int) {
    t in st.nodes && t in st.chunks && t != 0 && MIN_LARGE_SIZE <= st.chunks[t] < WORD && st.nodes[t] <= 32
  }

  lemma NodeIs(st: TreeState, t: int)
    requires TreesOk(st) && t in st.nodes
    ensures IsNode(st, t)
  {
    hide TreeIndex, Child, Sel, Rings, TreeMarks, Indexed, Same, Top, UpOk, DownOk;
    TreeShape(st);
    NodeFacts(st.L, st.nodes, st.chunks, t);
  }

  /** A subtree is its root and the subtrees of its children. */
  lemma UnderSplits(st: TreeState, u: int, t: int) returns (c: int)
    requires TreesOk(st) && Under(st, u, t) && u != t
    ensures c != 0 && Under(st, u, c) && st.nodes[t] == st.nodes[c] + 1
    ensures c == Child(st.L, t, Dir(st.chunks[u], st.nodes[c]))
  {
    hide TreeIndex, Child, Sel, Rings, TreeMarks, Shape, Indexed, Same, Top, Dir;
    if st.nodes[u] == st.nodes[t] {
      SameTop(st.chunks[u], st.chunks[t], st.nodes[t]);
      PositionUnique(st.L, st.nodes, st.chunks, u, t);
    }
    c := ChildOnPath(st.L, st.nodes, st.chunks, t, u);
  }

  lemma ChildIn(st: TreeState, t: int, b: int) returns (c: int)
    requires TreesOk(st) && t in st.nodes && t in st.chunks && 0 <= b < 2 && Child(st.L, t, b) != 0
    ensures c == Child(st.L, t, b) && IsNode(st, c) && st.nodes[t] == st.nodes[c] + 1
    ensures Same(st.chunks[c], st.chunks[t], st.nodes[t]) && Dir(st.chunks[c], st.nodes[c]) == b
    ensures Bin(st.chunks[c]) == Bin(st.chunks[t])
  {
    hide TreeIndex, Child, Sel, Rings, TreeMarks, Shape, Indexed, Same, Top, Dir;
    c := ChildOf(st.L, st.nodes, st.chunks, t, b);
    SameTop(st.chunks[c], st.chunks[t], st.nodes[t]);
    NodeIs(st, c);
  }

  lemma UnderChild(st: TreeState, u: int, t: int, b: int)
    requires TreesOk(st) && t in st.nodes && t in st.chunks && 0 <= b < 2 && Child(st.L, t, b) != 0
    requires Under(st, u, Child(st.L, t, b))
    ensures Under(st, u, t)
  {
    hide TreeIndex, Child, Sel, Rings, TreeMarks, Shape, Indexed, Same, Top, Dir;
    var c := ChildIn(st, t, b);
    SameUp(st.chunks[u], st.chunks[c], st.nodes[c], st.nodes[t]);
    SameTrans(st.chunks[u], st.chunks[c], st.chunks[t], st.nodes[t]);
  }

  // ---- the running best ----

  /** `v` is the best chunk so far with remainder `rsize`; with no chunk yet, `rsize` is `-nb` unsigned. */
  ghost predicate Best(st: TreeState, nb: nat, v: int, rsize: nat) {
    if v == 0 then rsize == WORD - nb
    else IsNode(st, v) && st.chunks[v] == nb + rsize
  }

  function Trem(s: nat, nb: nat): nat {
    Wrap(s - nb)
  }

  /** The unsigned comparison accepts exactly the chunks that fit and improve. */
  lemma TremLess(st: TreeState, nb: nat, v: int, rsize: nat, s: nat)
    requires 0 < nb < WORD && s < WORD && Best(st, nb, v, rsize)
    ensures Trem(s, nb) < rsize <==> nb <= s && s - nb < rsize
    ensures nb <= s ==> Trem(s, nb) == s - nb
  {
  }

  /** Every node that fits is no better than the best so far, or still ahead of the walk at `t`. */
  ghost predicate Covered(st: TreeState, nb: nat, rsize: nat, t: int) {
    forall u :: u in st.nodes && u in st.chunks && nb <= st.chunks[u] ==>
      rsize <= st.chunks[u] - nb || (t != 0 && t in st.chunks && (Under(st, u, t) || st.chunks[t] <= st.chunks[u]))
  }

  /** Nothing in the subtree of `t` is too small, unless an exact fit is already known. */
  ghost predicate AllFit(st: TreeState, nb: nat, rsize: nat, t: int) {
    rsize == 0 || forall u :: Under(st, u, t) ==> nb <= st.chunks[u]
  }

  function LeftmostChild(L: Trie, t: int): int {
    if Child(L, t, 0) != 0 then Child(L, t, 0) else Child(L, t, 1)
  }

  lemma SelfUnder(st: TreeState, t: int)
    requires t in st.nodes && t in st.chunks
    ensures Under(st, t, t)
  {
    SameRefl(st.chunks[t], st.nodes[t]);
  }

  lemma Visit(st: TreeState, nb: nat, v: int, rsize: nat, t: int, v': int, rsize': nat, u: int)
    requires TreesOk(st) && 0 < nb < WORD && Best(st, nb, v, rsize) && IsNode(st, t)
    requires Covered(st, nb, rsize, t) && AllFit(st, nb, rsize, t)
    requires if Trem(st.chunks[t], nb) < rsize then v' == t && rsize' == Trem(st.chunks[t], nb)
             else v' == v && rsize' == rsize
    requires u in st.nodes && u in st.chunks && nb <= st.chunks[u]
    ensures var c := LeftmostChild(st.L, t);
            || rsize' <= st.chunks[u] - nb
            || (c != 0 && c in st.chunks && (Under(st, u, c) || st.chunks[c] <= st.chunks[u]))
  {
    hide TreeIndex, Child, Sel, Shape, Same, Top, Dir, TreesOk, Trem;
    TremLess(st, nb, v, rsize, st.chunks[t]);
    SelfUnder(st, t);
    NodeIs(st, u);
    if rsize' > st.chunks[u] - nb {
      assert nb <= st.chunks[t];
      assert Under(st, u, t) && u != t;
      var c0 := UnderSplits(st, u, t);
      var d := Dir(st.chunks[u], st.nodes[c0]);
      if d == 1 && Child(st.L, t, 0) != 0 {
        var c := ChildIn(st, t, 0);
        SameTrans2(st.chunks[c], st.chunks[t], st.chunks[u], st.nodes[t]);
        BranchLess(st.chunks[c], st.chunks[u], st.nodes[t] - 1);
      }
    }
  }

  lemma SameTrans2(a: nat, b: nat, c: nat, e: nat)
    requires Same(a, b, e) && Same(c, b, e)
    ensures Same(a, c, e)
  {
  }

  /** One turn of the leftmost walk. */
  lemma LeftmostStep(st: TreeState, nb: nat, v: int, rsize: nat, t: int, v': int, rsize': nat)
    requires TreesOk(st) && 0 < nb < WORD && Best(st, nb, v, rsize) && IsNode(st, t)
    requires Covered(st, nb, rsize, t) && AllFit(st, nb, rsize, t)
    requires if Trem(st.chunks[t], nb) < rsize then v' == t && rsize' == Trem(st.chunks[t], nb)
             else v' == v && rsize' == rsize
    ensures Best(st, nb, v', rsize')
    ensures var c := LeftmostChild(st.L, t);
            Covered(st, nb, rsize', c)
            && (c != 0 ==> IsNode(st, c) && st.nodes[c] < st.nodes[t] && AllFit(st, nb, rsize', c))
  {
    hide TreeIndex, Child, Sel, Shape, Same, Top, Dir, TreesOk, Trem;
    TremLess(st, nb, v, rsize, st.chunks[t]);
    var c := LeftmostChild(st.L, t);
    forall u | u in st.nodes && u in st.chunks && nb <= st.chunks[u]
      ensures || rsize' <= st.chunks[u] - nb
              || (c != 0 && c in st.chunks && (Under(st, u, c) || st.chunks[c] <= st.chunks[u]))
    {
      Visit(st, nb, v, rsize, t, v', rsize', u);
    }
    if c != 0 {
      var b := if Child(st.L, t, 0) != 0 then 0 else 1;
      var c1 := ChildIn(st, t, b);
      forall u | rsize' != 0 && Under(st, u, c)
        ensures nb <= st.chunks[u]
      {
        UnderChild(st, u, t, b);
      }
    }
  }

  // ---- the walk for the exact size, which remembers the deepest untaken right subtree ----

  /** The subtree of `r` holds only sizes above those sharing `nb`'s prefix. */
  ghost predicate RightOf(st: TreeState, nb: nat, r: int) {
    && IsNode(st, r) && Bin(st.chunks[r]) == Bin(nb)
    && Shr(nb, st.nodes[r]) < Shr(st.chunks[r], st.nodes[r])
  }

  ghost predicate OnNb(st: TreeState, nb: nat, t: int) {
    IsNode(st, t) && Same(st.chunks[t], nb, st.nodes[t])
  }

  /** Every node of the bin that fits is no better than the best so far, or in the subtree of `t`,
      or in (or above) that of `r`. */
  ghost predicate CoveredInBin(st: TreeState, nb: nat, rsize: nat, t: int, r: int) {
    forall u :: u in st.nodes && u in st.chunks && Bin(st.chunks[u]) == Bin(nb) && nb <= st.chunks[u] ==>
      || rsize <= st.chunks[u] - nb
      || (t != 0 && Under(st, u, t))
      || (r != 0 && r in st.chunks && (Under(st, u, r) || st.chunks[r] <= st.chunks[u]))
  }

  ghost predicate SearchInv(st: TreeState, nb: nat, v: int, rsize: nat, t: int, r: int) {
    && Best(st, nb, v, rsize) && (v != 0 ==> Bin(st.chunks[v]) == Bin(nb))
    && (t != 0 ==> OnNb(st, nb, t))
    && (r != 0 ==> RightOf(st, nb, r) && (t != 0 ==> st.nodes[t] <= st.nodes[r]))
    && CoveredInBin(st, nb, rsize, t, r)
  }

  lemma RightAbove(st: TreeState, nb: nat, r: int, u: int)
    requires RightOf(st, nb, r) && Under(st, u, r)
    ensures nb < st.chunks[u]
  {
    hide TreeIndex, Shr;
    PrefixLess(nb, st.chunks[u], st.nodes[r]);
  }

  /** An untaken right child lies below the earlier one. */
  lemma DeeperIsSmaller(st: TreeState, nb: nat, r: int, c: int, e: nat, u: int)
    requires RightOf(st, nb, r) && IsNode(st, c) && e <= st.nodes[r] && Same(st.chunks[c], nb, e)
    requires u in st.chunks && (Under(st, u, r) || st.chunks[r] <= st.chunks[u])
    ensures st.chunks[c] <= st.chunks[u]
  {
    hide TreeIndex, Shr;
    SameUp(st.chunks[c], nb, e, st.nodes[r]);
    PrefixLess(st.chunks[c], st.chunks[r], st.nodes[r]);
    if Under(st, u, r) {
      PrefixLess(st.chunks[c], st.chunks[u], st.nodes[r]);
    }
  }

  lemma ExactAtZero(st: TreeState, nb: nat, t: int)
    requires OnNb(st, nb, t) && st.nodes[t] == 0
    ensures st.chunks[t] == nb
  {
    SameAtZero(st.chunks[t], nb);
  }

  /** One turn of the search: the visit of `t`, the branch on the next bit, the untaken right child. */
  ghost predicate SearchTurn(st: TreeState, nb: nat, v: int, rsize: nat, t: int, r: int,
                             e: nat, v': int, rsize': nat, t': int, r': int) {
    && TreesOk(st) && MIN_LARGE_SIZE <= nb < WORD && t != 0 && SearchInv(st, nb, v, rsize, t, r)
    && (if Trem(st.chunks[t], nb) < rsize then v' == t && rsize' == Trem(st.chunks[t], nb)
        else v' == v && rsize' == rsize)
    && rsize' != 0 && st.nodes[t] == e + 1
    && t' == Child(st.L, t, Dir(nb, e))
    && r' == if Child(st.L, t, 1) != 0 && Child(st.L, t, 1) != t' then Child(st.L, t, 1) else r
  }

  /** What one turn of the search makes of a node that is still to be accounted for. */
  lemma SearchNode(st: TreeState, nb: nat, v: int, rsize: nat, t: int, r: int,
                   e: nat, v': int, rsize': nat, t': int, r': int, u: int)
    requires SearchTurn(st, nb, v, rsize, t, r, e, v', rsize', t', r')
    requires u in st.nodes && u in st.chunks && Bin(st.chunks[u]) == Bin(nb) && nb <= st.chunks[u]
    ensures || rsize' <= st.chunks[u] - nb
            || (t' != 0 && Under(st, u, t'))
            || (r' != 0 && r' in st.chunks && (Under(st, u, r') || st.chunks[r'] <= st.chunks[u]))
  {
    hide TreeIndex, Child, Sel, Shape, Same, Top, Dir, TreesOk, Trem, Shr;
    TremLess(st, nb, v, rsize, st.chunks[t]);
    var b, rt := Dir(nb, e), Child(st.L, t, 1);
    if rsize' > st.chunks[u] - nb {
      if Under(st, u, t) {
        var c := UnderSplits(st, u, t);
        SameTrans(st.chunks[u], st.chunks[t], nb, st.nodes[t]);
        if Dir(st.chunks[u], e) < b {
          BranchLess(st.chunks[u], nb, e);
        }
      } else if rt != 0 && rt != t' {
        var c := ChildIn(st, t, 1);
        SameTrans(st.chunks[c], st.chunks[t], nb, st.nodes[t]);
        DeeperIsSmaller(st, nb, r, c, st.nodes[t], u);
      }
    }
  }

  lemma SearchStep(st: TreeState, nb: nat, v: int, rsize: nat, t: int, r: int,
                   e: nat, v': int, rsize': nat, t': int, r': int)
    requires SearchTurn(st, nb, v, rsize, t, r, e, v', rsize', t', r')
    ensures SearchInv(st, nb, v', rsize', t', r')
    ensures t' != 0 ==> t' in st.nodes && st.nodes[t] == st.nodes[t'] + 1
  {
    hide TreeIndex, Child, Sel, Shape, Same, Top, Dir, TreesOk, Trem, Shr;
    TremLess(st, nb, v, rsize, st.chunks[t]);
    SameTop(st.chunks[t], nb, st.nodes[t]);
    var b := Dir(nb, e);
    forall u | u in st.nodes && u in st.chunks && Bin(st.chunks[u]) == Bin(nb) && nb <= st.chunks[u]
      ensures || rsize' <= st.chunks[u] - nb
              || (t' != 0 && Under(st, u, t'))
              || (r' != 0 && r' in st.chunks && (Under(st, u, r') || st.chunks[r'] <= st.chunks[u]))
    {
      SearchNode(st, nb, v, rsize, t, r, e, v', rsize', t', r', u);
    }
    if t' != 0 {
      var c := ChildIn(st, t, b);
      SameTrans(st.chunks[c], st.chunks[t], nb, e + 1);
      SameDown(st.chunks[c], nb, e);
    }
    if r' != r {
      var c := ChildIn(st, t, 1);
      SameTrans(st.chunks[c], st.chunks[t], nb, e + 1);
      assert b == 0;
      SameTop(st.chunks[c], nb, e + 1);
      BranchLess(nb, st.chunks[c], e);
    }
  }

  // ---- entering and leaving the search ----

  lemma SearchStarts(st: TreeState, nb: nat, i: Idx)
    requires TreesOk(st) && MIN_LARGE_SIZE <= nb < WORD && i == Bin(nb)
    ensures |st.L.roots| == NTREEBINS && SearchInv(st, nb, 0, WORD - nb, st.L.roots[i], 0)
    ensures st.L.roots[i] != 0 ==> st.L.roots[i] in st.nodes && st.nodes[st.L.roots[i]] == RootExp(i)
  {
    hide TreeIndex, Child, Sel, Shape, Rings, TreeMarks, Indexed, Same, Top, Dir, Shr;
    TreeShape(st);
    BinRange(nb);
    var t := st.L.roots[i];
    if t != 0 {
      var t0 := RootFacts(st, i);
      NodeIs(st, t);
      SameAtTop(st.chunks[t], nb);
    }
    forall u | u in st.nodes && u in st.chunks && Bin(st.chunks[u]) == Bin(nb)
      ensures t != 0 && Under(st, u, t)
    {
      InBin(st, u, i);
    }
  }

  lemma InBin(st: TreeState, u: int, i: Idx)
    requires TreesOk(st) && |st.L.roots| == NTREEBINS && u in st.nodes && u in st.chunks && Bin(st.chunks[u]) == i
    ensures st.L.roots[i] != 0 && Under(st, u, st.L.roots[i])
  {
    hide TreeIndex, Child, Sel, Shape, Rings, TreeMarks, Indexed, Same, Top, Dir, Shr;
    var r := RootExists(st.L, st.nodes, st.chunks, u);
    NodeIs(st, r);
    NodeIs(st, u);
    NodeFacts(st.L, st.nodes, st.chunks, u);
    SameAtTop(st.chunks[u], st.chunks[r]);
  }

  /** A node of a higher bin is larger than any size of this bin; one of a lower bin is too small. */
  lemma OtherBins(st: TreeState, nb: nat, u: int, t: int)
    requires TreesOk(st) && MIN_LARGE_SIZE <= nb < WORD && u in st.nodes && u in st.chunks && nb <= st.chunks[u]
    requires IsNode(st, t) && Bin(st.chunks[t]) == Bin(nb) && Bin(st.chunks[u]) != Bin(nb)
    ensures st.chunks[t] < st.chunks[u]
  {
    hide TreeIndex, Shape, Rings, TreeMarks, Indexed;
    NodeIs(st, u);
    if Bin(st.chunks[u]) < Bin(nb) {
      BinLess(st.chunks[u], nb);
    } else {
      BinLess(st.chunks[t], st.chunks[u]);
    }
  }

  /** The search of the request's own bin has run out: continue in the remembered subtree. */
  lemma SearchEnds(st: TreeState, nb: nat, v: int, rsize: nat, r: int)
    requires TreesOk(st) && MIN_LARGE_SIZE <= nb < WORD && SearchInv(st, nb, v, rsize, 0, r)
    requires v != 0 || r != 0
    ensures Covered(st, nb, rsize, r) && (r != 0 ==> IsNode(st, r) && AllFit(st, nb, rsize, r))
  {
    hide TreeIndex, Shape, Rings, TreeMarks, Indexed, Same, Shr, TreesOk;
    forall u | u in st.nodes && u in st.chunks && nb <= st.chunks[u]
      ensures || rsize <= st.chunks[u] - nb
              || (r != 0 && r in st.chunks && (Under(st, u, r) || st.chunks[r] <= st.chunks[u]))
    {
      if Bin(st.chunks[u]) != Bin(nb) {
        OtherBins(st, nb, u, if v != 0 then v else r);
      }
    }
    if r != 0 {
      forall u | Under(st, u, r)
        ensures nb <= st.chunks[u]
      {
        RightAbove(st, nb, r, u);
      }
    }
  }

  /** An exact fit ends the search; the rest of the walk cannot improve it. */
  lemma ExactEnds(st: TreeState, nb: nat, t: int)
    ensures Covered(st, nb, 0, t) && AllFit(st, nb, 0, t)
  {
  }

  /** Nothing in the request's bin fits: continue at the root of the next non-empty bin. */
  lemma HigherBin(st: TreeState, nb: nat, i: Idx, k: int)
    requires TreesOk(st) && MIN_LARGE_SIZE <= nb < WORD && i == Bin(nb) && SearchInv(st, nb, 0, WORD - nb, 0, 0)
    requires |st.L.roots| == NTREEBINS && i < k <= NTREEBINS
    requires forall j: Idx :: i < j < k ==> !IsMarked(st.treemap, j)
    requires k < NTREEBINS ==> st.L.roots[k] != 0
    ensures var t := if k < NTREEBINS then st.L.roots[k] else 0;
            Covered(st, nb, WORD - nb, t) && (t != 0 ==> IsNode(st, t) && AllFit(st, nb, WORD - nb, t))
  {
    hide TreeIndex, Shape, Rings, TreeMarks, Indexed, Same, Shr, IsMarked;
    BinRange(nb);
    var t := if k < NTREEBINS then st.L.roots[k] else 0;
    if t != 0 {
      var t0 := RootFacts(st, k);
      NodeIs(st, t);
      forall u | Under(st, u, t)
        ensures nb <= st.chunks[u]
      {
        SameTop(st.chunks[u], st.chunks[t], st.nodes[t]);
        NodeIs(st, u);
        BinLess(nb, st.chunks[u]);
      }
    }
    forall u | u in st.nodes && u in st.chunks && nb <= st.chunks[u]
      ensures t != 0 && (Under(st, u, t) || st.chunks[t] <= st.chunks[u])
    {
      NodeIs(st, u);
      BinRange(st.chunks[u]);
      var j := Bin(st.chunks[u]);
      InBin(st, u, j);
      TreeMarked(st.treemap, st.L.roots, j);
      if j < i {
        BinLess(st.chunks[u], nb);
      }
      if j > k {
        BinLess(st.chunks[t], st.chunks[u]);
      }
    }
  }

  // ---- from nodes to chunks ----

  /** `v` is a smallest chunk of the tree bins that holds `nb` bytes; 0 iff there is none. */
  ghost predicate BestFit(chunks: Sizes, nb: nat, v: int) {
    if v == 0 then forall c :: c in chunks ==> chunks[c] < nb
    else v in chunks && nb <= chunks[v] && forall c :: c in chunks && nb <= chunks[c] ==> chunks[v] <= chunks[c]
  }

  /** When the walk has ended, the best so far is the best of all chunks. */
  lemma CoveredIsBest(st: TreeState, nb: nat, v: int, rsize: nat)
    requires TreesOk(st) && 0 < nb < WORD && Best(st, nb, v, rsize) && Covered(st, nb, rsize, 0)
    ensures BestFit(st.chunks, nb, v)
    ensures v != 0 ==> v in st.nodes && v in st.chunks && rsize == st.chunks[v] - nb
  {
    hide TreeIndex, Child, Sel, Shape, Rings, RingOk, Indexed, TreeMarks, Under, Same, Top, Dir;
    TreeShape(st);
    forall c | c in st.chunks && nb <= st.chunks[c]
      ensures v != 0 && st.chunks[v] <= st.chunks[c]
    {
      var h := NodeOfSize(st.fd, st.bk, st.nodes, st.chunks, st.stamp, st.clock, c);
      assert h in st.nodes && h in st.chunks && nb <= st.chunks[h];
    }
  }

  // ---- the searches themselves ----

  /** The search of the request's own bin: the loop of `tmalloc_large`. On return `t` is the subtree to
      walk next, if any. */
  method SearchBin(trees: TreeBins, tags: TagMem, nb: nat, i: Idx) returns (t: int, v: int, rsize: nat)
    requires trees.Valid() && trees.SizesIn(tags) && MIN_LARGE_SIZE <= nb < WORD && i == Bin(nb)
    requires |trees.mem.L.roots| == NTREEBINS
    ensures Best(trees.State(), nb, v, rsize)
    ensures if t == 0 && v == 0 then SearchInv(trees.State(), nb, 0, WORD - nb, 0, 0)
            else Covered(trees.State(), nb, rsize, t)
                 && (t != 0 ==> IsNode(trees.State(), t) && AllFit(trees.State(), nb, rsize, t))
  {
    hide TreesOk, TreeIndex, Shr, Same, Dir, Child, Sel, Shl, KeyWord, CoveredInBin, Covered, AllFit, RightOf;
    v, rsize := 0, Wrap(-1 * nb);
    SearchStarts(trees.State(), nb, i);
    t := trees.mem.L.roots[i];
    if t != 0 {
      ghost var st := trees.State();
      KeyInit(nb, i);
      var sizebits := Shl(nb, LeftShift(i));
      var rst := 0;
      while true
        invariant t != 0 && SearchInv(st, nb, v, rsize, t, rst) && rsize != 0
        invariant t in st.nodes && sizebits == KeyWord(nb, st.nodes[t])
        decreases st.nodes[t]
      {
        ghost var v0, r0, s0 := v, rsize, t;
        var trem := Wrap(Size(tags, t) - nb);
        TremLess(st, nb, v, rsize, st.chunks[t]);
        if trem < rsize {
          v := t;
          rsize := trem;
          if rsize == 0 {
            ExactEnds(st, nb, t);
            return;
          }
        }
        if st.nodes[t] == 0 {
          ExactAtZero(st, nb, t);
        }
        ghost var e := st.nodes[t] - 1;
        var rt := Child(trees.mem.L, t, 1);
        var b := BranchBit(sizebits, nb, st.nodes[t]);
        t := Child(trees.mem.L, t, b);
        ghost var rst0 := rst;
        if rt != 0 && rt != t {
          rst := rt;
        }
        SearchStep(st, nb, v0, r0, s0, rst0, e, v, rsize, t, rst);
        if t == 0 {
          t := rst;
          if v != 0 || rst != 0 {
            SearchEnds(st, nb, v, rsize, rst);
          }
          return;
        }
        KeyBit(nb, e + 1);
        sizebits := Shl(sizebits, 1);
      }
    }
  }

  /** The leftmost walk that ends `tmalloc_large` and `tmalloc_small`. */
  method LeftmostWalk(trees: TreeBins, tags: TagMem, nb: nat, t0: int, v0: int, rsize0: nat) returns (v: int,
                      rsize: nat)
    requires trees.Valid() && trees.SizesIn(tags) && 0 < nb < WORD
    requires Best(trees.State(), nb, v0, rsize0) && Covered(trees.State(), nb, rsize0, t0)
    requires t0 != 0 ==> IsNode(trees.State(), t0) && AllFit(trees.State(), nb, rsize0, t0)
    ensures BestFit(trees.Chunks(), nb, v)
    ensures v != 0 ==> v in trees.Chunks() && rsize == trees.Chunks()[v] - nb
  {
    hide TreesOk, Sel, Covered, AllFit, Child;
    ghost var st := trees.State();
    var t := t0;
    v, rsize := v0, rsize0;
    while t != 0
      invariant Best(st, nb, v, rsize) && Covered(st, nb, rsize, t)
      invariant t != 0 ==> IsNode(st, t) && AllFit(st, nb, rsize, t)
      decreases if t == 0 then 0 else 1 + st.nodes[t]
    {
      ghost var v1, r1 := v, rsize;
      var trem := Wrap(Size(tags, t) - nb);
      if trem < rsize {
        rsize := trem;
        v := t;
      }
      LeftmostStep(st, nb, v1, r1, t, v, rsize);
      t := LeftmostChild(trees.mem.L, t);
    }
    CoveredIsBest(st, nb, v, rsize);
  }

  /** The search part of `tmalloc_large`: a smallest chunk of all tree bins that holds `nb` bytes. */
  method FindBestFit(trees: TreeBins, tags: TagMem, nb: nat) returns (v: int, rsize: nat)
    requires trees.Valid() && trees.SizesIn(tags) && MIN_LARGE_SIZE <= nb < WORD
    ensures BestFit(trees.Chunks(), nb, v)
    ensures v != 0 ==> v in trees.Chunks() && rsize == trees.Chunks()[v] - nb
  {
    hide TreesOk, TreeIndex, Sel, Covered, AllFit, Child, SearchInv, NextBin, Best, BestFit;
    BinRange(nb);
    var i := TreeIndex(nb);
    MarkedRoot(trees.State(), i);
    var t;
    t, v, rsize := SearchBin(trees, tags, nb, i);
    if t == 0 && v == 0 {
      var k := NextBin(trees.mem.treemap, i);
      NextBinIsNext(trees.mem.treemap, i);
      if k < 32 {
        MarkedRoot(trees.State(), k);
        t := trees.mem.L.roots[k];
      }
      NoBest(trees.State(), nb, rsize);
      HigherBin(trees.State(), nb, i, k);
    }
    v, rsize := LeftmostWalk(trees, tags, nb, t, v, rsize);
  }

  lemma NoBest(st: TreeState, nb: nat, rsize: nat)
    requires Best(st, nb, 0, rsize)
    ensures rsize == WORD - nb
  {
  }

  /** All chunks of the tree bins exceed a small request, and the lowest marked bin holds the smallest. */
  lemma LowestBin(st: TreeState, nb: nat, k: Idx)
    requires TreesOk(st) && 0 < nb < MIN_LARGE_SIZE && |st.L.roots| == NTREEBINS && st.L.roots[k] != 0
    requires forall j: Idx :: j < k ==> !IsMarked(st.treemap, j)
    ensures var t := st.L.roots[k];
            IsNode(st, t) && Covered(st, nb, WORD - nb, t) && AllFit(st, nb, WORD - nb, t)
  {
    hide TreeIndex, Shape, Rings, TreeMarks, Indexed, Same, Shr, IsMarked;
    var t := RootFacts(st, k);
    NodeIs(st, t);
    forall u | u in st.nodes && u in st.chunks
      ensures nb <= st.chunks[u] && (Under(st, u, t) || st.chunks[t] <= st.chunks[u])
    {
      NodeIs(st, u);
      BinRange(st.chunks[u]);
      var j := Bin(st.chunks[u]);
      InBin(st, u, j);
      TreeMarked(st.treemap, st.L.roots, j);
      if j > k {
        BinLess(st.chunks[t], st.chunks[u]);
      }
    }
  }

  /** The search part of `tmalloc_small`: a smallest chunk of all tree bins, which always fits. */
  method FindSmallest(trees: TreeBins, tags: TagMem, nb: nat) returns (v: int, rsize: nat)
    requires trees.Valid() && trees.SizesIn(tags) && 0 < nb < MIN_LARGE_SIZE && !NoBin(trees.mem.treemap)
    ensures BestFit(trees.Chunks(), nb, v)
    ensures v != 0 && v in trees.Chunks() && rsize == trees.Chunks()[v] - nb
  {
    hide TreesOk, TreeIndex, Sel, Covered, AllFit, Child, FirstBin, NoBin, IsMarked;
    ghost var st := trees.State();
    var i := FirstBin(trees.mem.treemap);
    FirstBinIsFirst(trees.mem.treemap);
    MarkedRoot(st, i);
    var t := trees.mem.L.roots[i];
    LowestBin(st, nb, i);
    v, rsize := t, Wrap(Size(tags, t) - nb);
    FitsAll(st, nb, t);
    LeftmostStep(st, nb, 0, WORD - nb, t, v, rsize);
    v, rsize := LeftmostWalk(trees, tags, nb, LeftmostChild(trees.mem.L, t), v, rsize);
    assert t in trees.Chunks() && trees.Chunks()[t] >= nb;
  }

  lemma FitsAll(st: TreeState, nb: nat, t: int)
    requires 0 < nb < MIN_LARGE_SIZE && IsNode(st, t)
    ensures Trem(st.chunks[t], nb) == st.chunks[t] - nb < WORD - nb
  {
  }

  /** The tree map is zero iff the tree bins are empty. */
  lemma NoTreeBin(st: TreeState)
    requires TreesOk(st)
    ensures NoBin(st.treemap) <==> forall c :: c !in st.chunks
  {
    hide TreeIndex, Shape, Rings, TreeMarks, Indexed, Same, Shr, IsMarked, NoBin;
    NoBinMarked(st.treemap);
    TreeShape(st);
    if c :| c in st.chunks {
      var h := NodeOfSize(st.fd, st.bk, st.nodes, st.chunks, st.stamp, st.clock, c);
      BinRange(st.chunks[h]);
      InBin(st, h, Bin(st.chunks[h]));
      TreeMarked(st.treemap, st.L.roots, Bin(st.chunks[h]));
    }
    if !NoBin(st.treemap) {
      var i: Idx :| IsMarked(st.treemap, i);
      TreeMarked(st.treemap, st.L.roots, i);
      var t := RootFacts(st, i);
    }
  }
}
