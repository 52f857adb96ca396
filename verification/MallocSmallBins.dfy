/** The 32 small bins: circular doubly linked lists through the free chunks, one
    per size, and the bitmap `smallmap` that says which of them are in use. */
module MallocSmallBins {
  import opened MallocBitmap
  import opened MallocSizes

  /** A link field of memory: unset words read as 0. */
  function Sel(m: map<int, int>, k: int): int {
    if k in m then m[k] else 0
  }

  lemma SelStore(m: map<int, int>, k: int, v: int)
    ensures forall x {:trigger Sel(m[k := v], x)} :: Sel(m[k := v], x) == if x == k then v else Sel(m, x)
  {
  }

  /** `smallbin_at`: the header of bin `i` lies in the allocator state, outside every heap
      segment; it is written as a negative address. */
  function Header(i: Idx): int {
    -1 - i
  }

  ghost predicate NoDup(s: seq<int>) {
    forall j, k :: 0 <= j < k < |s| ==> s[j] != s[k]
  }

  /** Element `k` of the circular list with header `h`: the header stands on both sides of `s`. */
  ghost function At(s: seq<int>, h: int, k: int): int {
    if 0 <= k < |s| then s[k] else h
  }

  /** From header `h`, following `fd` visits exactly `s`, and `bk` visits it backwards. */
  ghost predicate Linked(fd: map<int, int>, bk: map<int, int>, h: int, s: seq<int>) {
    && s != []
    && Sel(fd, h) == s[0] && Sel(bk, h) == s[|s| - 1]
    && (forall k :: 0 <= k < |s| ==> Sel(bk, s[k]) == At(s, h, k - 1) && Sel(fd, s[k]) == At(s, h, k + 1))
  }

  lemma LinkedFrame(fd: map<int, int>, bk: map<int, int>, fd': map<int, int>, bk': map<int, int>, h: int, s: seq<int>)
    requires Linked(fd, bk, h, s)
    requires Sel(fd', h) == Sel(fd, h) && Sel(bk', h) == Sel(bk, h)
    requires forall k :: 0 <= k < |s| ==> Sel(fd', s[k]) == Sel(fd, s[k]) && Sel(bk', s[k]) == Sel(bk, s[k])
    ensures Linked(fd', bk', h, s)
  {
  }

  lemma FirstOf(fd: map<int, int>, bk: map<int, int>, h: int, s: seq<int>)
    ensures Linked(fd, bk, h, s) ==> Sel(fd, h) == s[0] && s[0] in s && Sel(bk, h) in s
  {
  }

  lemma NoDupPush(s: seq<int>, p: int)
    requires NoDup(s) && p !in s
    ensures NoDup([p] + s)
  {
  }

  lemma LinkedPush(fd: map<int, int>, bk: map<int, int>, h: int, s: seq<int>, p: int)
    requires s == [] || Linked(fd, bk, h, s)
    requires NoDup(s) && p !in s && p != h && h !in s
    ensures var f := if s == [] then h else Sel(fd, h);
            Linked(fd[h := p][p := f], bk[f := p][p := h], h, [p] + s) && NoDup([p] + s)
  {
    hide Sel, NoDup;
    NoDupPush(s, p);
    var f := if s == [] then h else Sel(fd, h);
    var fd', bk', t := fd[h := p][p := f], bk[f := p][p := h], [p] + s;
    SelStore(fd, h, p);
    SelStore(fd[h := p], p, f);
    SelStore(bk, f, p);
    SelStore(bk[f := p], p, h);
    forall k | 0 <= k < |t|
      ensures Sel(bk', t[k]) == At(t, h, k - 1) && Sel(fd', t[k]) == At(t, h, k + 1)
    {
      if k > 0 {
        assert t[k] == s[k - 1] && s[k - 1] in s;
      }
    }
  }

  ghost function RemoveAt(s: seq<int>, j: nat): seq<int>
    requires j < |s|
  {
    s[..j] + s[j + 1..]
  }

  lemma RemoveAtFacts(s: seq<int>, h: int, j: nat)
    requires NoDup(s) && j < |s|
    ensures NoDup(RemoveAt(s, j))
    ensures forall k {:trigger At(RemoveAt(s, j), h, k)} ::
              -1 <= k <= |s| - 1 ==> At(RemoveAt(s, j), h, k) == At(s, h, if k < j then k else k + 1)
    ensures forall c :: c in RemoveAt(s, j) <==> c in s && c != s[j]
  {
    var t := RemoveAt(s, j);
    assert forall c :: c in t ==> c in s;
    forall c | c in s && c != s[j]
      ensures c in t
    {
      var k :| 0 <= k < |s| && s[k] == c;
      assert t[if k < j then k else k - 1] == c;
    }
  }

  lemma Neighbour(s: seq<int>, h: int, i: int, k: int)
    requires NoDup(s) && h !in s && 0 <= i < |s|
    ensures At(s, h, i) == s[i] && s[i] != h
    ensures i != k ==> s[i] != At(s, h, k)
  {
    assert s[i] in s;
  }

  lemma LinkedRemove(fd: map<int, int>, bk: map<int, int>, h: int, s: seq<int>, j: nat)
    requires Linked(fd, bk, h, s) && NoDup(s) && h !in s && j < |s| && |s| > 1
    ensures var f, b := Sel(fd, s[j]), Sel(bk, s[j]);
            Linked(fd[b := f], bk[f := b], h, RemoveAt(s, j)) && NoDup(RemoveAt(s, j))
  {
    hide Sel;
    var f, b := Sel(fd, s[j]), Sel(bk, s[j]);
    SelStore(fd, b, f);
    SelStore(bk, f, b);
    RemoveAtFacts(s, h, j);
    var fd', bk', t := fd[b := f], bk[f := b], RemoveAt(s, j);
    assert t[0] == At(t, h, 0) && t[|t| - 1] == At(t, h, |t| - 1);
    assert Sel(fd', h) == t[0] && Sel(bk', h) == t[|t| - 1] by {
      Neighbour(s, h, 0, 0);
    }
    forall k | 0 <= k < |t|
      ensures Sel(bk', t[k]) == At(t, h, k - 1) && Sel(fd', t[k]) == At(t, h, k + 1)
    {
      var i := if k < j then k else k + 1;
      assert t[k] == At(t, h, k);
      Neighbour(s, h, i, j + 1);
      Neighbour(s, h, i, j - 1);
    }
  }

  /** The lists hold exactly the chunks of `chunks`, each in the list of its size. */
  ghost predicate Lists(bins: seq<seq<int>>, chunks: map<int, nat>) {
    && |bins| == 32
    && (forall i :: 0 <= i < 32 ==> NoDup(bins[i]))
    && (forall i, c :: 0 <= i < 32 && c in bins[i] ==> c in chunks && chunks[c] == 8 * i)
    && (forall c :: c in chunks ==> 0 < c && MIN_CHUNK_SIZE <= chunks[c] < MIN_LARGE_SIZE
                                    && chunks[c] % 8 == 0 && c in bins[chunks[c] / 8])
  }

  ghost predicate Marks(m: BinMap, bins: seq<seq<int>>)
    requires |bins| == 32
  {
    forall i: Idx :: IsMarked(m, i) <==> bins[i] != []
  }

  /** The links of a bin are meaningful only while its bit is set; a clear bit leaves them stale. */
  ghost predicate Links(fd: map<int, int>, bk: map<int, int>, bins: seq<seq<int>>)
    requires |bins| == 32
  {
    forall i: Idx :: bins[i] != [] ==> Linked(fd, bk, Header(i), bins[i])
  }

  /** No header is in a list, and a chunk or header of one bin is not in another. */
  lemma OtherBin(bins: seq<seq<int>>, chunks: map<int, nat>, i: Idx, k: Idx, x: int)
    requires Lists(bins, chunks)
    requires x == Header(i) || x in bins[i] || (x > 0 && x !in chunks)
    ensures Header(k) !in bins[k]
    ensures k != i ==> x != Header(k) && x !in bins[k]
  {
    hide NoDup;
    assert Header(k) in bins[k] ==> Header(k) in chunks;
    assert Header(k) < 0 && Header(i) < 0;
    assert forall c :: c in bins[k] ==> c in chunks && chunks[c] == 8 * k;
    assert forall c :: c in bins[i] ==> c in chunks && chunks[c] == 8 * i;
  }

  lemma MarksSet(m: BinMap, bins: seq<seq<int>>, i: Idx, s: seq<int>)
    requires |bins| == 32 && Marks(m, bins) && s != []
    ensures Marks(MarkBin(m, i), bins[i := s])
  {
    hide IsMarked, MarkBin, ClearBin;
    var m', bins' := MarkBin(m, i), bins[i := s];
    forall k: Idx
      ensures IsMarked(m', k) <==> bins'[k] != []
    {
      BinUpdates(m, i, k);
    }
  }

  lemma MarksClear(m: BinMap, bins: seq<seq<int>>, i: Idx)
    requires |bins| == 32 && Marks(m, bins)
    ensures Marks(ClearBin(m, i), bins[i := []])
  {
    hide IsMarked, MarkBin, ClearBin;
    var m', bins' := ClearBin(m, i), bins[i := []];
    forall k: Idx
      ensures IsMarked(m', k) <==> bins'[k] != []
    {
      BinUpdates(m, i, k);
    }
  }

  lemma ListsPush(bins: seq<seq<int>>, chunks: map<int, nat>, p: int, s: nat)
    requires Lists(bins, chunks)
    requires 0 < p && p !in chunks && MIN_CHUNK_SIZE <= s < MIN_LARGE_SIZE && s % 8 == 0
    ensures Lists(bins[s / 8 := [p] + bins[s / 8]], chunks[p := s])
  {
  }

  lemma ListsRemove(bins: seq<seq<int>>, chunks: map<int, nat>, p: int, j: nat)
    requires Lists(bins, chunks) && p in chunks
    requires j < |bins[chunks[p] / 8]| && bins[chunks[p] / 8][j] == p
    ensures Lists(bins[chunks[p] / 8 := RemoveAt(bins[chunks[p] / 8], j)], chunks - {p})
  {
    hide NoDup;
    RemoveAtFacts(bins[chunks[p] / 8], 0, j);
  }

  /** Links of the other bins survive an update of `fd` at `b` and of `bk` at `f`, both of bin `i`. */
  lemma LinksFrame(fd: map<int, int>, bk: map<int, int>, fd': map<int, int>, bk': map<int, int>,
                   bins: seq<seq<int>>, chunks: map<int, nat>, i: Idx, b: int, f: int, p: int, k: Idx)
    requires Lists(bins, chunks) && Links(fd, bk, bins) && k != i && bins[k] != []
    requires b == Header(i) || b in bins[i]
    requires f == Header(i) || f in bins[i]
    requires p in bins[i] || (p > 0 && p !in chunks)
    requires forall x :: x != b && x != p ==> Sel(fd', x) == Sel(fd, x)
    requires forall x :: x != f && x != p && x != b ==> Sel(bk', x) == Sel(bk, x)
    ensures Linked(fd', bk', Header(k), bins[k])
  {
    assert |bins| == 32 && Linked(fd, bk, Header(k), bins[k]);
    hide Linked, Lists, NoDup, Sel;
    OtherBin(bins, chunks, i, k, b);
    OtherBin(bins, chunks, i, k, f);
    OtherBin(bins, chunks, i, k, p);
    LinkedFrame(fd, bk, fd', bk', Header(k), bins[k]);
  }

  /** Only link fields of the chunks `A` and of the bin headers are written. */
  ghost predicate LinksOf(fd: map<int, int>, bk: map<int, int>, fd': map<int, int>, bk': map<int, int>, A: set<int>) {
    forall a :: a > 0 && a !in A ==> SameLink(fd, bk, fd', bk', a)
  }

  ghost predicate SameLink(fd: map<int, int>, bk: map<int, int>, fd': map<int, int>, bk': map<int, int>, a: int) {
    Sel(fd', a) == Sel(fd, a) && Sel(bk', a) == Sel(bk, a)
  }

  lemma PushWrites(fd: map<int, int>, bk: map<int, int>, h: int, f: int, p: int, A: set<int>)
    requires h <= 0 && p in A && (f <= 0 || f in A)
    ensures LinksOf(fd, bk, fd[h := p][p := f], bk[f := p][p := h], A)
  {
  }

  lemma RemoveWrites(fd: map<int, int>, bk: map<int, int>, f: int, b: int, A: set<int>)
    requires (f <= 0 || f in A) && (b <= 0 || b in A)
    ensures LinksOf(fd, bk, fd, bk, A) && LinksOf(fd, bk, fd[b := f], bk[f := b], A)
  {
  }

  class SmallBins {
    var smallmap: BinMap
    var fd: map<int, int>
    var bk: map<int, int>
    ghost var bins: seq<seq<int>>       // the list of each bin, front to back
    ghost var chunks: map<int, nat>     // every binned chunk with its size

    ghost predicate Valid()
      reads this
    {
      Lists(bins, chunks) && Marks(smallmap, bins) && Links(fd, bk, bins)
    }

    constructor ()
      ensures Valid() && chunks == map[]
    {
      smallmap := EMPTY_MAP;
      fd := map[];
      bk := map[];
      bins := seq(32, _ => []);
      chunks := map[];
      new;
      NoBinMarked(EMPTY_MAP);
    }

    /** What the map says about the bins: bit `i` is set iff some chunk has size 8 * `i`. */
    lemma MarkedBin(i: Idx)
      requires Valid()
      ensures |bins| == 32 && (IsMarked(smallmap, i) <==> bins[i] != [])
      ensures IsMarked(smallmap, i) <==> exists c :: c in chunks && chunks[c] == 8 * i
    {
      hide IsMarked, Linked, NoDup;
      ListsUnfold(bins, chunks, i);
      if bins[i] != [] {
        var c := bins[i][0];
        assert c in bins[i];
        assert c in chunks && chunks[c] == 8 * i;
      }
      if c :| c in chunks && chunks[c] == 8 * i {
        assert c in bins[i];
      }
    }

    /** The two-bit window at `idx` and the bit search above it pick, from the map alone, the smallest
        size in the small bins that is at least 8 * `idx`; an empty window means that there is none. */
    lemma Window(idx: Idx)
      requires Valid()
      ensures |bins| == 32
      ensures var b := SmallBits(smallmap, idx);
              var i := if FitsExactly(b) then ExactBin(b, idx) else NextSmall(b, idx);
              && (b != 0 ==> 0 <= i < 32 && bins[i] != [] && 8 * idx <= 8 * i
                             && (FitsExactly(b) <==> 8 * i <= 8 * idx + 8)
                             && forall c :: c in chunks && 8 * idx <= chunks[c] ==> 8 * i <= chunks[c])
              && (b == 0 ==> !FitsExactly(b) && forall c :: c in chunks ==> chunks[c] < 8 * idx)
    {
      hide IsMarked, Marks, Links, SmallBits, FitsExactly, ExactBin, NextSmall;
      var b := SmallBits(smallmap, idx);
      WindowIsExact(smallmap, idx);
      NextSmallIsNext(smallmap, idx);
      WindowEmpty(smallmap, idx);
      MarkedBin(idx);
      if idx < 31 {
        MarkedBin(idx + 1);
      }
      var i := if FitsExactly(b) then ExactBin(b, idx) else NextSmall(b, idx);
      if b != 0 {
        assert i < 32;
        MarkedBin(i);
      }
      forall c | c in chunks && 8 * idx <= chunks[c]
        ensures b != 0 && 8 * i <= chunks[c]
      {
        var j := chunks[c] / 8;
        ChunkInBin(bins, chunks, c);
        MarkedBin(j);
        assert IsMarked(smallmap, j);
      }
    }

    /** `insert_small_chunk`: the chunk becomes the first of its bin. */
    method Insert(p: int, s: nat)
      requires Valid()
      requires 0 < p && p !in chunks && MIN_CHUNK_SIZE <= s < MIN_LARGE_SIZE && s % 8 == 0
      modifies this
      ensures Valid()
      ensures chunks == old(chunks)[p := s]
      ensures bins == old(bins)[s / 8 := [p] + old(bins)[s / 8]]
      ensures LinksOf(old(fd), old(bk), fd, bk, chunks.Keys)
    {
      hide LinksOf;
      hide IsMarked, MarkBin, ClearBin, Linked, NoDup, Sel, Lists;
      var i := s / 8;
      var b := Header(i);
      var f := b;
      assert p !in bins[i] && |bins| == 32 && NoDup(bins[i]) by { ListsUnfold(bins, chunks, i); }
      OtherBin(bins, chunks, i, i, b);
      if !IsMarked(smallmap, i) {
        smallmap := MarkBin(smallmap, i);
      } else {
        f := Sel(fd, b);
      }
      assert f == if bins[i] == [] then b else Sel(fd, b);
      FirstOf(fd, bk, b, bins[i]);
      LinkedPush(fd, bk, b, bins[i], p);
      assert f <= 0 || f in chunks by { ListsUnfold(bins, chunks, i); }
      PushWrites(fd, bk, b, f, p, chunks[p := s].Keys);
      ListsPush(bins, chunks, p, s);
      SelStore(fd, b, p);
      SelStore(bk, f, p);
      fd := fd[b := p];
      bk := bk[f := p];
      SelStore(fd, p, f);
      SelStore(bk, p, b);
      fd := fd[p := f];
      bk := bk[p := b];
      forall k: Idx | k != i && bins[k] != []
        ensures Linked(fd, bk, Header(k), bins[k])
      {
        LinksFrame(old(fd), old(bk), fd, bk, bins, chunks, i, b, f, p, k);
      }
      bins := bins[i := [p] + bins[i]];
      chunks := chunks[p := s];
      MarksSet(old(smallmap), old(bins), i, bins[i]);
    }

    /** `unlink_small_chunk` */
    method Unlink(p: int, s: nat)
      requires Valid()
      requires p in chunks && chunks[p] == s
      modifies this
      ensures Valid()
      ensures chunks == old(chunks) - {p}
      ensures exists j :: 0 <= j < |old(bins)[s / 8]| && old(bins)[s / 8][j] == p
                          && bins == old(bins)[s / 8 := RemoveAt(old(bins)[s / 8], j)]
      ensures LinksOf(old(fd), old(bk), fd, bk, old(chunks).Keys)
    {
      hide LinksOf;
      hide IsMarked, MarkBin, ClearBin, Linked, NoDup, Sel, Lists, RemoveAt;
      var i := s / 8;
      ChunkInBin(bins, chunks, p);
      ghost var j :| 0 <= j < |bins[i]| && bins[i][j] == p;
      Remove(i, p, Sel(fd, p), Sel(bk, p), j);
      assert bins == old(bins)[i := RemoveAt(old(bins)[i], j)];
    }

    /** `unlink_first_small_chunk`, after reading the first chunk `b->fd` of a non-empty bin. */
    method UnlinkFirst(i: Idx) returns (p: int)
      requires Valid() && bins[i] != []
      modifies this
      ensures Valid()
      ensures p == old(bins)[i][0] && p in old(chunks) && old(chunks)[p] == 8 * i
      ensures chunks == old(chunks) - {p}
      ensures bins == old(bins)[i := old(bins)[i][1..]]
      ensures LinksOf(old(fd), old(bk), fd, bk, old(chunks).Keys)
    {
      hide LinksOf;
      hide IsMarked, MarkBin, ClearBin, NoDup, Sel, Lists;
      var b := Header(i);
      p := Sel(fd, b);
      ListsUnfold(bins, chunks, i);
      assert p == bins[i][0] && p in bins[i];
      assert RemoveAt(bins[i], 0) == bins[i][1..];
      Remove(i, p, Sel(fd, p), b, 0);
    }

    /** The pointer surgery shared by `unlink_small_chunk` and `unlink_first_small_chunk`. */
    method Remove(i: Idx, p: int, f: int, b: int, ghost j: nat)
      requires Valid()
      requires j < |bins[i]| && bins[i][j] == p && f == Sel(fd, p) && b == Sel(bk, p)
      modifies this
      ensures Valid()
      ensures chunks == old(chunks) - {p}
      ensures bins == old(bins)[i := RemoveAt(old(bins)[i], j)]
      ensures LinksOf(old(fd), old(bk), fd, bk, old(chunks).Keys)
    {
      hide LinksOf;
      hide IsMarked, MarkBin, ClearBin, Linked, NoDup, Sel, Lists;
      ListsUnfold(bins, chunks, i);
      OtherBin(bins, chunks, i, i, Header(i));
      NeighboursOf(fd, bk, Header(i), bins[i], j);
      RemoveWrites(fd, bk, f, b, chunks.Keys);
      ListsRemove(bins, chunks, p, j);
      if b == f {
        smallmap := ClearBin(smallmap, i);
        MarksClear(old(smallmap), bins, i);
      } else {
        LinkedRemove(fd, bk, Header(i), bins[i], j);
        SelStore(bk, f, b);
        SelStore(fd, b, f);
        bk := bk[f := b];
        fd := fd[b := f];
        forall k: Idx | k != i && bins[k] != []
          ensures Linked(fd, bk, Header(k), bins[k])
        {
          LinksFrame(old(fd), old(bk), fd, bk, bins, chunks, i, b, f, p, k);
        }
      }
      bins := bins[i := RemoveAt(bins[i], j)];
      chunks := chunks - {p};
    }
  }

  lemma ListsUnfold(bins: seq<seq<int>>, chunks: map<int, nat>, i: Idx)
    requires Lists(bins, chunks)
    ensures |bins| == 32 && NoDup(bins[i])
    ensures forall c :: c in bins[i] <==> c in chunks && chunks[c] == 8 * i
  {
  }

  lemma ChunkInBin(bins: seq<seq<int>>, chunks: map<int, nat>, p: int)
    requires Lists(bins, chunks) && p in chunks
    ensures |bins| == 32 && 0 <= chunks[p] / 8 < 32 && p in bins[chunks[p] / 8]
  {
  }

  /** Both neighbours coincide exactly when the list has one element; the header is then both. */
  lemma NeighboursOf(fd: map<int, int>, bk: map<int, int>, h: int, s: seq<int>, j: nat)
    requires Linked(fd, bk, h, s) && NoDup(s) && h !in s && j < |s|
    ensures Sel(fd, s[j]) == At(s, h, j + 1) && Sel(bk, s[j]) == At(s, h, j - 1)
    ensures Sel(fd, s[j]) == Sel(bk, s[j]) <==> |s| == 1
    ensures Sel(fd, s[j]) == h || Sel(fd, s[j]) in s
    ensures Sel(bk, s[j]) == h || Sel(bk, s[j]) in s
  {
    hide Sel;
    if j > 0 {
      Neighbour(s, h, j - 1, j + 1);
    } else if j + 1 < |s| {
      Neighbour(s, h, j + 1, j - 1);
    }
  }
}
