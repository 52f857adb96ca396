/** The allocator: `dlmalloc`, `dlfree` and the in-place resizing and aligned allocation built on
    the same chunk operations. */
module MallocHeap {
  import opened Arithmetic
  import opened MallocBitmap
  import opened MallocSizes
  import opened MallocTags
  import opened MallocLayout
  import opened MallocTagSteps
  import opened MallocHeapInv
  import opened MallocGrowth
  import opened MallocHeapFacts
  import opened MallocAlign
  import opened MallocSmallBins
  import opened MallocTreeBins
  import opened MallocBestFit
  import opened MallocPayload
  import opened MallocResize
  import opened MallocClient

  class Heap {
    const small: SmallBins
    const trees: TreeBins
    var mem: HeapMem
    var contiguous: bool           // cleared once MORECORE has failed to extend the segment
    ghost var row: Chunks          // every chunk between the segment base and the top, with its size
    ghost var live: set<int>       // the chunks handed out and not yet freed

    /** The invariant between calls, once the first memory has been obtained. */
    ghost predicate Ready()
      reads this, small, trees
    {
      small.Valid() && trees.Valid() && HeapOk(mem, row, live, small.chunks, trees.Chunks())
    }

    /** The invariant between calls: `top` is 0 until the first memory has been obtained. */
    ghost predicate Valid()
      reads this, small, trees
    {
      if mem.top == 0 then
        && small.Valid() && trees.Valid() && small.chunks == map[] && trees.Chunks() == map[]
        && row == map[] && live == {} && mem.dv == 0 && mem.dvsize == 0
        && mem.base == 0 && mem.segsize == 0 && mem.topsize == 0
      else Ready()
    }

    constructor ()
      ensures Valid() && mem.top == 0 && live == {} && contiguous && fresh(small) && fresh(trees)
    {
      small := new SmallBins();
      trees := new TreeBins();
      mem := HeapMem(TagMem(map[], map[]), 0, 0, 0, 0, 0, 0);
      row, live := map[], {};
      contiguous := true;
    }

    /** All the words of memory that the allocator writes. */
    ghost function Memory(): Image
      reads this, small, trees
    {
      Image(mem.tags, small.fd, small.bk, trees.State())
    }

    lemma TagsOfMemory()
      ensures Memory().tags == mem.tags
    {
    }

    /** The relay `unlink_chunk`. */
    method UnlinkChunk(p: int, s: nat)
      requires small.Valid() && trees.Valid() && InOneBin(row, small.chunks, trees.Chunks(), p) && s == row[p]
      modifies small, trees
      ensures small.Valid() && trees.Valid()
      ensures small.chunks == old(small.chunks) - {p} && trees.Chunks() == old(trees.Chunks()) - {p}
      ensures LinksOnly(old(Memory()), Memory(), old(small.chunks.Keys), old(trees.Chunks().Keys))
    {
      hide SmallBins.Valid, TreeBins.Valid, TreeBins.State, LinksOnly, LinksOf, Spares;
      if IsSmall(s) {
        small.Unlink(p, s);
        SmallLinks(old(Memory()), Memory(), old(small.chunks.Keys), old(trees.Chunks().Keys));
      } else {
        trees.Unlink(p);
        TreeLinks(old(Memory()), Memory(), old(small.chunks.Keys), old(trees.Chunks().Keys));
      }
    }

    /** The relay `insert_chunk`. */
    method InsertChunk(p: int, s: nat)
      requires small.Valid() && trees.Valid() && trees.SizesIn(mem.tags)
      requires 0 < p && MIN_CHUNK_SIZE <= s < WORD && Aligned(s)
      requires s < MIN_LARGE_SIZE ==> p !in small.chunks
      requires MIN_LARGE_SIZE <= s ==> p !in trees.Chunks()
      modifies small, trees
      ensures small.Valid() && trees.Valid()
      ensures small.chunks == if s < MIN_LARGE_SIZE then old(small.chunks)[p := s] else old(small.chunks)
      ensures trees.Chunks() == if s < MIN_LARGE_SIZE then old(trees.Chunks()) else old(trees.Chunks())[p := s]
      ensures LinksOnly(old(Memory()), Memory(), small.chunks.Keys, trees.Chunks().Keys)
    {
      hide SmallBins.Valid, TreeBins.Valid, TreeBins.State, LinksOnly, LinksOf, Spares;
      if IsSmall(s) {
        small.Insert(p, s);
        SmallLinks(old(Memory()), Memory(), small.chunks.Keys, trees.Chunks().Keys);
      } else {
        trees.Insert(p, s, mem.tags);
        TreeLinks(old(Memory()), Memory(), small.chunks.Keys, trees.Chunks().Keys);
      }
    }

    /** The segment of memory obtained from the system is as before, and no attempt to extend it has been made. */
    twostate predicate SameSegment()
      reads this
    {
      mem.base == old(mem.base) && mem.segsize == old(mem.segsize) && contiguous == old(contiguous)
    }

    // ---- release ----

    /** `dispose_chunk`, whose text is also the body of `dlfree`: the chunk is joined with free
        neighbours and binned, or becomes part of the victim or of the top. */
    method DisposeChunk(p: int, psize: nat)
      requires Ready() && p in live && p in row && psize == row[p]
      modifies this, small, trees
      ensures Ready()
      ensures live == old(live) - {p}
      ensures SameSegment()
      ensures forall q :: q in live ==> q in row && q in old(row) && row[q] == old(row)[q]
      ensures Kept(old(Memory()), Memory(), old(row), row, live)
    {
      hide SmallBins.Valid, TreeBins.Valid, TreeBins.State, HeapOk, Limbo, Unbinned, Merged, Pinuse, Cinuse, PrevFoot,
           SetFree, Kept, LinksOnly, TagsOnly;
      ghost var i0 := Memory();
      ghost var h, C, S, T := mem, row, small.chunks, trees.Chunks();
      ghost var L := live;
      HeapNoZero(h, C, L, S, T);
      HeapChunk(h, C, L, S, T, p);
      VictimIsFree(h, C, L, S, T, p);
      var next := p + psize;
      var x, s := p, psize;
      if !Pinuse(mem.tags, p) {
        var prevsize := PrevFoot(mem.tags, p);
        ghost var q := PreviousFree(h, C, L, S, T, p);
        x := p - prevsize;
        s := psize + prevsize;
        if x != mem.dv {
          UnlinkedIs(h, C, L, S, T, x);
          UnlinkChunk(x, prevsize);
          MergedSize(C, x, p);
          UnlinkKept(i0, Memory(), h, C, Merged(C, x), L, S, T, L - {p});
        } else if Cinuse(mem.tags, next) && Pinuse(mem.tags, next) {
          VictimGrows(h, C, L, S, T, p);
          MergedSize(C, x, p);
          mem := mem.(dvsize := s, tags := SetFree(mem.tags, x, s, next));
          row, live := Merged(row, x), live - {p};
          FreeWrites(h.tags, x, s, next);
          HeapTags(i0, Memory(), h, C, row, L, S, T, live, p, {next, x}, {x + s});
          return;
        }
        MergedSize(C, x, p);
        if x == mem.dv {
          KeptRefl(i0, C, Merged(C, x), L - {p});
        }
        ReleaseBackward(h, C, L, small.chunks, trees.Chunks(), x, p);
        row, live := Merged(row, x), live - {p};
      } else {
        ReleaseAlone(h, C, L, S, T, p);
        live := live - {p};
        KeptRefl(i0, C, C, live);
      }
      ghost var i1, C1 := Memory(), row;
      Consolidate(x, s, next);
      KeptTrans(i0, i1, Memory(), C, C1, row, live);
    }

    /** The forward half of `dispose_chunk`: `x` is neither in use nor binned. */
    method Consolidate(x: int, s: nat, next: int)
      requires small.Valid() && trees.Valid() && Limbo(mem, row, live, small.chunks, trees.Chunks(), x)
      requires x in row && s == row[x] && next == x + s && (mem.dv == x ==> !Cinuse(mem.tags, next))
      modifies this, small, trees
      ensures Ready()
      ensures live == old(live)
      ensures SameSegment()
      ensures forall q :: q in live ==> q in row && q in old(row) && row[q] == old(row)[q]
      ensures Kept(old(Memory()), Memory(), old(row), row, live)
    {
      hide SmallBins.Valid, TreeBins.Valid, TreeBins.State, HeapOk, Limbo, Unbinned, Merged, Pinuse, Cinuse, PrevFoot,
           SetFree, SetSizeOfFree, SetTop, Size, Kept, LinksOnly, TagsOnly;
      ghost var i0 := Memory();
      ghost var h, C, S, T := mem, row, small.chunks, trees.Chunks();
      LimboFacts(h, C, live, S, T, x);
      if !Cinuse(mem.tags, next) {
        if next == mem.top {
          var tsize := mem.topsize + s;
          SettleBeforeTop(h, C, live, S, T, x);
          mem := mem.(topsize := tsize, top := x, tags := SetTop(mem.tags, x, tsize));
          if x == mem.dv {
            mem := mem.(dv := 0, dvsize := 0);
          }
          row := row - {x};
          TopWrites(h.tags, x, tsize);
          LimboTags(i0, Memory(), h, C, row, live, S, T, x, x, {x}, {});
          return;
        } else if next == mem.dv {
          var dsize := mem.dvsize + s;
          SettleBeforeVictim(h, C, live, S, T, x);
          MergedSize(C, x, next);
          mem := mem.(dvsize := dsize, dv := x, tags := SetSizeOfFree(mem.tags, x, dsize));
          row := Merged(row, x);
          FreeWrites(h.tags, x, dsize, 0);
          LimboVictim(h, C, live, S, T, x);
          LimboTags(i0, Memory(), h, C, row, live, S, T, x, next, {x}, {x + dsize});
          return;
        } else {
          var nsize := Size(mem.tags, next);
          SettleBeforeFree(h, C, live, S, T, x, next);
          MergedSize(C, x, next);
          UnlinkChunk(next, nsize);
          ghost var i1 := Memory();
          LimboLinks(i0, i1, h, C, live, S, T, x);
          mem := mem.(tags := SetSizeOfFree(mem.tags, x, s + nsize));
          row := Merged(row, x);
          ghost var i2 := Memory();
          FreeWrites(h.tags, x, s + nsize, 0);
          LimboTags(i1, i2, h, C, row, live, S, T, x, next, {x}, {x + (s + nsize)});
          KeptTrans(i0, i1, i2, C, C, row, live);
          if x == mem.dv {
            VictimIs(mem, row, live, small.chunks, trees.Chunks(), x);
            mem := mem.(dvsize := s + nsize);
            return;
          }
          Bin(x, s + nsize);
          KeptTrans(i0, i2, Memory(), C, row, row, live);
        }
      } else {
        SettleBeforeLive(h, C, live, S, T, x);
        mem := mem.(tags := SetFree(mem.tags, x, s, next));
        ghost var i1 := Memory();
        FreeWrites(h.tags, x, s, next);
        LimboTags(i0, i1, h, C, C, live, S, T, x, x, {next, x}, {x + s});
        Bin(x, s);
        KeptTrans(i0, i1, Memory(), C, C, C, live);
      }
    }

    /** A chunk that is tagged free goes to its bin. */
    method Bin(x: int, s: nat)
      requires small.Valid() && trees.Valid() && Unbinned(mem, row, live, small.chunks, trees.Chunks(), x)
      requires x in row && s == row[x] && mem.dv != x
      modifies small, trees
      ensures Ready()
      ensures Kept(old(Memory()), Memory(), row, row, live)
    {
      hide SmallBins.Valid, TreeBins.Valid, TreeBins.State, HeapOk, Unbinned, Size, Kept, LinksOnly;
      InsertedIs(mem, row, live, small.chunks, trees.Chunks(), x);
      UnbinnedFacts(mem, row, live, small.chunks, trees.Chunks(), x);
      InsertChunk(x, s);
      HeapLinks(old(Memory()), Memory(), mem, row, live, small.chunks, trees.Chunks());
    }

    // ---- allocation ----

    /** The chunk `p` has been handed out for `nb` bytes; every other chunk in use is where it was. */
    twostate predicate Handed(p: int, nb: nat)
      reads this, small, trees
    {
      && p !in old(live) && live == old(live) + {p} && p in row
      && nb <= row[p] < nb + MIN_CHUNK_SIZE
      && (forall q :: q in old(live) ==> q in row && q in old(row) && row[q] == old(row)[q])
      && Kept(old(Memory()), Memory(), old(row), row, old(live))
    }

    /** `replace_dv`, used only when the old victim is small. */
    method ReplaceDv(r: int, s: nat)
      requires small.Valid() && trees.Valid() && Unbinned(mem, row, live, small.chunks, trees.Chunks(), r)
      requires r in row && s == row[r] && mem.dv != r && mem.dvsize < MIN_LARGE_SIZE
      modifies this`mem, small
      ensures Ready()
      ensures mem == old(mem).(dv := r, dvsize := s)
      ensures Kept(old(Memory()), Memory(), row, row, live)
    {
      hide SmallBins.Valid, TreeBins.Valid, TreeBins.State, HeapOk, Unbinned, Size, Kept, LinksOnly, LinksOf;
      ghost var h, S, T := mem, small.chunks, trees.Chunks();
      VictimState(h, row, live, S, T, r);
      if mem.dvsize != 0 {
        ReplaceVictim(h, row, live, S, T, r);
        UnbinnedFactsAt(h, row, live, S, T, r, mem.dv);
        small.Insert(mem.dv, mem.dvsize);
      } else {
        VictimIs(h, row, live, S, T, r);
        LinksOfRefl(small.fd, small.bk, small.chunks.Keys);
      }
      mem := mem.(dvsize := s, dv := r);
      SmallLinks(old(Memory()), Memory(), small.chunks.Keys, trees.Chunks().Keys);
      HeapLinks(old(Memory()), Memory(), mem, row, live, small.chunks, T);
    }

    /** The remainderless fit: the first chunk of small bin `i`. */
    method TakeSmallWhole(i: Idx, ghost nb: nat) returns (p: int)
      requires Ready() && small.bins[i] != [] && nb <= 8 * i < nb + MIN_CHUNK_SIZE
      modifies this, small
      ensures Ready() && Handed(p, nb) && SameSegment()
      ensures p in old(small.chunks) && old(small.chunks)[p] == 8 * i
    {
      hide SmallBins.Valid, TreeBins.Valid, TreeBins.State, HeapOk, Unbinned, Size, SetInuseAndPinuse, Kept,
           LinksOnly, LinksOf, TagsOnly;
      ghost var h, S, T, i0, L := mem, small.chunks, trees.Chunks(), Memory(), live;
      p := small.UnlinkFirst(i);
      ghost var i1 := Memory();
      SmallLinks(i0, i1, S.Keys, T.Keys);
      HeapLinks(i0, i1, h, row, L, S, T);
      SmallIsFree(h, row, L, S, T, p);
      UnlinkedIs(h, row, L, S, T, p);
      assert T - {p} == T;
      AllocWhole(h, row, L, small.chunks, T, p);
      mem := mem.(tags := SetInuseAndPinuse(mem.tags, p, 8 * i));
      live := live + {p};
      TakenKept(i0, i1, Memory(), h, row, row, L, S, T, p, 8 * i);
    }

    /** The chunk of a larger small bin is split; the remainder becomes the victim. */
    method TakeSmallPart(i: Idx, nb: nat) returns (p: int)
      requires Ready() && small.bins[i] != [] && Aligned(nb) && MIN_CHUNK_SIZE <= nb && nb + MIN_CHUNK_SIZE <= 8 * i
      requires mem.dvsize < MIN_LARGE_SIZE
      modifies this, small
      ensures Ready() && Handed(p, nb) && SameSegment()
      ensures p in old(small.chunks) && old(small.chunks)[p] == 8 * i
    {
      hide SmallBins.Valid, TreeBins.Valid, TreeBins.State, HeapOk, Unbinned, Size, SetSizeOfInuse, SetSizeOfFree,
           Split, Aligned, Kept, LinksOnly, LinksOf, TagsOnly;
      ghost var h, C, S, T, i0, L := mem, row, small.chunks, trees.Chunks(), Memory(), live;
      p := small.UnlinkFirst(i);
      ghost var i1 := Memory();
      SmallLinks(i0, i1, S.Keys, T.Keys);
      HeapLinks(i0, i1, h, C, L, S, T);
      SmallIsFree(h, C, L, S, T, p);
      UnlinkedIs(h, C, L, S, T, p);
      assert T - {p} == T;
      AllocPart(h, C, L, small.chunks, T, p, nb);
      SplitSizes(C, p, nb);
      HeapLive(h, C, L, S, T);
      var rsize := 8 * i - nb;
      mem := mem.(tags := SetSizeOfInuse(mem.tags, p, nb));
      mem := mem.(tags := SetSizeOfFree(mem.tags, p + nb, rsize));
      row, live := Split(row, p, nb), live + {p};
      ghost var i2 := Memory();
      PartKept(i0, i1, i2, h, C, row, L, S, T, p, nb);
      ReplaceDv(p + nb, rsize);
      KeptFewer(i2, Memory(), row, row, live, L);
      KeptTrans(i0, i2, Memory(), C, row, row, L);
    }

    /** The split that ends `tmalloc_large` and `tmalloc_small`: `v` is handed out whole when too little
        would remain; otherwise the remainder becomes the victim (for small requests) or is binned. */
    method TakeTree(v: int, nb: nat, rsize: nat, forVictim: bool)
      requires Ready() && v in trees.Chunks() && trees.Chunks()[v] == nb + rsize
      requires Aligned(nb) && MIN_CHUNK_SIZE <= nb && (forVictim ==> mem.dvsize < MIN_LARGE_SIZE)
      modifies this, small, trees
      ensures Ready() && Handed(v, nb) && SameSegment()
    {
      hide SmallBins.Valid, TreeBins.Valid, TreeBins.State, HeapOk, Unbinned, Size, SetSizeOfInuse, SetSizeOfFree,
           Split, Aligned, SetInuseAndPinuse, Kept, LinksOnly, Spares, TagsOnly;
      ghost var h, C, S, T, i0, L := mem, row, small.chunks, trees.Chunks(), Memory(), live;
      TreeIsFree(h, C, L, S, T, v);
      UnlinkedIs(h, C, L, S, T, v);
      assert S - {v} == S;
      trees.Unlink(v);
      ghost var i1 := Memory();
      TreeLinks(i0, i1, S.Keys, T.Keys);
      HeapLinks(i0, i1, h, C, L, S, T);
      if rsize < MIN_CHUNK_SIZE {
        AllocWhole(h, C, L, S, trees.Chunks(), v);
        mem := mem.(tags := SetInuseAndPinuse(mem.tags, v, rsize + nb));
        live := live + {v};
        TakenKept(i0, i1, Memory(), h, C, C, L, S, T, v, rsize + nb);
      } else {
        AllocPart(h, C, L, S, trees.Chunks(), v, nb);
        SplitSizes(C, v, nb);
        mem := mem.(tags := SetSizeOfInuse(mem.tags, v, nb));
        mem := mem.(tags := SetSizeOfFree(mem.tags, v + nb, rsize));
        row, live := Split(row, v, nb), live + {v};
        ghost var i2 := Memory();
        PartKept(i0, i1, i2, h, C, row, L, S, T, v, nb);
        if forVictim {
          ReplaceDv(v + nb, rsize);
        } else {
          Bin(v + nb, rsize);
        }
        KeptFewer(i2, Memory(), row, row, live, L);
        KeptTrans(i0, i2, Memory(), C, row, row, L);
      }
    }

    /** `tmalloc_large`: the best-fitting tree chunk, unless the victim fits at least as well. */
    method TMallocLarge(nb: nat) returns (p: int)
      requires Ready() && Aligned(nb) && MIN_LARGE_SIZE <= nb < WORD
      modifies this, small, trees
      ensures Ready() && SameSegment()
      ensures p == 0 ==> Untouched()
      ensures p == 0 ==> forall c :: c in trees.Chunks() && nb <= trees.Chunks()[c] ==>
                           nb <= mem.dvsize <= trees.Chunks()[c]
      ensures p != 0 ==> Handed(p, nb) && BestFit(old(trees.Chunks()), nb, p)
                         && (nb <= old(mem.dvsize) ==> old(trees.Chunks())[p] < old(mem.dvsize))
    {
      hide SmallBins.Valid, TreeBins.Valid, TreeBins.State, HeapOk, Unbinned, Size, Aligned;
      ghost var S, T := small.chunks, trees.Chunks();
      SizesHold(mem, row, live, S, T);
      VictimBound(mem, row, live, S, T);
      var v, rsize := FindBestFit(trees, mem.tags, nb);
      if v != 0 && rsize < Wrap(mem.dvsize - nb) {
        WrapVictim(mem.dvsize, nb);
        TakeTree(v, nb, rsize, false);
        return v;
      }
      WrapVictim(mem.dvsize, nb);
      TreeBound(mem, row, live, S, T);
      return 0;
    }

    /** `tmalloc_small`: the smallest tree chunk is always split for a small request. */
    method TMallocSmall(nb: nat) returns (p: int)
      requires Ready() && Aligned(nb) && MIN_CHUNK_SIZE <= nb < MIN_LARGE_SIZE && !NoBin(trees.mem.treemap)
      requires mem.dvsize < MIN_LARGE_SIZE
      modifies this, small, trees
      ensures Ready() && p != 0 && Handed(p, nb) && SameSegment() && BestFit(old(trees.Chunks()), nb, p)
    {
      hide SmallBins.Valid, TreeBins.Valid, TreeBins.State, HeapOk, Unbinned, Size, Aligned, NoBin;
      SizesHold(mem, row, live, small.chunks, trees.Chunks());
      var v, rsize := FindSmallest(trees, mem.tags, nb);
      TakeTree(v, nb, rsize, true);
      return v;
    }

    /** The request is served from the designated victim. */
    method TakeVictim(nb: nat) returns (p: int)
      requires Ready() && Aligned(nb) && MIN_CHUNK_SIZE <= nb <= mem.dvsize
      modifies this
      ensures Ready() && Handed(p, nb) && SameSegment() && p == old(mem.dv)
    {
      hide SmallBins.Valid, TreeBins.Valid, TreeBins.State, HeapOk, SetSizeOfInuse, SetSizeOfFree, Split, Aligned,
           SetInuseAndPinuse, Kept, TagsOnly;
      ghost var h, C, S, T, i0, L := mem, row, small.chunks, trees.Chunks(), Memory(), live;
      HeapLive(h, row, live, S, T);
      KeptRefl(i0, C, C, L);
      VictimExists(h, row, live, S, T);
      var rsize := mem.dvsize - nb;
      p := mem.dv;
      if rsize >= MIN_CHUNK_SIZE {
        AllocVictimPart(h, row, live, S, T, nb);
        SplitTagsCommute(h.tags, p, nb, rsize);
        SplitSizes(row, p, nb);
        mem := mem.(dv := p + nb, dvsize := rsize);
        mem := mem.(tags := SetSizeOfFree(mem.tags, p + nb, rsize));
        mem := mem.(tags := SetSizeOfInuse(mem.tags, p, nb));
        row, live := Split(row, p, nb), live + {p};
        PartKept(i0, i0, Memory(), h, C, row, L, S, T, p, nb);
      } else {
        AllocVictim(h, row, live, S, T);
        var dvs := mem.dvsize;
        mem := mem.(dvsize := 0, dv := 0);
        mem := mem.(tags := SetInuseAndPinuse(mem.tags, p, dvs));
        live := live + {p};
        TakenKept(i0, i0, Memory(), h, C, C, L, S, T, p, dvs);
      }
    }

    /** The request is cut from the top. */
    method TakeTop(nb: nat) returns (p: int)
      requires Ready() && Aligned(nb) && MIN_CHUNK_SIZE <= nb < mem.topsize
      modifies this
      ensures Ready() && Handed(p, nb) && SameSegment() && p == old(mem.top)
      ensures mem.top == old(mem.top) + nb && mem.topsize == old(mem.topsize) - nb
    {
      hide SmallBins.Valid, TreeBins.Valid, TreeBins.State, HeapOk, SetHead, Aligned, Kept, TagsOnly;
      ghost var h, C, S, T, i0, L := mem, row, small.chunks, trees.Chunks(), Memory(), live;
      AllocTop(h, row, live, S, T, nb);
      HeapLive(h, row, live, S, T);
      var rsize := mem.topsize - nb;
      p := mem.top;
      mem := mem.(topsize := rsize, top := p + nb);
      mem := mem.(tags := SetTop(mem.tags, p + nb, rsize));
      mem := mem.(tags := SetSizeOfInuse(mem.tags, p, nb));
      row, live := row[p := nb], live + {p};
      TopWrites(h.tags, p + nb, rsize);
      BasicWrites(SetTop(h.tags, p + nb, rsize), p, nb, true, true);
      Writes(h.tags, SetTop(h.tags, p + nb, rsize), mem.tags, {p + nb}, {}, {p}, {});
      HeapTags(i0, Memory(), h, C, row, L, S, T, L, p, {p + nb} + {p}, {} + {});
    }

    // ---- memory from the system ----

    /** `sys_alloc` with one contiguous segment. MORECORE is an oracle: `start` is the break found at
        the first call, `first` and `second` say whether the contiguous and the second attempt are
        granted; a granted call extends the segment at its end. The padding makes sure that memory,
        once granted, serves the request. */
    method SysAlloc(nb: nat, start: int, first: bool, second: bool) returns (p: int)
      requires Valid() && mem.topsize <= nb
      requires nb == MAX_SIZE_T || (Aligned(nb) && MIN_CHUNK_SIZE <= nb < WORD)
      requires 0 < start < WORD && Aligned(start)
      modifies this
      ensures Valid()
      ensures p != 0 <==> CanGrow(old(mem), old(contiguous), nb, start, first, second)
      ensures p == 0 ==> Untouched()
      ensures p != 0 ==> nb < MAX_SIZE_T && Handed(p, nb) && mem.top == p + nb && mem.topsize > 0
      ensures p != 0 ==>
                if old(mem.top) == 0 then p == mem.base == start else p == old(mem.top) && mem.base == old(mem.base)
      ensures p != 0 ==>
                && mem.segsize == old(mem.segsize) + Grant(old(mem), old(contiguous), nb, start, first)
                && old(mem.segsize) < mem.segsize && mem.base + mem.segsize == mem.top + mem.topsize + TOP_FOOT_SIZE
      // after a failure, no contiguous attempt is made any more
      ensures nb + SYS_ALLOC_PADDING + (PAGE - 1) < WORD ==>
                contiguous == (old(contiguous) && FirstServes(old(mem), old(contiguous), nb, start, first))
    {
      hide SmallBins.Valid, TreeBins.Valid, TreeBins.State, HeapOk, InitTopTags, Aligned, PageAlign, Wrap, TagsOnly,
           KeptAt, FirstServes, SecondServes, Grant, Requested;
      ghost var i0, C := Memory(), row;
      p := 0;
      RequestedIs(nb);
      var asize := PageAlign(Wrap(nb + SYS_ALLOC_PADDING));
      if asize <= nb {
        return;
      }
      var tsize := RequestSize(nb, asize, start, first, second);
      if tsize == 0 {
        return;
      }
      ExtendTop(nb, tsize, start);
      ghost var i1, L := Memory(), live;
      p := TakeTop(nb);
      KeptTrans(i0, i1, Memory(), C, C, row, L);
      HeapTop(mem, row, live, small.chunks, trees.Chunks());
    }

    /** The memory granted becomes the segment, or its end; the top grows by it. */
    method ExtendTop(nb: nat, tsize: nat, start: int)
      requires Valid() && 0 < start < WORD && Aligned(start)
      requires mem.top == 0 ==> nb + TOP_FOOT_SIZE < tsize && start + tsize <= WORD && Aligned(tsize - TOP_FOOT_SIZE)
      requires mem.top != 0 ==>
                 nb < mem.topsize + tsize && BreakOf(mem, start) + tsize <= WORD && Aligned(mem.topsize + tsize)
      modifies this`mem
      ensures Ready() && nb < mem.topsize && mem.segsize == old(mem.segsize) + tsize
      ensures if old(mem.top) == 0 then mem.base == mem.top == start
              else mem.base == old(mem.base) && mem.top == old(mem.top)
      ensures mem.base + mem.segsize == mem.top + mem.topsize + TOP_FOOT_SIZE
      ensures Kept(old(Memory()), Memory(), row, row, live)
    {
      hide SmallBins.Valid, TreeBins.Valid, TreeBins.State, HeapOk, InitTopTags, Aligned, TagsOnly, KeptAt;
      ghost var i0, h, C, L, S, T := Memory(), mem, row, live, small.chunks, trees.Chunks();
      HeapTop(h, C, L, S, T);
      if mem.top == 0 {
        FirstTop(mem.tags, start, tsize - TOP_FOOT_SIZE);
        mem := HeapMem(InitTopTags(mem.tags, start, tsize - TOP_FOOT_SIZE), 0, 0, start, tsize, start,
                       tsize - TOP_FOOT_SIZE);
      } else {
        LargerTop(mem, row, live, S, T, mem.topsize + tsize);
        mem := mem.(segsize := mem.segsize + tsize, topsize := mem.topsize + tsize,
                    tags := InitTopTags(mem.tags, mem.top, mem.topsize + tsize));
        HeapLive(h, C, L, S, T);
        TopNotLive(h, C, L, S, T);
        TopWrites(h.tags, h.top, mem.topsize);
        HeapTags(i0, Memory(), h, C, C, L, S, T, L, h.top, {h.top, h.top + mem.topsize}, {});
      }
      HeapTop(mem, row, live, S, T);
    }

    /** The amount of memory MORECORE grants: the contiguous attempt, which asks only for what the top
        lacks, then a second attempt for the whole request. 0 when both are refused. */
    method RequestSize(nb: nat, asize: nat, start: int, first: bool, second: bool) returns (tsize: nat)
      requires Valid() && mem.topsize <= nb && nb + SYS_ALLOC_PADDING + (PAGE - 1) < WORD
      requires 0 < start < WORD && Aligned(start)
      requires asize == PageAlign(Wrap(nb + SYS_ALLOC_PADDING)) == Requested(nb)
      modifies this`contiguous
      ensures tsize == if CanGrow(mem, old(contiguous), nb, start, first, second)
                       then Grant(mem, old(contiguous), nb, start, first) else 0
      ensures contiguous == (old(contiguous) && FirstServes(mem, old(contiguous), nb, start, first))
      ensures tsize != 0 <==> CanGrow(mem, old(contiguous), nb, start, first, second)
      ensures tsize != 0 ==> BreakOf(mem, start) + tsize <= WORD
      ensures tsize != 0 ==>
                if mem.top == 0 then nb + TOP_FOOT_SIZE < tsize && Aligned(tsize - TOP_FOOT_SIZE)
                else nb < mem.topsize + tsize && Aligned(mem.topsize + tsize)
    {
      hide SmallBins.Valid, TreeBins.Valid, TreeBins.State, HeapOk, Aligned, PageAlign, Wrap, Requested, Lacking;
      ghost var S, T := small.chunks, trees.Chunks();
      HeapTop(mem, row, live, S, T);
      AlignedNothing();
      GrantCovers(mem, contiguous, nb, start, first);
      RequestedPages(nb);
      LackingPositive(mem, nb, start);
      tsize := 0;
      if contiguous {
        if mem.top == 0 {
          FirstIs(mem, nb, asize, start);
          var ssize := if PageAlign(start) == start then asize else Wrap(asize + Wrap(PageAlign(start) - start));
          if nb < ssize < HALF_MAX_SIZE_T && first && start + ssize <= WORD {
            tsize := ssize;
          }
        } else {
          LackingIs(mem, nb, start);
          var ssize := PageAlign(Wrap(Wrap(nb - mem.topsize) + SYS_ALLOC_PADDING));
          if ssize < HALF_MAX_SIZE_T && first && BreakOf(mem, start) + ssize <= WORD {
            tsize := ssize;
          }
        }
        if tsize == 0 {
          contiguous := false;
        }
      }
      if tsize == 0 && asize < HALF_MAX_SIZE_T && second {
        if BreakOf(mem, start) + asize <= WORD && asize > nb + TOP_FOOT_SIZE {
          tsize := asize;
        }
      }
    }

    // ---- dlmalloc ----

    twostate predicate Untouched()
      reads this, small, trees
    {
      && mem == old(mem) && row == old(row) && live == old(live)
      && small.chunks == old(small.chunks) && trees.Chunks() == old(trees.Chunks())
      && Memory() == old(Memory())
    }

    /** The part of `dlmalloc` for small requests that looks into the bins; 0 when the victim, the top
        or the system has to serve. */
    method SmallRequest(nb: nat) returns (p: int)
      requires Valid() && Aligned(nb) && MIN_CHUNK_SIZE <= nb < MIN_LARGE_SIZE
      modifies this, small, trees
      ensures Valid() && SameSegment()
      ensures p == 0 ==> Untouched()
      ensures p == 0 && mem.dvsize < nb ==> NoneFits(row, live, nb)
      ensures p == 0 && nb <= mem.dvsize ==> BestSmall(row, live, mem.dv, nb, mem.dv)
      ensures p != 0 ==> old(mem.top) != 0 && Handed(p, nb) && BestSmall(old(row), old(live), old(mem.dv), nb, p)
    {
      hide SmallBins.Valid, TreeBins.Valid, TreeBins.State, HeapOk, NoBin, FitsExactly, ExactBin, SmallBits,
           NextSmall, BestSmall;
      ghost var h, C, L, S, T := mem, row, live, small.chunks, trees.Chunks();
      AlignedIs(nb);
      var idx := nb / 8;
      small.Window(idx);
      var b := SmallBits(small.smallmap, idx);
      NoTrees();
      p := 0;
      if FitsExactly(b) {
        NonemptyBin(ExactBin(b, idx));
        p := TakeSmallWhole(ExactBin(b, idx), nb);
        SmallPick(h, C, L, S, T, nb, p);
        ReadyIsValid();
        return;
      }
      if nb > mem.dvsize {
        if b != 0 {
          NonemptyBin(NextSmall(b, idx));
          p := TakeSmallPart(NextSmall(b, idx), nb);
          SmallPick(h, C, L, S, T, nb, p);
          ReadyIsValid();
          return;
        }
        if !NoBin(trees.mem.treemap) {
          p := TMallocSmall(nb);
          TreePick(h, C, L, S, T, nb, p);
          ReadyIsValid();
          return;
        }
      }
      if mem.top != 0 {
        if mem.dvsize < nb {
          Shortage(h, C, L, S, T, nb);
        } else {
          VictimPick(h, C, L, S, T, nb);
        }
      }
    }

    lemma NoTrees()
      requires Valid()
      ensures NoBin(trees.mem.treemap) <==> trees.Chunks() == map[]
    {
      hide SmallBins.Valid, TreesOk, HeapOk, NoBin;
      NoTreeBin(trees.State());
      NoChunks(trees.Chunks());
    }

    /** A bin that is not empty shows that memory has been obtained. */
    lemma NonemptyBin(i: Idx)
      requires Valid() && |small.bins| == 32 && small.bins[i] != []
      ensures mem.top != 0
    {
      hide TreeBins.Valid, HeapOk;
      small.MarkedBin(i);
    }

    lemma ReadyIsValid()
      requires Ready()
      ensures Valid()
    {
      hide SmallBins.Valid, TreeBins.Valid, HeapOk;
      HeapTop(mem, row, live, small.chunks, trees.Chunks());
    }

    lemma InUse(p: int)
      requires Ready() && p in live
      ensures p in row && 0 < p && p % 8 == 0
    {
      hide SmallBins.Valid, TreeBins.Valid, HeapOk, Size, Cinuse, Pinuse;
      HeapNoZero(mem, row, live, small.chunks, trees.Chunks());
      HeapChunk(mem, row, live, small.chunks, trees.Chunks(), p);
    }

    /** The part of `dlmalloc` for large requests that looks into the bins. */
    method LargeRequest(nb: nat) returns (p: int)
      requires Valid() && Aligned(nb) && MIN_LARGE_SIZE <= nb < WORD
      modifies this, small, trees
      ensures Valid() && SameSegment()
      ensures p == 0 ==> Untouched()
      ensures p == 0 && mem.dvsize < nb ==> NoneFits(row, live, nb)
      ensures p == 0 && nb <= mem.dvsize ==> BestLarge(row, live, nb, mem.dv)
      ensures p != 0 ==> old(mem.top) != 0 && Handed(p, nb) && BestLarge(old(row), old(live), nb, p)
    {
      hide SmallBins.Valid, TreeBins.Valid, TreeBins.State, HeapOk, NoBin, BestLarge, BestSmall;
      ghost var h, C, L, S, T := mem, row, live, small.chunks, trees.Chunks();
      NoTrees();
      p := 0;
      if mem.top != 0 {
        SmallBound(h, C, L, S, T, nb);
      }
      if !NoBin(trees.mem.treemap) {
        p := TMallocLarge(nb);
        if p != 0 {
          TreePick(h, C, L, S, T, nb, p);
          ReadyIsValid();
          return;
        }
      }
      if mem.top != 0 {
        if mem.dvsize < nb {
          Shortage(h, C, L, S, T, nb);
        } else {
          VictimPick(h, C, L, S, T, nb);
        }
      }
    }

    /** The tail of `dlmalloc`: the victim, the top, or more memory from the system. */
    method Fallback(nb: nat, start: int, first: bool, second: bool) returns (p: int, ghost grew: bool)
      requires Valid() && 0 < start < WORD && Aligned(start)
      requires nb == MAX_SIZE_T || (Aligned(nb) && MIN_CHUNK_SIZE <= nb < WORD)
      modifies this
      ensures Valid()
      ensures !grew ==>
                && SameSegment() && nb < MAX_SIZE_T
                && p == if nb <= old(mem.dvsize) then old(mem.dv) else old(mem.top)
      ensures p == 0 ==> grew && Untouched()
      ensures p != 0 ==> nb < MAX_SIZE_T && mem.top != 0 && Handed(p, nb)
      ensures p != 0 && p in old(row) ==> nb <= old(mem.dvsize)
      ensures grew <==> old(mem.topsize) <= nb && old(mem.dvsize) < nb
      ensures grew ==> (p != 0 <==> CanGrow(old(mem), old(contiguous), nb, start, first, second))
      ensures !grew ==> p != 0
      ensures grew && p != 0 ==>
                if old(mem.top) == 0 then p == mem.base == start else p == old(mem.top) && mem.base == old(mem.base)
      ensures grew && p != 0 ==>
                && old(mem.segsize) < mem.segsize
                && mem.segsize == old(mem.segsize) + Grant(old(mem), old(contiguous), nb, start, first)
    {
      hide SmallBins.Valid, TreeBins.Valid, TreeBins.State, HeapOk, CanGrow, Grant;
      grew := false;
      LargestRequest();
      if nb <= mem.dvsize {
        p := TakeVictim(nb);
        ReadyIsValid();
        InUse(p);
      } else if nb < mem.topsize {
        p := TakeTop(nb);
        ReadyIsValid();
        InUse(p);
      } else {
        grew := true;
        p := SysAlloc(nb, start, first, second);
      }
    }

    lemma LargestRequest()
      requires Valid()
      ensures mem.dvsize < MAX_SIZE_T && mem.topsize < MAX_SIZE_T && (mem.top != 0 || row == map[]) && mem.top !in row
    {
      hide SmallBins.Valid, TreeBins.Valid, TreeBins.State, HeapOk;
      if mem.top != 0 {
        HeapTop(mem, row, live, small.chunks, trees.Chunks());
        VictimBound(mem, row, live, small.chunks, trees.Chunks());
      }
    }

    /** The part of `dlmalloc` that looks into the bins, with the padded request `nb`. */
    method Search(bytes: nat) returns (nb: nat, p: int)
      requires Valid() && bytes < WORD
      modifies this, small, trees
      ensures Valid() && SameSegment()
      ensures nb == if bytes >= MAX_REQUEST then MAX_SIZE_T else RequestToSize(bytes)
      ensures p == 0 ==> Untouched()
      ensures p == 0 && bytes < MAX_REQUEST ==>
                if mem.dvsize < nb then NoneFits(row, live, nb) else Choice(row, live, mem.dv, bytes, mem.dv)
      ensures p != 0 ==> bytes < MAX_REQUEST && mem.top != 0 && Handed(p, nb)
      ensures p != 0 ==> Choice(old(row), old(live), old(mem.dv), bytes, p)
    {
      hide SmallBins.Valid, TreeBins.Valid, TreeBins.State, HeapOk, BestSmall, BestLarge, Kept, Fits;
      PaddedHolds(bytes);
      if bytes <= MAX_SMALL_REQUEST {
        nb := if bytes < MIN_REQUEST then MIN_CHUNK_SIZE else PadRequest(bytes);
        p := SmallRequest(nb);
      } else if bytes >= MAX_REQUEST {
        nb, p := MAX_SIZE_T, 0;
      } else {
        nb := PadRequest(bytes);
        p := LargeRequest(nb);
      }
    }

    /** `dlmalloc`; the result is the address behind the head of the chunk, 0 on failure. `grew` tells
        that the system was asked for memory. */
    method DlMalloc(bytes: nat, start: int, first: bool, second: bool) returns (r: int, ghost grew: bool)
      requires Valid() && bytes < WORD
      requires 0 < start < WORD && Aligned(start)
      modifies this, small, trees
      ensures Valid()
      ensures r == 0 <==> Starved(old(mem), old(row), old(live), old(contiguous), bytes, start, first, second)
      ensures r == 0 ==> grew && Untouched()
      ensures r != 0 ==>
                r % 8 == 0 && bytes < MAX_REQUEST && Handed(r - 8, RequestToSize(bytes)) && bytes + 4 <= row[r - 8]
      // no avoidable growth
      ensures bytes < MAX_REQUEST ==>
                (grew <==> old(mem.topsize) <= RequestToSize(bytes)
                           && NoneFits(old(row), old(live), RequestToSize(bytes)))
      ensures grew && r != 0 ==>
                mem.segsize == old(mem.segsize)
                               + Grant(old(mem), old(contiguous), RequestToSize(bytes), start, first)
      ensures grew && r != 0 ==> r - 8 == if old(mem.top) == 0 then start else old(mem.top)
      ensures !grew ==> SameSegment()
      ensures grew && r != 0 ==>
                old(mem.segsize) < mem.segsize && mem.base == if old(mem.top) == 0 then start else old(mem.base)
      // the top is cut only when no free chunk fits, and the best fitting free chunk is taken
      ensures !grew && r - 8 !in old(row) ==>
                r - 8 == old(mem.top) && NoneFits(old(row), old(live), RequestToSize(bytes))
      ensures r != 0 && r - 8 in old(row) ==> Choice(old(row), old(live), old(mem.dv), bytes, r - 8)
    {
      hide SmallBins.Valid, TreeBins.Valid, TreeBins.State, HeapOk, Choice, NoneFits, Kept, Heap.Memory,
           RequestToSize, CanGrow, Grant;
      PaddedHolds(bytes);
      LargestRequest();
      var nb, p := Search(bytes);
      grew := false;
      if p == 0 {
        assert mem == old(mem) && row == old(row) && live == old(live) && contiguous == old(contiguous);
        if bytes < MAX_REQUEST && nb <= mem.dvsize {
          ChoiceIsFree(row, live, mem.dv, bytes, mem.dv);
          ChoiceFits(row, live, mem.dv, bytes, mem.dv);
        }
        p, grew := Fallback(nb, start, first, second);
        if p == 0 {
          return 0, grew;
        }
      } else {
        ChoiceIsFree(old(row), old(live), old(mem.dv), bytes, p);
        ChoiceFits(old(row), old(live), old(mem.dv), bytes, p);
      }
      InUse(p);
      r := p + 8;
    }

    /** `dlfree` (without trimming). */
    method DlFree(r: int)
      requires Valid() && (r != 0 ==> r - 8 in live)
      modifies this, small, trees
      ensures Valid()
      ensures r == 0 ==> Untouched()
      ensures SameSegment() && (r != 0 ==> live == old(live) - {r - 8})
      ensures forall q :: q in live ==> q in row && q in old(row) && row[q] == old(row)[q]
      ensures Kept(old(Memory()), Memory(), old(row), row, live)
    {
      hide SmallBins.Valid, TreeBins.Valid, TreeBins.State, HeapOk, Size, Kept;
      LiveRow();
      KeptRefl(Memory(), row, row, live);
      if r != 0 {
        var p := r - 8;
        InUse(p);
        HeapChunk(mem, row, live, small.chunks, trees.Chunks(), p);
        DisposeChunk(p, Size(mem.tags, p));
        ReadyIsValid();
      }
    }

    // ---- resizing in place ----

    /** The chunk `p`, in use, has been resized to hold `nb`; nothing else in use has changed. */
    twostate predicate Resized(p: int, nb: nat)
      reads this, small, trees
    {
      && live == old(live) && p in row && nb <= row[p] < nb + MIN_CHUNK_SIZE
      && (forall q :: q in live && q != p ==> q in row && q in old(row) && row[q] == old(row)[q])
      && SameSegment()
      && Kept(old(Memory()), Memory(), old(row), row, live)
    }

    /** The excess of a chunk in use is cut off and released. */
    method Shrink(p: int, nb: nat)
      requires Ready() && p in live && p in row && Aligned(nb) && MIN_CHUNK_SIZE <= nb && nb + MIN_CHUNK_SIZE <= row[p]
      modifies this, small, trees
      ensures Ready() && Resized(p, nb) && row[p] == nb
    {
      hide SmallBins.Valid, TreeBins.Valid, TreeBins.State, HeapOk, Size, Cinuse, Pinuse, SetInuse, Split, Aligned,
           Kept;
      ghost var h, C, i0, L := mem, row, Memory(), live;
      HeapChunk(h, C, L, small.chunks, trees.Chunks(), p);
      var rsize := Size(mem.tags, p) - nb;
      mem := mem.(tags := SetInuse(mem.tags, p, nb));
      mem := mem.(tags := SetInuse(mem.tags, p + nb, rsize));
      SplitStep(i0, mem.tags, h, C, L, small.chunks, trees.Chunks(), p, nb);
      row, live := Split(row, p, nb), live + {p + nb};
      ghost var i1, C1 := Memory(), row;
      DisposeChunk(p + nb, rsize);
      KeptTrans(i0, i1, Memory(), C, C1, row, L);
    }

    /** The chunk grows into the top. */
    method GrowIntoTop(p: int, oldsize: nat, nb: nat)
      requires Ready() && p in live && p in row && oldsize == row[p] && p + oldsize == mem.top
      requires Aligned(nb) && oldsize < nb < oldsize + mem.topsize
      modifies this
      ensures Ready() && Resized(p, nb)
    {
      hide SmallBins.Valid, TreeBins.Valid, TreeBins.State, HeapOk, SetInuse, SetTop, Aligned, Kept;
      TopStep(Memory(), mem, row, live, small.chunks, trees.Chunks(), p, nb);
      var newtopsize := oldsize + mem.topsize - nb;
      mem := mem.(tags := SetInuse(mem.tags, p, nb));
      mem := mem.(tags := SetTop(mem.tags, p + nb, newtopsize), top := p + nb, topsize := newtopsize);
      row := row[p := nb];
    }

    /** The chunk grows into the designated victim. */
    method GrowIntoVictim(p: int, oldsize: nat, nb: nat)
      requires Ready() && p in live && p in row && oldsize == row[p] && p + oldsize == mem.dv && mem.dv in row
      requires mem.dv !in live
      requires Aligned(nb) && oldsize < nb <= oldsize + mem.dvsize && row[mem.dv] == mem.dvsize
      modifies this
      ensures Ready() && Resized(p, nb)
    {
      hide SmallBins.Valid, TreeBins.Valid, TreeBins.State, HeapOk, SetInuse, SetSizeOfFree, SetPinuse, Split, Merged,
           Aligned, Kept;
      ghost var h, C, S, T, i0 := mem, row, small.chunks, trees.Chunks(), Memory();
      var dsize := oldsize + mem.dvsize - nb;
      if dsize >= MIN_CHUNK_SIZE {
        VictimStep(i0, h, C, live, S, T, p, nb);
        mem := mem.(tags := SetInuse(mem.tags, p, nb));
        mem := mem.(tags := SetSizeOfFree(mem.tags, p + nb, dsize));
        mem := mem.(tags := SetPinuse(mem.tags, p + nb + dsize, false));
        mem := mem.(dvsize := dsize, dv := p + nb);
        row := Split(Merged(row, p), p, nb);
      } else {
        ResizeOverVictim(h, C, live, S, T, p);
        WholeKept(i0, h, C, live, S, T, p, mem.dv, oldsize + mem.dvsize);
        mem := mem.(tags := SetInuse(mem.tags, p, oldsize + mem.dvsize));
        mem := mem.(dvsize := 0, dv := 0);
        row := Merged(row, p);
      }
    }

    /** The chunk grows into the binned free chunk behind it. */
    method GrowIntoFree(p: int, oldsize: nat, n: int, nb: nat)
      requires Ready() && p in live && p in row && oldsize == row[p] && n == p + oldsize && n in row && n !in live
      requires n != mem.dv
      requires Aligned(nb) && oldsize < nb <= oldsize + row[n]
      modifies this, small, trees
      ensures Ready() && Resized(p, nb)
    {
      hide SmallBins.Valid, TreeBins.Valid, TreeBins.State, HeapOk, Unbinned, SetInuse, Split, Merged, Aligned, Size,
           Cinuse, Pinuse, Kept, LinksOnly;
      ghost var h, C, S, T, i0, L := mem, row, small.chunks, trees.Chunks(), Memory(), live;
      HeapChunk(h, C, L, S, T, n);
      var nextsize := Size(mem.tags, n);
      var rsize := oldsize + nextsize - nb;
      UnlinkedIs(h, C, L, S, T, n);
      UnlinkChunk(n, nextsize);
      ghost var i1 := Memory();
      HeapLinks(i0, i1, h, C, L, S, T);
      if rsize < MIN_CHUNK_SIZE {
        ResizeOverFree(h, C, live, small.chunks, trees.Chunks(), p, n);
        WholeKept(i1, h, C, L, S, T, p, n, oldsize + nextsize);
        mem := mem.(tags := SetInuse(mem.tags, p, oldsize + nextsize));
        row := Merged(row, p);
        KeptTrans(i0, i1, Memory(), C, C, row, L);
      } else {
        mem := mem.(tags := SetInuse(mem.tags, p, nb));
        mem := mem.(tags := SetInuse(mem.tags, p + nb, rsize));
        FreeStep(i1, mem.tags, h, C, L, S, T, small.chunks, trees.Chunks(), p, n, nb);
        row, live := Split(Merged(row, p), p, nb), live + {p + nb};
        KeptTrans(i0, i1, Memory(), C, C, row, L);
        ReleaseRest(i0, C, p, p + nb, rsize);
      }
    }

    /** The second part of a chunk in use that has been cut in two is released. */
    method ReleaseRest(ghost i0: Image, ghost C: Chunks, p: int, r: int, rsize: nat)
      requires Ready() && p in live && p in row && r in live && r in row && rsize == row[r] && p != r
      requires Kept(i0, Memory(), C, row, live - {r}) && p in C && C[p] < row[p]
      requires forall q :: q in live && q != r && q != p ==> q in C && q in row && C[q] == row[q]
      modifies this, small, trees
      ensures Ready() && live == old(live) - {r}
      ensures SameSegment()
      ensures forall q :: q in live ==> q in row && q in old(row) && row[q] == old(row)[q]
      ensures Kept(i0, Memory(), C, row, live)
    {
      hide SmallBins.Valid, TreeBins.Valid, TreeBins.State, HeapOk, Kept;
      ghost var i1, C1 := Memory(), row;
      DisposeChunk(r, rsize);
      KeptTrans(i0, i1, Memory(), C, C1, row, live);
    }

    /** `try_realloc_chunk`: resizes in place exactly when the chunk and the free space directly behind
        it suffice, and otherwise changes nothing. */
    method TryReallocChunk(p: int, nb: nat) returns (ok: bool)
      requires Ready() && p in live && Aligned(nb) && MIN_CHUNK_SIZE <= nb < WORD
      modifies this, small, trees
      ensures Ready()
      ensures ok <==> p in old(row) && Resizable(old(row), live, old(mem.top), old(mem.topsize), p, nb)
      ensures if ok then Resized(p, nb) else Untouched() && SameSegment()
    {
      hide SmallBins.Valid, TreeBins.Valid, TreeBins.State, HeapOk, Cinuse, Size, Aligned, Kept;
      Behind(mem, row, live, small.chunks, trees.Chunks(), p);
      HeapLive(mem, row, live, small.chunks, trees.Chunks());
      KeptRefl(Memory(), row, row, live);
      var oldsize := Size(mem.tags, p);
      var next := p + oldsize;
      ok := false;
      if oldsize >= nb {
        var rsize := oldsize - nb;
        if rsize >= MIN_CHUNK_SIZE {
          Shrink(p, nb);
        }
        ok := true;
      } else if next == mem.top {
        if oldsize + mem.topsize > nb {
          GrowIntoTop(p, oldsize, nb);
          ok := true;
        }
      } else if next == mem.dv {
        if oldsize + mem.dvsize >= nb {
          GrowIntoVictim(p, oldsize, nb);
          ok := true;
        }
      } else if !Cinuse(mem.tags, next) {
        var nextsize := Size(mem.tags, next);
        if oldsize + nextsize >= nb {
          GrowIntoFree(p, oldsize, next, nb);
          ok := true;
        }
      }
    }

    // ---- aligned allocation ----

    /** The leader of a chunk in use is cut off and released; the rest stays in use. */
    method CutLeader(p: int, newp: int)
      requires Ready() && p in live && p in row && Aligned(newp)
      requires p + MIN_CHUNK_SIZE <= newp && newp + MIN_CHUNK_SIZE <= p + row[p]
      modifies this, small, trees
      ensures Ready() && SameSegment() && newp !in old(row) && live == old(live) - {p} + {newp}
      ensures newp in row && row[newp] == old(row[p]) - (newp - p)
      ensures forall q :: q in live && q != newp ==> q in row && q in old(row) && row[q] == old(row)[q]
      ensures Kept(old(Memory()), Memory(), old(row), row, old(live) - {p})
    {
      hide SmallBins.Valid, TreeBins.Valid, TreeBins.State, HeapOk, Size, Cinuse, Pinuse, SetInuse, Split, Aligned,
           Kept;
      ghost var h, C, i0, L := mem, row, Memory(), live;
      HeapChunk(h, C, L, small.chunks, trees.Chunks(), p);
      var leadsize := newp - p;
      var newsize := Size(mem.tags, p) - leadsize;
      AlignedSum(newp, p);
      mem := mem.(tags := SetInuse(mem.tags, newp, newsize));
      mem := mem.(tags := SetInuse(mem.tags, p, leadsize));
      SplitStep(i0, mem.tags, h, C, L, small.chunks, trees.Chunks(), p, leadsize);
      row, live := Split(row, p, leadsize), live + {newp};
      ghost var i1, C1 := Memory(), row;
      KeptFewer(i0, i1, C, C1, L, L - {p});
      DisposeChunk(p, leadsize);
      KeptFewer(i1, Memory(), C1, row, live, L - {p});
      KeptTrans(i0, i1, Memory(), C, C1, row, L - {p});
    }

    /** The aligned spot inside the chunk `p`: the leader before it is given back. */
    method MoveToAlignment(p: int, al: nat) returns (q: int)
      requires Ready() && p in live && p in row && PowerOfTwo(al) && MIN_CHUNK_SIZE <= al
      requires al + 2 * MIN_CHUNK_SIZE <= row[p]
      modifies this, small, trees
      ensures Ready() && SameSegment() && AlignedTo(q + 8, al)
      ensures live == old(live) - {p} + {q} && (q == p || q !in old(row))
      ensures q in row && old(row)[p] - al - 8 <= row[q] <= old(row)[p]
      ensures forall u :: u in live && u != q ==> u in row && u in old(row) && row[u] == old(row)[u]
      ensures Kept(old(Memory()), Memory(), old(row), row, old(live) - {p})
    {
      hide SmallBins.Valid, TreeBins.Valid, TreeBins.State, HeapOk, Size, PowerOfTwo, RoundUp, Kept, AlignedChunk;
      q := p;
      InUse(p);
      HeapLive(mem, row, live, small.chunks, trees.Chunks());
      KeptRefl(Memory(), row, row, live - {p});
      if !AlignedTo(p + 8, al) {
        AlignedChunkIs(p, al);
        AlignedIs(AlignedChunk(p, al));
        q := AlignedChunk(p, al);
        CutLeader(p, q);
      }
    }

    /** Spare room at the end of `p` is given back. */
    method GiveBackTail(p: int, nb: nat)
      requires Ready() && p in live && p in row && Aligned(nb) && MIN_CHUNK_SIZE <= nb <= row[p]
      modifies this, small, trees
      ensures Ready() && SameSegment() && live == old(live) && p in row && nb <= row[p] <= nb + MIN_CHUNK_SIZE
      ensures forall u :: u in live && u != p ==> u in row && u in old(row) && row[u] == old(row)[u]
      ensures row[p] <= old(row)[p] && Kept(old(Memory()), Memory(), old(row), row, live)
    {
      hide SmallBins.Valid, TreeBins.Valid, TreeBins.State, HeapOk, Size, Kept, Aligned;
      HeapLive(mem, row, live, small.chunks, trees.Chunks());
      HeapChunk(mem, row, live, small.chunks, trees.Chunks(), p);
      KeptRefl(Memory(), row, row, live);
      var size := Size(mem.tags, p);
      if size > nb + MIN_CHUNK_SIZE {
        Shrink(p, nb);
      }
    }

    /** `internal_memalign` */
    method InternalMemalign(alignment: nat, bytes: nat, start: int, first: bool, second: bool)
      returns (r: int, ghost a: nat, ghost grew: bool)
      requires Valid() && bytes < WORD && alignment <= 0x8000_0000
      requires 0 < start < WORD && Aligned(start)
      modifies this, small, trees
      ensures Valid() && LeastPower(a, alignment)
      ensures bytes >= MAX_REQUEST - a ==> r == 0
      ensures r == 0 ==> Untouched()
      ensures !grew ==> SameSegment()
      ensures grew && r != 0 ==>
                old(mem.segsize) < mem.segsize && mem.base == if old(mem.top) == 0 then start else old(mem.base)
      ensures r != 0 ==> 0 < r && AlignedTo(r, a) && r % 8 == 0
      ensures r != 0 ==> r - 8 !in old(live) && live == old(live) + {r - 8} && r - 8 in row
      ensures r != 0 ==> bytes + 4 <= RequestToSize(bytes) <= row[r - 8] <= RequestToSize(bytes) + MIN_CHUNK_SIZE
      ensures forall q :: q in old(live) ==> q in live && q in row && q in old(row) && row[q] == old(row)[q]
      ensures r == 0 <==>
                bytes >= MAX_REQUEST - a
                || Starved(old(mem), old(row), old(live), old(contiguous), AlignedRequest(a, bytes), start, first,
                           second)
      ensures r != 0 ==> Kept(old(Memory()), Memory(), old(row), row, old(live))
    {
      hide SmallBins.Valid, TreeBins.Valid, TreeBins.State, HeapOk, Size, PowerOfTwo, RoundUp, Choice, NoneFits, Kept,
           LeastPower, AlignedTo, Aligned, Heap.Memory;
      var al := RoundAlignment(alignment);
      a, r, grew := al, 0, false;
      ghost var i0, C, L := Memory(), row, live;
      LiveRow();
      LeastFacts(al, alignment);
      PowerIsAligned(al);
      if bytes >= MAX_REQUEST - al {
        return;
      }
      PaddedHolds(bytes);
      var nb := RequestToSize(bytes);
      var req := AlignedRequest(al, bytes);
      r, grew := DlMalloc(req, start, first, second);
      if r == 0 {
        return;
      }
      PaddedHolds(req);
      var p := r - 8;
      InUse(p);
      ghost var i1, C1, L1 := Memory(), row, live;
      assert L1 - {p} == L;
      AlignedIs(nb);
      p := Carve(p, al, nb);
      KeptTrans(i0, i1, Memory(), C, C1, row, L);
      ReadyIsValid();
      InUse(p);
      r := p + 8;
    }

    /** The aligned part of the chunk `p` that is handed out: leader and tail are given back. */
    method Carve(p: int, al: nat, nb: nat) returns (q: int)
      requires Ready() && p in live && p in row && PowerOfTwo(al) && MIN_CHUNK_SIZE <= al
      requires Aligned(nb) && MIN_CHUNK_SIZE <= nb && nb + al + MIN_CHUNK_SIZE <= row[p]
      modifies this, small, trees
      ensures Ready() && SameSegment() && AlignedTo(q + 8, al)
      ensures live == old(live) - {p} + {q} && (q == p || q !in old(row))
      ensures q in row && nb <= row[q] <= nb + MIN_CHUNK_SIZE
      ensures forall u :: u in live && u != q ==> u in row && u in old(row) && row[u] == old(row)[u]
      ensures Kept(old(Memory()), Memory(), old(row), row, old(live) - {p})
    {
      hide SmallBins.Valid, TreeBins.Valid, TreeBins.State, HeapOk, Size, PowerOfTwo, Kept, AlignedTo, Aligned,
           Heap.Memory;
      ghost var i0, C, L := Memory(), row, live - {p};
      q := MoveToAlignment(p, al);
      ghost var i1, C1 := Memory(), row;
      GiveBackTail(q, nb);
      KeptFewer(i1, Memory(), C1, row, live, L);
      KeptTrans(i0, i1, Memory(), C, C1, row, L);
    }

    lemma LiveRow()
      requires Valid()
      ensures live <= row.Keys
    {
      hide SmallBins.Valid, TreeBins.Valid, HeapOk;
      if mem.top != 0 {
        HeapLive(mem, row, live, small.chunks, trees.Chunks());
      }
    }

    /** `dlmemalign` */
    method DlMemalign(alignment: nat, bytes: nat, start: int, first: bool, second: bool) returns (r: int, ghost a: nat)
      requires Valid() && bytes < WORD && alignment <= 0x8000_0000
      requires 0 < start < WORD && Aligned(start)
      modifies this, small, trees
      ensures Valid()
      ensures r == 0 <==>
                AlignedStarved(old(mem), old(row), old(live), old(contiguous), alignment, a, bytes, start, first,
                               second)
      ensures r == 0 ==> Untouched()
      ensures r != 0 ==> bytes < MAX_REQUEST
      ensures alignment <= 8 ==> a == 8
      ensures 8 < alignment ==> LeastPower(a, alignment)
      ensures r != 0 ==>
                AlignedTo(r, a) && r % 8 == 0 && r - 8 !in old(live) && live == old(live) + {r - 8} && r - 8 in row
      ensures r != 0 ==> bytes + 4 <= row[r - 8]
      ensures r != 0 ==> Kept(old(Memory()), Memory(), old(row), row, old(live))
      ensures r != 0 ==> forall q :: q in old(live) ==> q in row && q in old(row) && row[q] == old(row)[q]
    {
      hide SmallBins.Valid, TreeBins.Valid, TreeBins.State, HeapOk, Choice, NoneFits, Kept, LeastPower;
      if alignment <= 8 {
        ghost var grew;
        r, grew := DlMalloc(bytes, start, first, second);
        a := 8;
      } else {
        ghost var grew;
        r, a, grew := InternalMemalign(alignment, bytes, start, first, second);
        LeastFacts(a, alignment);
      }
    }

    // ---- the client ----

    /** The client stores the word `v` at `x`, inside its block `q` + 8: whatever it overwrites, the allocator's
        data stay intact, and so do all other blocks. */
    method ClientStore(q: int, x: int, v: nat)
      requires Valid() && q in live && q in row && WordOfPayload(x, q, row[q])
      modifies this`mem, small`fd, small`bk, trees`mem
      ensures Valid() && mem == old(mem).(tags := mem.tags)
      ensures Stored(old(Memory()), Memory(), x, v)
      ensures Kept(old(Memory()), Memory(), row, row, live - {q})
    {
      hide HeapOk, TreesOk, Lists, Links, StoreTags, StoreFd, StoreBk, StoreTree, Stored, Kept, Layout;
      ghost var i, S, T, t := Memory(), small.chunks, trees.Chunks(), trees.mem;
      LiveReady();
      NotBinned(mem, row, live, S, T, q, x);
      HeapRow(mem, row, live, S, T);
      HeapSurvives(mem, row, live, S, T, q, x, v);
      SmallStored(small.fd, small.bk, small.bins, S, x, v);
      TreesStored(trees.State(), t, x, v);
      StoredIs(i, t, x, v);
      mem := mem.(tags := StoreTags(mem.tags, x, v));
      small.fd := StoreFd(small.fd, x, v);
      small.bk := StoreBk(small.bk, x, v);
      trees.mem := StoreTree(trees.mem, x, v);
      assert Memory() == After(i, t, x, v);
      OthersKept(i, Memory(), row, mem.base, mem.top, live, q, x, v);
    }

    /** `memcpy` of `n` bytes from the block `p` + 8 to the block `q` + 8, in words; of the last word only the bytes
        asked for change. */
    method CopyWords(q: int, p: int, n: nat)
      requires Valid() && q in live && q in row && n + 4 <= row[q] && q % 8 == 0
      requires p in live && p in row && n + 4 <= row[p] && p % 8 == 0 && p != q
      modifies this`mem, small`fd, small`bk, trees`mem
      ensures Valid() && mem == old(mem).(tags := mem.tags)
      ensures Kept(old(Memory()), Memory(), row, row, live - {q})
      ensures Copied(old(mem.tags), mem.tags, p + 8, q + 8, n)
    {
      hide SmallBins.Valid, TreeBins.Valid, TreeBins.State, Heap.Valid, Kept, Stored, WordOfPayload, Nth, Blend, Copied;
      ghost var i := Memory();
      LiveRow();
      KeptRefl(i, row, row, live - {q});
      NothingCopied(mem.tags, p + 8, q + 8);
      var k := 0;
      while 4 * k < n
        invariant Valid() && mem == old(mem).(tags := mem.tags)
        invariant Kept(i, Memory(), row, row, live - {q})
        invariant Copied(i.tags, mem.tags, p + 8, q + 8, Min(4 * k, n))
      {
        ghost var i1 := Memory();
        WordInside(q, 4 * k, n, row[q]);
        var v := Blend(Nth(mem.tags, q + 8, k), Nth(mem.tags, p + 8, k), n - 4 * k);
        ClientStore(q, q + 8 + 4 * k, v);
        CopyStep(i, i1, Memory(), row, live - {q}, p, q, k, n);
        KeptTrans(i, i1, Memory(), row, row, row, live - {q});
        k := k + 1;
      }
    }

    // ---- realloc ----

    /** Chunks in use do not overlap. */
    lemma LiveDisjoint(p: int, q: int)
      requires Valid() && p in live && q in live && p != q
      ensures p in row && q in row && (p + row[p] <= q || q + row[q] <= p)
    {
      hide SmallBins.Valid, TreeBins.Valid, HeapOk, Layout;
      HeapRow(mem, row, live, small.chunks, trees.Chunks());
      Disjoint(row, mem.base, mem.top, p, q);
    }

    /** `dlrealloc` */
    method DlRealloc(oldmem: int, bytes: nat, start: int, first: bool, second: bool) returns (r: int)
      requires Valid() && bytes < WORD && (oldmem != 0 ==> oldmem - 8 in live)
      requires 0 < start < WORD && Aligned(start)
      modifies this, small, trees
      ensures Valid()
      ensures r == 0 <==>
                || bytes >= MAX_REQUEST
                || (!(oldmem != 0 && FitsInPlace(old(mem), old(row), old(live), oldmem, bytes))
                    && Starved(old(mem), old(row), old(live), old(contiguous), bytes, start, first, second))
      ensures oldmem != 0 ==>
                (r == oldmem <==> bytes < MAX_REQUEST && FitsInPlace(old(mem), old(row), old(live), oldmem, bytes))
      ensures r == 0 ==> Untouched()
      ensures r != 0 ==> r - 8 in row && r % 8 == 0 && bytes < MAX_REQUEST && bytes + 4 <= row[r - 8]
      ensures r != 0 ==> RequestToSize(bytes) <= row[r - 8] < RequestToSize(bytes) + MIN_CHUNK_SIZE
      ensures r != 0 && r == oldmem ==> SameSegment()
      ensures r != 0 ==> live == old(live) - {oldmem - 8} + {r - 8} && (r == oldmem || r - 8 !in old(live))
      ensures r != 0 && oldmem != 0 ==>
                oldmem - 8 in old(row)
                && Copied(old(mem.tags), mem.tags, oldmem, r, Min(bytes, old(row)[oldmem - 8] - 4))
      ensures r != 0 ==> forall q :: q in old(live) && q != oldmem - 8 ==>
                q in row && q in old(row) && row[q] == old(row)[q]
      ensures r != 0 ==> Kept(old(Memory()), Memory(), old(row), row, live * old(live))
    {
      hide SmallBins.Valid, TreeBins.Valid, TreeBins.State, HeapOk, Choice, NoneFits, Kept, Size,
           Cinuse, Pinuse, Resizable, Copied, Exhausted, RequestToSize;
      r := 0;
      LiveRow();
      NotInUse();
      if oldmem == 0 {
        ghost var grew;
        r, grew := DlMalloc(bytes, start, first, second);
        NotInUse();
        assert r != 0 ==> live * old(live) == old(live);
      } else if bytes < MAX_REQUEST {
        var nb := RequestToSize(bytes);
        PaddedHolds(bytes);
        var p := oldmem - 8;
        LiveReady();
        InUse(p);
        ghost var i, C := Memory(), row;
        LongEnough(p);
        var ok := TryReallocChunk(p, nb);
        if ok {
          ReadyIsValid();
          assert live * old(live) == live && live - {p} + {p} == live;
          r := p + 8;
          InPlace(i, Memory(), C, row, live, p, Min(bytes, C[p] - 4));
        } else {
          ReadyIsValid();
          r := Move(p, bytes, start, first, second);
        }
      }
    }

    lemma LongEnough(p: int)
      requires Ready() && p in live
      ensures p in row && MIN_CHUNK_SIZE <= row[p] && row[p] % 8 == 0
    {
      hide SmallBins.Valid, TreeBins.Valid, HeapOk;
      InUse(p);
      HeapChunk(mem, row, live, small.chunks, trees.Chunks(), p);
    }

    /** A block in use can be shrunk where it is. */
    lemma Shrinkable(p: int, n: nat)
      requires Valid() && p in live && p in row && n + 4 <= row[p]
      ensures FitsInPlace(mem, row, live, p + 8, n)
    {
      hide SmallBins.Valid, TreeBins.Valid, HeapOk;
      LiveReady();
      LongEnough(p);
      PaddedIsLeast(n, row[p]);
    }

    lemma NotInUse()
      requires Valid()
      ensures -8 !in live
    {
      hide SmallBins.Valid, TreeBins.Valid, HeapOk;
      if -8 in live {
        InUse(-8);
      }
    }

    lemma LiveReady()
      requires Valid() && live != {}
      ensures Ready()
    {
      hide SmallBins.Valid, TreeBins.Valid, HeapOk;
    }

    /** The block is moved: a new chunk, the contents copied, the old chunk released. */
    method Move(p: int, bytes: nat, start: int, first: bool, second: bool) returns (r: int)
      requires Valid() && bytes < WORD && p in live && p in row && 4 <= row[p]
      requires 0 < start < WORD && Aligned(start)
      modifies this, small, trees
      ensures Valid()
      ensures r == 0 <==> Starved(old(mem), old(row), old(live), old(contiguous), bytes, start, first, second)
      ensures r == 0 ==> Untouched()
      ensures r != 0 ==> r - 8 in row && r % 8 == 0 && bytes < MAX_REQUEST && bytes + 4 <= row[r - 8]
      ensures r != 0 ==> RequestToSize(bytes) <= row[r - 8] < RequestToSize(bytes) + MIN_CHUNK_SIZE
      ensures r != 0 ==> live == old(live) - {p} + {r - 8} && r - 8 !in old(live)
      ensures r != 0 ==> Copied(old(mem.tags), mem.tags, p + 8, r, Min(bytes, old(row)[p] - 4))
      ensures r != 0 ==> forall q :: q in old(live) && q != p ==> q in row && q in old(row) && row[q] == old(row)[q]
      ensures r != 0 ==> Kept(old(Memory()), Memory(), old(row), row, live * old(live))
    {
      hide SmallBins.Valid, TreeBins.Valid, TreeBins.State, HeapOk, Choice, NoneFits, Kept, Size,
           Cinuse, Pinuse, Copied, KeptAt, Exhausted, RequestToSize;
      ghost var i0, C, L := Memory(), row, live;
      ghost var grew;
      r, grew := DlMalloc(bytes, start, first, second);
      if r != 0 {
        LiveReady();
        HeapChunk(mem, row, live, small.chunks, trees.Chunks(), p);
        LiveDisjoint(p, r - 8);
        InUse(p);
        var oc := Size(mem.tags, p) - 4;
        var n := if oc < bytes then oc else bytes;
        ghost var i1, C1 := Memory(), row;
        KeptFewer(i0, i1, C, C1, L, {p});
        CopyWords(r - 8, p, n);
        ghost var i2 := Memory();
        assert live - {r - 8} == L;
        KeptTrans(i0, i1, i2, C, C1, C1, L);
        DlFree(p + 8);
        assert live * L == L - {p};
        KeptFewer(i0, i2, C, C1, L, L - {p});
        KeptFewer(i2, Memory(), C1, row, live, L - {p});
        KeptTrans(i0, i2, Memory(), C, C1, row, L - {p});
        LiveRow();
        KeptFewer(i2, Memory(), C1, row, live, {r - 8});
        CopyKept(i0, i1, i2, Memory(), C, C1, row, p, r - 8, n);
      }
    }
  }
}
