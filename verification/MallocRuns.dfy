/** Whole runs of a client of the allocator. */
module MallocRuns {
  import opened Arithmetic
  import opened MallocSizes
  import opened MallocTags
  import opened MallocLayout
  import opened MallocHeapInv
  import opened MallocGrowth
  import opened MallocHeapFacts
  import opened MallocPayload
  import opened MallocSmallBins
  import opened MallocTreeBins
  import opened MallocAlign
  import opened MallocClient
  import opened MallocHeap

  /** One step of a client: a call, or a store of a word into one of its blocks. `first` and `second` say
      whether MORECORE would grant memory; a step that names a block the client does not own, or a word outside
      it, is not made. */
  datatype Call =
    | Malloc(bytes: nat, first: bool, second: bool)
    | Memalign(alignment: nat, bytes: nat, first: bool, second: bool)
    | Realloc(block: int, bytes: nat, first: bool, second: bool)
    | Free(block: int)
    | Store(block: int, offset: nat, value: nat)

  ghost predicate Legal(c: Call) {
    match c
    case Malloc(bytes, _, _) => bytes < WORD
    case Memalign(alignment, bytes, _, _) => bytes < WORD && alignment <= 0x8000_0000
    case Realloc(_, bytes, _, _) => bytes < WORD
    case Free(_) => true
    case Store(_, offset, value) => offset % 4 == 0 && value < WORD
  }

  /** What the client knows about a block: its bytes, and the words it has stored, by their offset. */
  datatype Block = Block(bytes: nat, words: map<nat, nat>)

  /** The words that still fit into `n` bytes. */
  function Upto(words: map<nat, nat>, n: nat): map<nat, nat> {
    map k | k in words && k + 4 <= n :: words[k]
  }

  /** A block of `n` bytes has been added, with the words `w`. */
  ghost predicate Gained(b: map<int, Block>, b': map<int, Block>, n: nat, w: map<nat, nat>) {
    exists r :: r !in b && b' == b[r := Block(n, w)]
  }

  ghost predicate GainedAt(b: map<int, Block>, b': map<int, Block>, n: nat, a: nat) {
    exists r :: r !in b && AlignedTo(r, a) && b' == b[r := Block(n, map[])]
  }

  /** The alignment that `dlmemalign` works with. */
  ghost predicate WorksWith(a: nat, alignment: nat) {
    if alignment <= 8 then a == 8 else LeastPower(a, alignment)
  }

  /** The state of the allocator and of the client's books between two steps. */
  datatype Moment = Moment(h: HeapMem, row: Chunks, live: set<int>, contiguous: bool, books: map<int, Block>)

  /** `dlmalloc` of `bytes` fails from there. */
  ghost predicate Fails(m: Moment, bytes: nat, start: nat, first: bool, second: bool) {
    Starved(m.h, m.row, m.live, m.contiguous, bytes, start, first, second)
  }

  /** The step `c` of a client: what it gets or loses, and exactly when a call for memory fails. A block that shrinks,
      or grows into the free space behind it, stays where it is. */
  ghost predicate Next(c: Call, m: Moment, m': Moment, start: nat) {
    var b, b' := m.books, m'.books;
    match c
    case Malloc(bytes, first, second) =>
      if Fails(m, bytes, start, first, second) then b' == b else Gained(b, b', bytes, map[])
    case Memalign(alignment, bytes, first, second) =>
      exists a :: WorksWith(a, alignment) &&
        if AlignedStarved(m.h, m.row, m.live, m.contiguous, alignment, a, bytes, start, first, second) then b' == b
        else GainedAt(b, b', bytes, a)
    case Realloc(block, bytes, first, second) =>
      if block !in b || bytes >= MAX_REQUEST then b' == b
      else
        var words := Upto(b[block].words, bytes);
        if bytes <= b[block].bytes || FitsInPlace(m.h, m.row, m.live, block, bytes)
        then b' == b[block := Block(bytes, words)]
        else if Fails(m, bytes, start, first, second) then b' == b
        else Gained(b - {block}, b', bytes, words) && block !in b'
    case Free(block) => b' == b - {block}
    case Store(block, k, value) =>
      b' == if block in b && k + 4 <= b[block].bytes
            then b[block := b[block].(words := b[block].words[k := value])] else b
  }

  /** The block `r` is a chunk in use, 8-aligned, with room for its bytes, and has the words that the client has
      stored there. */
  ghost predicate Holds(C: Chunks, live: set<int>, m: TagMem, r: int, b: Block) {
    && r % 8 == 0 && r - 8 in live && r - 8 in C && b.bytes + 4 <= C[r - 8] && b.bytes < MAX_REQUEST
    && forall k :: k in b.words ==> k % 4 == 0 && k + 4 <= b.bytes && WordOf(m, r + k) == b.words[k]
  }

  /** The block is the client's since memory was `born`: no word of its payload has been written by the allocator
      since then. */
  ghost predicate Owned(i: Image, C: Chunks, live: set<int>, r: int, b: Block, born: Image) {
    Holds(C, live, born.tags, r, b) && KeptAt(born, i, r - 8, C[r - 8])
  }

  /** The client's books agree with the allocator: its blocks are exactly the chunks in use. */
  ghost predicate Agree(i: Image, C: Chunks, live: set<int>, books: map<int, Block>, born: map<int, Image>) {
    && born.Keys == books.Keys
    && (forall p :: p in live ==> p + 8 in books)
    && (forall r :: r in books ==> Owned(i, C, live, r, books[r], born[r]))
  }

  ghost predicate Books(heap: Heap, books: map<int, Block>, born: map<int, Image>)
    reads heap, heap.small, heap.trees
  {
    heap.Valid() && Agree(heap.Memory(), heap.row, heap.live, books, born)
  }

  /** One call leaves the other blocks alone. */
  lemma StillOwned(i: Image, i': Image, C: Chunks, C': Chunks, L: set<int>, L': set<int>, r: int, b: Block,
                   born: Image)
    requires Owned(i, C, L, r, b, born) && r - 8 in L' && r - 8 in C' && C'[r - 8] == C[r - 8]
    requires Kept(i, i', C, C', L' * L)
    ensures Owned(i', C', L', r, b, born)
  {
    hide KeptAt, WordOf;
    KeptAtTrans(born, i, i', r - 8, C[r - 8]);
  }

  lemma KeptAtRefl(i: Image, q: int, s: nat)
    ensures KeptAt(i, i, q, s)
  {
  }

  /** What the client stored is still there. */
  lemma WordsThere(i: Image, C: Chunks, L: set<int>, r: int, b: Block, born: Image)
    requires Owned(i, C, L, r, b, born)
    ensures forall k :: k in b.words ==> WordOf(i.tags, r + k) == b.words[k]
  {
    hide KeptAt, WordOf;
    forall k | k in b.words
      ensures WordOf(i.tags, r + k) == b.words[k]
    {
      WordInside(r - 8, k, k + 4, C[r - 8]);
      WordKept(born, i, r - 8, C[r - 8], r + k);
    }
  }

  ghost function Now(heap: Heap, books: map<int, Block>): Moment
    reads heap
  {
    Moment(heap.mem, heap.row, heap.live, heap.contiguous, books)
  }

  /** What the client relies on: exactly its blocks are in use, they hold what they should, and none overlaps
      another. */
  ghost predicate Sound(m: Moment) {
    && (forall r: int :: r in m.books ==> Holds(m.row, m.live, m.h.tags, r, m.books[r]))
    && (forall p :: p in m.live ==> p + 8 in m.books)
    && (forall r: int, q: int :: r in m.books && q in m.books && r != q ==>
          r + m.books[r].bytes <= q || q + m.books[q].bytes <= r)
  }

  method Run(calls: seq<Call>, start: int)
    returns (heap: Heap, books: map<int, Block>, ghost born: map<int, Image>, ghost trace: seq<Moment>)
    requires 0 < start < WORD && Aligned(start)
    requires forall c :: c in calls ==> Legal(c)
    ensures fresh(heap) && Books(heap, books, born)
    ensures |trace| == |calls| + 1 && trace[0].books == map[] && trace[0].h.top == 0 && trace[0].contiguous
    ensures trace[|calls|] == Now(heap, books)
    ensures forall k :: 0 <= k < |calls| ==> Next(calls[k], trace[k], trace[k + 1], start)
    ensures forall m :: m in trace ==> Sound(m)
  {
    hide SmallBins.Valid, TreeBins.Valid, Heap.Valid, Heap.Memory, HeapOk, Agree, Holds, Aligned, Next, Legal, Sound;
    heap := new Heap();
    books, born := map[], map[];
    NoBlocks(heap.Memory(), heap.row);
    Outcome(heap, books, born);
    trace := [Now(heap, books)];
    for n := 0 to |calls|
      invariant fresh(heap) && fresh(heap.small) && fresh(heap.trees) && Books(heap, books, born)
      invariant |trace| == n + 1 && trace[0].books == map[] && trace[0].h.top == 0 && trace[0].contiguous
      invariant trace[n] == Now(heap, books)
      invariant forall k :: 0 <= k < n ==> Next(calls[k], trace[k], trace[k + 1], start)
      invariant forall m :: m in trace ==> Sound(m)
    {
      books, born := Step(heap, books, born, calls[n], start);
      Outcome(heap, books, born);
      trace := trace + [Now(heap, books)];
    }
  }

  lemma NoBlocks(i: Image, C: Chunks)
    ensures Agree(i, C, {}, map[], map[])
  {
  }

  /** What the agreement of the books means for the client. */
  lemma Outcome(heap: Heap, books: map<int, Block>, born: map<int, Image>)
    requires Books(heap, books, born)
    ensures Sound(Now(heap, books))
  {
    hide SmallBins.Valid, TreeBins.Valid, Heap.Valid, Heap.Memory, HeapOk, KeptAt, WordOf;
    ghost var i, C, L := heap.Memory(), heap.row, heap.live;
    heap.TagsOfMemory();
    forall r: int | r in books
      ensures Holds(C, L, heap.mem.tags, r, books[r])
    {
      WordsThere(i, C, L, r, books[r], born[r]);
    }
    forall r: int, q: int | r in books && q in books && r != q
      ensures r + books[r].bytes <= q || q + books[q].bytes <= r
    {
      assert Owned(i, C, L, r, books[r], born[r]) && Owned(i, C, L, q, books[q], born[q]);
      heap.LiveDisjoint(r - 8, q - 8);
    }
  }

  method Step(heap: Heap, books: map<int, Block>, ghost born: map<int, Image>, c: Call, start: int)
    returns (books': map<int, Block>, ghost born': map<int, Image>)
    requires Books(heap, books, born) && Legal(c) && 0 < start < WORD && Aligned(start)
    modifies heap, heap.small, heap.trees
    ensures Books(heap, books', born') && Next(c, old(Now(heap, books)), Now(heap, books'), start)
  {
    hide SmallBins.Valid, TreeBins.Valid, Heap.Valid, Heap.Memory, HeapOk, KeptAt, Kept, Aligned, Agree, Starved,
         AlignedStarved, FitsInPlace, WorksWith;
    match c {
      case Malloc(n, first, second) => books', born' := DoMalloc(heap, books, born, n, start, first, second);
      case Memalign(alignment, n, first, second) =>
        ghost var a;
        books', born', a := DoMemalign(heap, books, born, alignment, n, start, first, second);
      case Realloc(block, n, first, second) =>
        books', born' := DoRealloc(heap, books, born, block, n, start, first, second);
      case Free(block) => books', born' := DoFree(heap, books, born, block);
      case Store(block, k, value) => books', born' := DoStore(heap, books, born, block, k, value);
    }
  }

  method DoMalloc(heap: Heap, books: map<int, Block>, ghost born: map<int, Image>, n: nat, start: int, first: bool,
                  second: bool)
    returns (books': map<int, Block>, ghost born': map<int, Image>)
    requires Books(heap, books, born) && n < WORD && 0 < start < WORD && Aligned(start)
    modifies heap, heap.small, heap.trees
    ensures Books(heap, books', born')
    ensures if Fails(old(Now(heap, books)), n, start, first, second) then books' == books
            else Gained(books, books', n, map[])
  {
    hide SmallBins.Valid, TreeBins.Valid, Heap.Valid, Heap.Memory, HeapOk, KeptAt, Kept, Choice, NoneFits, Aligned,
         Starved;
    ghost var i, C, L := heap.Memory(), heap.row, heap.live;
    heap.NotInUse();
    books', born' := books, born;
    var r;
    ghost var grew;
    r, grew := heap.DlMalloc(n, start, first, second);
    if r != 0 {
      books', born' := books[r := Block(n, map[])], born[r := heap.Memory()];
      Added(i, heap.Memory(), C, heap.row, L, heap.live, books, born, r, n);
    }
  }

  method DoMemalign(heap: Heap, books: map<int, Block>, ghost born: map<int, Image>, alignment: nat, n: nat,
                    start: int, first: bool, second: bool)
    returns (books': map<int, Block>, ghost born': map<int, Image>, ghost a: nat)
    requires Books(heap, books, born) && n < WORD && alignment <= 0x8000_0000 && 0 < start < WORD && Aligned(start)
    modifies heap, heap.small, heap.trees
    ensures Books(heap, books', born') && WorksWith(a, alignment)
    ensures var m := old(Now(heap, books));
            if AlignedStarved(m.h, m.row, m.live, m.contiguous, alignment, a, n, start, first, second)
            then books' == books else GainedAt(books, books', n, a)
  {
    hide SmallBins.Valid, TreeBins.Valid, Heap.Valid, Heap.Memory, HeapOk, KeptAt, Kept, LeastPower, Aligned,
         AlignedStarved, AlignedTo;
    ghost var i, C, L := heap.Memory(), heap.row, heap.live;
    heap.NotInUse();
    books', born' := books, born;
    var r;
    r, a := heap.DlMemalign(alignment, n, start, first, second);
    if r != 0 {
      books', born' := books[r := Block(n, map[])], born[r := heap.Memory()];
      Added(i, heap.Memory(), C, heap.row, L, heap.live, books, born, r, n);
    }
  }

  method DoRealloc(heap: Heap, books: map<int, Block>, ghost born: map<int, Image>, block: int, n: nat, start: int,
                   first: bool, second: bool)
    returns (books': map<int, Block>, ghost born': map<int, Image>)
    requires Books(heap, books, born) && n < WORD && 0 < start < WORD && Aligned(start)
    modifies heap, heap.small, heap.trees
    ensures Books(heap, books', born')
    ensures Next(Realloc(block, n, first, second), old(Now(heap, books)), Now(heap, books'), start)
  {
    hide SmallBins.Valid, TreeBins.Valid, Heap.Valid, Heap.Memory, HeapOk, KeptAt, Kept, Aligned, Copied,
         Upto, WordOf, Starved, FitsInPlace;
    ghost var i, C, L, m := heap.Memory(), heap.row, heap.live, Now(heap, books);
    heap.NotInUse();
    heap.TagsOfMemory();
    books', born' := books, born;
    if block in books {
      assert Owned(i, C, L, block, books[block], born[block]);
      if n <= books[block].bytes {
        heap.Shrinkable(block - 8, n);
      }
      var r := heap.DlRealloc(block, n, start, first, second);
      if r != 0 {
        var b := Block(n, Upto(books[block].words, n));
        books', born' := (books - {block})[r := b], (born - {block})[r := heap.Memory()];
        heap.TagsOfMemory();
        Resettled(i, heap.Memory(), C, L, block, books[block], born[block], r, n);
        Moved(i, heap.Memory(), C, heap.row, L, heap.live, books, born, block, r, b);
        assert r == block ==> books' == books[block := b];
      }
    }
  }

  method DoFree(heap: Heap, books: map<int, Block>, ghost born: map<int, Image>, block: int)
    returns (books': map<int, Block>, ghost born': map<int, Image>)
    requires Books(heap, books, born)
    modifies heap, heap.small, heap.trees
    ensures Books(heap, books', born') && books' == books - {block}
  {
    hide SmallBins.Valid, TreeBins.Valid, Heap.Valid, Heap.Memory, HeapOk, KeptAt, Kept;
    ghost var i, C, L := heap.Memory(), heap.row, heap.live;
    heap.NotInUse();
    books', born' := books, born;
    if block in books {
      assert Owned(i, C, L, block, books[block], born[block]);
      heap.DlFree(block);
      books', born' := books - {block}, born - {block};
      Dropped(i, heap.Memory(), C, heap.row, L, heap.live, books, born, block);
    }
  }

  method DoStore(heap: Heap, books: map<int, Block>, ghost born: map<int, Image>, block: int, k: nat, value: nat)
    returns (books': map<int, Block>, ghost born': map<int, Image>)
    requires Books(heap, books, born) && k % 4 == 0
    modifies heap, heap.small, heap.trees
    ensures Books(heap, books', born')
    ensures books' == if block in books && k + 4 <= books[block].bytes
                      then books[block := books[block].(words := books[block].words[k := value])] else books
  {
    hide SmallBins.Valid, TreeBins.Valid, Heap.Valid, Heap.Memory, HeapOk, KeptAt, Kept, Stored, WordOf;
    books', born' := books, born;
    if block in books && k + 4 <= books[block].bytes {
      ghost var i, C, L := heap.Memory(), heap.row, heap.live;
      assert Owned(i, C, L, block, books[block], born[block]);
      WordInside(block - 8, k, k + 4, C[block - 8]);
      heap.ClientStore(block - 8, block + k, value);
      books' := books[block := books[block].(words := books[block].words[k := value])];
      born' := born[block := heap.Memory()];
      Overwritten(i, heap.Memory(), C, L, books, born, block, k, value);
    }
  }

  /** The client's own word is there, the others it has stored are still there, and other blocks are as before. */
  lemma Overwritten(i: Image, i': Image, C: Chunks, L: set<int>, books: map<int, Block>, born: map<int, Image>, r: int,
                    k: nat, v: nat)
    requires Agree(i, C, L, books, born) && r in books && k % 4 == 0 && k + 4 <= books[r].bytes && r - 8 in C
    requires Stored(i, i', r + k, v) && Kept(i, i', C, C, L - {r - 8})
    ensures Agree(i', C, L, books[r := books[r].(words := books[r].words[k := v])], born[r := i'])
  {
    hide Kept, Owned, Stored;
    WordAdded(i, i', C, L, r, books[r], born[r], k, v);
    forall q | q in books && q != r
      ensures Owned(i', C, L, q, books[q], born[q])
    {
      OwnedFacts(i, C, L, q, books[q], born[q]);
      OtherOwned(i, i', C, L, L - {r - 8}, q, books[q], born[q]);
    }
  }

  lemma WordAdded(i: Image, i': Image, C: Chunks, L: set<int>, r: int, b: Block, born: Image, k: nat, v: nat)
    requires Owned(i, C, L, r, b, born) && k % 4 == 0 && k + 4 <= b.bytes && Stored(i, i', r + k, v)
    ensures Owned(i', C, L, r, b.(words := b.words[k := v]), i')
  {
    hide KeptAt, WordOf, Stored;
    var b' := b.(words := b.words[k := v]);
    WordsThere(i, C, L, r, b, born);
    Word4(r, k);
    forall j | j in b'.words
      ensures j % 4 == 0 && j + 4 <= b.bytes && WordOf(i'.tags, r + j) == b'.words[j]
    {
      Word4(r, j);
      WordStored(i, i', r + k, v, r + j);
    }
    NewOwned(i', C, L, r, b');
  }

  lemma Word4(r: int, k: nat)
    requires r % 8 == 0 && k % 4 == 0
    ensures (r + k) % 4 == 0
  {
    Quarter(r + k, r / 8 * 2 + k / 4);
  }

  lemma NewOwned(i: Image, C: Chunks, L: set<int>, r: int, b: Block)
    requires Holds(C, L, i.tags, r, b)
    ensures Owned(i, C, L, r, b, i)
  {
    KeptAtRefl(i, r - 8, C[r - 8]);
  }

  lemma OwnedFacts(i: Image, C: Chunks, L: set<int>, r: int, b: Block, born: Image)
    requires Owned(i, C, L, r, b, born)
    ensures r - 8 in L && r - 8 in C
  {
  }

  lemma OtherOwned(i: Image, i': Image, C: Chunks, L: set<int>, K: set<int>, r: int, b: Block, born: Image)
    requires Owned(i, C, L, r, b, born) && r - 8 in K && Kept(i, i', C, C, K)
    ensures Owned(i', C, L, r, b, born)
  {
    hide KeptAt, WordOf;
    KeptAtTrans(born, i, i', r - 8, C[r - 8]);
  }

  /** Resizing, in place or not, keeps the words that still fit. */
  lemma Resettled(i: Image, i': Image, C: Chunks, L: set<int>, r: int, b: Block, born: Image, r': int, n: nat)
    requires Owned(i, C, L, r, b, born) && Copied(i.tags, i'.tags, r, r', Min(n, C[r - 8] - 4)) && r' % 8 == 0
    ensures forall k :: k in Upto(b.words, n) ==>
              k % 4 == 0 && k + 4 <= n && WordOf(i'.tags, r' + k) == Upto(b.words, n)[k]
  {
    hide KeptAt, WordOf, Copied;
    WordsThere(i, C, L, r, b, born);
    forall k | k in b.words && k + 4 <= n
      ensures WordOf(i'.tags, r' + k) == b.words[k]
    {
      WholeCopied(i.tags, i'.tags, r, r', Min(n, C[r - 8] - 4), k);
    }
  }

  lemma WholeCopied(m: TagMem, m': TagMem, src: int, dst: int, n: int, k: nat)
    requires Copied(m, m', src, dst, n) && k % 4 == 0 && k + 4 <= n
    ensures WordOf(m', dst + k) == WordOf(m, src + k)
  {
    hide WordOf;
    var j := k / 4;
    assert k == 4 * j;
    assert SameBytes(Nth(m', dst, j), Nth(m, src, j), n - 4 * j);
  }

  lemma Dropped(i: Image, i': Image, C: Chunks, C': Chunks, L: set<int>, L': set<int>, books: map<int, Block>,
                born: map<int, Image>, r: int)
    requires Agree(i, C, L, books, born) && r in books && L' == L - {r - 8}
    requires forall q :: q in L' ==> q in C' && q in C && C'[q] == C[q]
    requires Kept(i, i', C, C', L')
    ensures Agree(i', C', L', books - {r}, born - {r})
  {
    hide KeptAt, Kept;
    assert L' * L == L';
    forall q | q in books && q != r
      ensures Owned(i', C', L', q, books[q], born[q])
    {
      StillOwned(i, i', C, C', L, L', q, books[q], born[q]);
    }
  }

  /** The block `o` has been replaced by `r`, or (for `o` == 0) the block `r` has been added. */
  lemma Moved(i: Image, i': Image, C: Chunks, C': Chunks, L: set<int>, L': set<int>, books: map<int, Block>,
              born: map<int, Image>, o: int, r: int, b: Block)
    requires Agree(i, C, L, books, born)
    requires (r == o || r - 8 !in L) && L' == L - {o - 8} + {r - 8}
    requires Holds(C', L', i'.tags, r, b)
    requires forall q :: q in L && q != o - 8 ==> q in C' && q in C && C'[q] == C[q]
    requires Kept(i, i', C, C', L' * L)
    ensures r !in books - {o} && Agree(i', C', L', (books - {o})[r := b], (born - {o})[r := i'])
  {
    hide Kept, Owned;
    NewOwned(i', C', L', r, b);
    if r in books {
      OwnedFacts(i, C, L, r, books[r], born[r]);
    }
    forall q | q in books && q != o && q != r
      ensures Owned(i', C', L', q, books[q], born[q])
    {
      OwnedFacts(i, C, L, q, books[q], born[q]);
      StillOwned(i, i', C, C', L, L', q, books[q], born[q]);
    }
  }

  lemma Added(i: Image, i': Image, C: Chunks, C': Chunks, L: set<int>, L': set<int>, books: map<int, Block>,
              born: map<int, Image>, r: int, n: nat)
    requires Agree(i, C, L, books, born) && -8 !in L
    requires r % 8 == 0 && r - 8 !in L && L' == L + {r - 8} && r - 8 in C' && n + 4 <= C'[r - 8] && n < MAX_REQUEST
    requires forall q :: q in L ==> q in C' && q in C && C'[q] == C[q]
    requires Kept(i, i', C, C', L)
    ensures r !in books && Agree(i', C', L', books[r := Block(n, map[])], born[r := i'])
  {
    hide KeptAt, Kept;
    assert L' * L == L && L - {-8} == L;
    assert 0 in books ==> Owned(i, C, L, 0, books[0], born[0]);
    assert books - {0} == books && born - {0} == born;
    Moved(i, i', C, C', L, L', books, born, 0, r, Block(n, map[]));
  }
}
