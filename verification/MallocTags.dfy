/** The boundary tags: the `head` word of every chunk (size and two in-use bits) and the
    `prev_foot` word that repeats the size of a free chunk at its end. */
module MallocTags {

  // ---- head words: the size is a multiple of 8, bit 0 is PINUSE, bit 1 is CINUSE ----

  function SizeOf(w: nat): nat {
    w / 8 * 8
  }

  predicate PinuseBit(w: nat) {
    w % 2 == 1
  }

  predicate CinuseBit(w: nat) {
    w / 2 % 2 == 1
  }

  function HeadWord(s: nat, cinuse: bool, pinuse: bool): nat {
    s + (if cinuse then 2 else 0) + (if pinuse then 1 else 0)
  }

  /** `w | PINUSE_BIT` */
  function WithPinuse(w: nat): nat {
    if w % 2 == 1 then w else w + 1
  }

  /** `w & ~PINUSE_BIT` */
  function WithoutPinuse(w: nat): nat {
    if w % 2 == 1 then w - 1 else w
  }

  lemma Halves(m: nat, r: nat)
    requires r < 2
    ensures (2 * m + r) % 2 == r && (2 * m + r) / 2 == m
  {
  }

  lemma SizeBits(k: nat, c: nat)
    requires c < 8
    ensures (8 * k + c) / 8 == k
  {
  }

  lemma FlagBits(k: nat, r: nat, q: nat)
    requires r < 2 && q < 2
    ensures (8 * k + 2 * q + r) % 2 == r && (8 * k + 2 * q + r) / 2 % 2 == q
  {
    Halves(4 * k + q, r);
    assert 2 * (4 * k + q) + r == 8 * k + 2 * q + r;
    Halves(2 * k, q);
    assert 2 * (2 * k) + q == 4 * k + q;
  }

  lemma HeadParts(s: nat, cinuse: bool, pinuse: bool)
    requires s % 8 == 0
    ensures var w := HeadWord(s, cinuse, pinuse);
            SizeOf(w) == s && CinuseBit(w) == cinuse && PinuseBit(w) == pinuse
  {
    var k := s / 8;
    var r, q := if pinuse then 1 else 0, if cinuse then 1 else 0;
    assert HeadWord(s, cinuse, pinuse) == 8 * k + 2 * q + r;
    SizeBits(k, 2 * q + r);
    FlagBits(k, r, q);
  }

  /** The parts of a word of which bit 2 is `a`. */
  lemma WordParts(k: nat, a: nat, q: nat, r: nat)
    requires a < 2 && q < 2 && r < 2
    ensures var w := 8 * k + 4 * a + 2 * q + r;
            SizeOf(w) == 8 * k && (CinuseBit(w) <==> q == 1) && (PinuseBit(w) <==> r == 1)
  {
    var w := 8 * k + 4 * a + 2 * q + r;
    SizeBits(k, 4 * a + 2 * q + r);
    Halves(4 * k + 2 * a + q, r);
    assert w == 2 * (4 * k + 2 * a + q) + r;
    Halves(2 * k + a, q);
    assert 4 * k + 2 * a + q == 2 * (2 * k + a) + q;
  }

  lemma PinuseUpdates(w: nat)
    ensures SizeOf(WithPinuse(w)) == SizeOf(w) && CinuseBit(WithPinuse(w)) == CinuseBit(w) && PinuseBit(WithPinuse(w))
    ensures SizeOf(WithoutPinuse(w)) == SizeOf(w) && CinuseBit(WithoutPinuse(w)) == CinuseBit(w)
    ensures !PinuseBit(WithoutPinuse(w))
  {
    hide SizeOf, CinuseBit, PinuseBit;
    var h, r := w / 2, w % 2;
    var g, q := h / 2, h % 2;
    var k, a := g / 2, g % 2;
    assert w == 8 * k + 4 * a + 2 * q + r;
    WordParts(k, a, q, 0);
    WordParts(k, a, q, 1);
  }

  // ---- the tag words of memory ----

  datatype TagMem = TagMem(head: map<int, nat>, foot: map<int, nat>)

  function Word(m: TagMem, p: int): nat {
    if p in m.head then m.head[p] else 0
  }

  /** `chunksize` */
  function Size(m: TagMem, p: int): nat {
    SizeOf(Word(m, p))
  }

  /** `cinuse` */
  predicate Cinuse(m: TagMem, p: int) {
    CinuseBit(Word(m, p))
  }

  /** `pinuse` */
  predicate Pinuse(m: TagMem, p: int) {
    PinuseBit(Word(m, p))
  }

  /** `p->prev_foot` */
  function PrevFoot(m: TagMem, p: int): nat {
    if p in m.foot then m.foot[p] else 0
  }

  /** The word at the address `x`, which is the `prev_foot` or the head of a chunk structure. */
  function WordOf(m: TagMem, x: int): nat {
    if x % 8 == 0 then PrevFoot(m, x) else Word(m, x - 4)
  }

  function SetHead(m: TagMem, p: int, s: nat, cinuse: bool, pinuse: bool): TagMem {
    m.(head := m.head[p := HeadWord(s, cinuse, pinuse)])
  }

  function SetPinuse(m: TagMem, n: int, pinuse: bool): TagMem {
    m.(head := m.head[n := if pinuse then WithPinuse(Word(m, n)) else WithoutPinuse(Word(m, n))])
  }

  function SetFoot(m: TagMem, n: int, s: nat): TagMem {
    m.(foot := m.foot[n := s])
  }

  /** The tags of `m'` are those of `m` except at the given places. */
  ghost predicate HeadsAre(m: TagMem, m': TagMem, p: int, s: nat, cinuse: bool, pinuse: bool) {
    && (forall a {:trigger Size(m', a)} :: Size(m', a) == if a == p then s else Size(m, a))
    && (forall a {:trigger Cinuse(m', a)} :: Cinuse(m', a) == if a == p then cinuse else Cinuse(m, a))
    && (forall a {:trigger Pinuse(m', a)} :: Pinuse(m', a) == if a == p then pinuse else Pinuse(m, a))
    && (forall a {:trigger PrevFoot(m', a)} :: PrevFoot(m', a) == PrevFoot(m, a))
  }

  lemma SetHeadIs(m: TagMem, p: int, s: nat, cinuse: bool, pinuse: bool)
    requires s % 8 == 0
    ensures HeadsAre(m, SetHead(m, p, s, cinuse, pinuse), p, s, cinuse, pinuse)
  {
    HeadParts(s, cinuse, pinuse);
    hide HeadWord, SizeOf, CinuseBit, PinuseBit;
  }

  lemma SetPinuseIs(m: TagMem, n: int, pinuse: bool)
    ensures HeadsAre(m, SetPinuse(m, n, pinuse), n, Size(m, n), Cinuse(m, n), pinuse)
  {
    PinuseUpdates(Word(m, n));
    hide WithPinuse, WithoutPinuse, SizeOf, CinuseBit, PinuseBit;
  }

  lemma SetFootIs(m: TagMem, n: int, s: nat)
    ensures SetFoot(m, n, s).head == m.head
    ensures forall a {:trigger PrevFoot(SetFoot(m, n, s), a)} ::
              PrevFoot(SetFoot(m, n, s), a) == if a == n then s else PrevFoot(m, a)
    ensures forall a {:trigger Size(SetFoot(m, n, s), a)} :: Size(SetFoot(m, n, s), a) == Size(m, a)
    ensures forall a {:trigger Cinuse(SetFoot(m, n, s), a)} :: Cinuse(SetFoot(m, n, s), a) == Cinuse(m, a)
    ensures forall a {:trigger Pinuse(SetFoot(m, n, s), a)} :: Pinuse(SetFoot(m, n, s), a) == Pinuse(m, a)
  {
  }

  // ---- the macros, without footers ----

  /** `set_inuse` */
  function SetInuse(m: TagMem, p: int, s: nat): TagMem {
    SetPinuse(SetHead(m, p, s, true, Pinuse(m, p)), p + s, true)
  }

  /** `set_inuse_and_pinuse` */
  function SetInuseAndPinuse(m: TagMem, p: int, s: nat): TagMem {
    SetPinuse(SetHead(m, p, s, true, true), p + s, true)
  }

  /** `set_size_and_pinuse_of_inuse_chunk` */
  function SetSizeOfInuse(m: TagMem, p: int, s: nat): TagMem {
    SetHead(m, p, s, true, true)
  }

  /** `set_size_and_pinuse_of_free_chunk` */
  function SetSizeOfFree(m: TagMem, p: int, s: nat): TagMem {
    SetFoot(SetHead(m, p, s, false, true), p + s, s)
  }

  /** `set_free_with_pinuse` */
  function SetFree(m: TagMem, p: int, s: nat, n: int): TagMem {
    SetSizeOfFree(SetPinuse(m, n, false), p, s)
  }

  /** `top->head = size | PINUSE_BIT` */
  function SetTop(m: TagMem, p: int, s: nat): TagMem {
    SetHead(m, p, s, false, true)
  }

  lemma SetInuseIs(m: TagMem, p: int, s: nat)
    requires s % 8 == 0 && s > 0
    ensures var m' := SetInuse(m, p, s);
            && (forall a {:trigger Size(m', a)} :: Size(m', a) == if a == p then s else Size(m, a))
            && (forall a {:trigger Cinuse(m', a)} :: Cinuse(m', a) == (a == p || Cinuse(m, a)))
            && (forall a {:trigger Pinuse(m', a)} :: Pinuse(m', a) == (a == p + s || Pinuse(m, a)))
            && (forall a {:trigger PrevFoot(m', a)} :: PrevFoot(m', a) == PrevFoot(m, a))
  {
    hide SetHead, SetPinuse, Size, Cinuse, Pinuse, PrevFoot;
    var m1 := SetHead(m, p, s, true, Pinuse(m, p));
    SetHeadIs(m, p, s, true, Pinuse(m, p));
    SetPinuseIs(m1, p + s, true);
  }

  lemma SetInuseAndPinuseIs(m: TagMem, p: int, s: nat)
    requires s % 8 == 0 && s > 0
    ensures var m' := SetInuseAndPinuse(m, p, s);
            && (forall a {:trigger Size(m', a)} :: Size(m', a) == if a == p then s else Size(m, a))
            && (forall a {:trigger Cinuse(m', a)} :: Cinuse(m', a) == (a == p || Cinuse(m, a)))
            && (forall a {:trigger Pinuse(m', a)} :: Pinuse(m', a) == (a == p || a == p + s || Pinuse(m, a)))
            && (forall a {:trigger PrevFoot(m', a)} :: PrevFoot(m', a) == PrevFoot(m, a))
  {
    hide SetHead, SetPinuse, Size, Cinuse, Pinuse, PrevFoot;
    var m1 := SetHead(m, p, s, true, true);
    SetHeadIs(m, p, s, true, true);
    SetPinuseIs(m1, p + s, true);
  }

  lemma SetSizeOfFreeIs(m: TagMem, p: int, s: nat)
    requires s % 8 == 0
    ensures var m' := SetSizeOfFree(m, p, s);
            && (forall a {:trigger Size(m', a)} :: Size(m', a) == if a == p then s else Size(m, a))
            && (forall a {:trigger Cinuse(m', a)} :: Cinuse(m', a) == (a != p && Cinuse(m, a)))
            && (forall a {:trigger Pinuse(m', a)} :: Pinuse(m', a) == (a == p || Pinuse(m, a)))
            && (forall a {:trigger PrevFoot(m', a)} :: PrevFoot(m', a) == if a == p + s then s else PrevFoot(m, a))
  {
    hide SetHead, SetFoot, Size, Cinuse, Pinuse, PrevFoot;
    var m1 := SetHead(m, p, s, false, true);
    SetHeadIs(m, p, s, false, true);
    SetFootIs(m1, p + s, s);
  }

  lemma SetFreeIs(m: TagMem, p: int, s: nat, n: int)
    requires s % 8 == 0 && n != p
    ensures var m' := SetFree(m, p, s, n);
            && (forall a {:trigger Size(m', a)} :: Size(m', a) == if a == p then s else Size(m, a))
            && (forall a {:trigger Cinuse(m', a)} :: Cinuse(m', a) == (a != p && Cinuse(m, a)))
            && (forall a {:trigger Pinuse(m', a)} :: Pinuse(m', a) == (a == p || (a != n && Pinuse(m, a))))
            && (forall a {:trigger PrevFoot(m', a)} :: PrevFoot(m', a) == if a == p + s then s else PrevFoot(m, a))
  {
    hide SetPinuse, SetSizeOfFree, Size, Cinuse, Pinuse, PrevFoot;
    SetPinuseIs(m, n, false);
    SetSizeOfFreeIs(SetPinuse(m, n, false), p, s);
  }
}
