/** Block options (RFC 7959, section 2.2): choosing a block for a response, writing the option, reading
    it back and adding the block. */
module CoapBlock {
  import opened Arithmetic
  import opened CoapOption
  import opened CoapMessage
  import opened CoapPdu
  import opened CoapIterator
  import opened CoapExchange
  import opened CoapEncode

  const BLOCK2 := 23
  const NUM_LIMIT := 0x10_0000          // the block number has 20 bits

  datatype Block = Block(num: nat, m: bool, szx: nat)

  predicate InFields(b: Block) {
    b.num < NUM_LIMIT && b.szx < 8
  }

  function BlockSize(szx: nat): (r: nat)
    ensures r > 0
  {
    Pow2(szx + 4)
  }

  /** `num << (szx + 4)`: where the block begins */
  function BlockStart(num: nat, szx: nat): nat {
    num * BlockSize(szx)
  }

  /** `(num << 4) | (m << 3) | szx` */
  function BlockValue(b: Block): nat {
    b.num * 16 + (if b.m then 8 else 0) + b.szx
  }

  function BlockOf(v: nat): Block {
    Block(v / 16 % NUM_LIMIT, v / 8 % 2 == 1, v % 8)
  }

  /** RFC 7959, section 2.2: the number in the upper 20 bits, then one bit for more blocks and three for the size. */
  lemma BlockOfValue(b: Block)
    requires InFields(b)
    ensures BlockOf(BlockValue(b)) == b && BlockValue(b) < 0x100_0000
    ensures BlockValue(Block(0x12345, true, 5)) == 0x12345D && BlockValue(Block(0x12345, false, 5)) == 0x123455
  {
    ThreeFields(b.num, if b.m then 1 else 0, b.szx);
  }

  lemma ThreeFields(n: nat, m: nat, z: nat)
    requires n < NUM_LIMIT && m < 2 && z < 8
    ensures var v := n * 16 + m * 8 + z;
            v < 0x100_0000 && v / 16 % NUM_LIMIT == n && v / 8 % 2 == m && v % 8 == z
  {
    var v := n * 16 + m * 8 + z;
    assert v == 8 * (2 * n + m) + z;
    assert v / 8 == 2 * n + m;
    assert v == 16 * n + (8 * m + z);
  }

  // ---- reading a block option ----

  /** `coap_opt_block_num` */
  method OptBlockNum(opt: array<Byte>, at: nat, ghost length: nat) returns (n: nat)
    requires at + length <= opt.Length && ParseOption(opt[..], at, length).Parsed?
    requires ParseOption(opt[..], at, length).length < 0x10000
    ensures var s := opt[..];
            var p := ParseOption(s, at, length);
            p.value + p.length <= |s| && n == DecodeVar(s[p.value..p.value + p.length]) / 16 % UINT
  {
    hide ParseOption, DecodeVar;
    ghost var s := opt[..];
    ghost var p := ParseOption(s, at, length);
    ParsedSize(s, at, length);
    ParsedLength(s, at, length);
    var len := OptLength(opt, at);
    var value := OptValue(opt, at);
    assert opt[..] == s;
    assert len == p.length && value == p.value;
    n := 0;
    ghost var v := s[value..value + len];
    NumField(v);
    if len == 0 {
      return;
    }
    if len > 1 {
      n := DecodeVarBytes(opt, value, len - 1);
    }
    assert opt[value..value + (len - 1)] == v[..len - 1];
    n := (n * 16 + opt[value + (len - 1)] / 16) % UINT;
  }

  /** The block number from the number that all but the last byte stand for. */
  lemma NumField(v: seq<Byte>)
    ensures DecodeVar([]) == 0
    ensures if v == [] then DecodeVar(v) / 16 % UINT == 0
            else DecodeVar(v) / 16 % UINT == (DecodeVar(v[..|v| - 1]) % UINT * 16 + v[|v| - 1] as int / 16) % UINT
  {
    hide DecodeVar;
    EmptyIsZero();
    if v != [] {
      LastByte(v);
      NumStep(DecodeVar(v[..|v| - 1]), v[|v| - 1]);
    }
  }

  lemma LastByte(s: seq<Byte>)
    requires s != []
    ensures DecodeVar(s) == DecodeVar(s[..|s| - 1]) * 256 + s[|s| - 1] as int
  {
  }

  lemma NumStep(x: nat, b: Byte)
    ensures (x % UINT * 16 + b as int / 16) % UINT == (x * 256 + b as int) / 16 % UINT
  {
    var q, r, c := x / UINT, x % UINT, b as int / 16;
    assert (x * 256 + b as int) / 16 == x * 16 + c;
    assert x * 16 + c == 16 * q * UINT + (r * 16 + c);
    AddMultiple(16 * q, r * 16 + c);
  }

  lemma AddMultiple(k: nat, a: nat)
    ensures (k * UINT + a) % UINT == a % UINT
  {
    var q, r := a / UINT, a % UINT;
    assert k * UINT + a == (k + q) * UINT + r;
  }

  /** The three fields of the block option at `option`. */
  method ReadBlock(pdu: Pdu, option: nat) returns (block: Block)
    requires pdu.hdr.Length == pdu.maxSize + 1 && option < pdu.length <= pdu.maxSize <= MAX_PDU_SIZE
    requires ParseOption(pdu.hdr[..], option, pdu.length - option).Parsed?
    ensures var s := pdu.hdr[..];
            var p := ParseOption(s, option, pdu.length - option);
            p.value + p.length <= |s| && block == BlockOf(DecodeVar(s[p.value..p.value + p.length]))
  {
    hide ParseOption, DecodeVar, BlockOf;
    ghost var s := pdu.hdr[..];
    ghost var p := ParseOption(s, option, pdu.length - option);
    ParsedSize(s, option, pdu.length - option);
    ParsedLength(s, option, pdu.length - option);
    var len := OptLength(pdu.hdr, option);
    var value := OptValue(pdu.hdr, option);
    assert pdu.hdr[..] == s;
    assert len == p.length && value == p.value;
    ghost var v := s[value..value + len];
    var szx, m := 0, false;
    if len != 0 {
      var last := pdu.hdr[value + (len - 1)];
      assert last == v[|v| - 1];
      szx := last % 8;
      m := last / 8 % 2 != 0;
    }
    var num := OptBlockNum(pdu.hdr, option, pdu.length - option);
    BlockFields(v, num, m, szx);
    block := Block(num % NUM_LIMIT, m, szx);
  }

  lemma BlockFields(v: seq<Byte>, num: nat, m: bool, szx: nat)
    requires num == DecodeVar(v) / 16 % UINT && szx == if v == [] then 0 else v[|v| - 1] % 8
    requires m <==> v != [] && v[|v| - 1] / 8 % 2 != 0
    ensures BlockOf(DecodeVar(v)) == Block(num % NUM_LIMIT, m, szx)
  {
    hide DecodeVar, BlockOf;
    LowFields(v);
    FieldsOf(DecodeVar(v), num, m, szx);
  }

  /** The last byte has the size exponent and M. */
  lemma LowFields(v: seq<Byte>)
    ensures if v == [] then DecodeVar(v) == 0
            else DecodeVar(v) % 8 == v[|v| - 1] % 8 && DecodeVar(v) / 8 % 2 == v[|v| - 1] / 8 % 2
  {
    hide DecodeVar;
    if v == [] {
      EmptyIsZero();
    } else {
      LastByte(v);
      LowBits(DecodeVar(v[..|v| - 1]), v[|v| - 1]);
    }
  }

  lemma LowBits(x: nat, b: Byte)
    ensures (x * 256 + b as int) % 8 == b % 8 && (x * 256 + b as int) / 8 % 2 == b / 8 % 2
  {
    var h, l := b as int / 8, b as int % 8;
    assert x * 256 + b as int == 8 * (x * 32 + h) + l;
    Eight(x * 32 + h, l);
    EvenMore(x * 16, h);
  }

  lemma Eight(q: nat, r: nat)
    requires r < 8
    ensures (8 * q + r) % 8 == r && (8 * q + r) / 8 == q
  {
  }

  lemma EvenMore(q: nat, h: nat)
    ensures (q * 2 + h) % 2 == h % 2
  {
    assert q * 2 + h == 2 * (q + h / 2) + h % 2;
  }

  lemma EmptyIsZero()
    ensures DecodeVar([]) == 0
  {
  }

  lemma FieldsOf(v: nat, num: nat, m: bool, szx: nat)
    requires num == v / 16 % UINT && szx == v % 8 && (m <==> v / 8 % 2 == 1)
    ensures BlockOf(v) == Block(num % NUM_LIMIT, m, szx)
  {
    TwiceReduced(v / 16);
  }

  lemma TwiceReduced(n: nat)
    ensures n % UINT % NUM_LIMIT == n % NUM_LIMIT
  {
    var q, r := n / UINT, n % UINT;
    var h, l := r / NUM_LIMIT, r % NUM_LIMIT;
    Residue(n, 4096 * q + h, l);
  }

  lemma Residue(n: nat, q: nat, r: nat)
    requires n == NUM_LIMIT * q + r && r < NUM_LIMIT
    ensures n % NUM_LIMIT == r
  {
  }

  /** `coap_get_block`; types of 64 and more are never found. */
  method GetBlock(pdu: Pdu, typ: Byte) returns (found: bool, block: Block)
    requires pdu.hdr.Length == pdu.maxSize + 1 && 0 < pdu.length <= pdu.maxSize <= MAX_PDU_SIZE
    ensures 64 <= typ ==> !found
    ensures found ==> InFields(block)
    ensures var views := OptionsOf(pdu.hdr[..], pdu.length);
            var m := StopsAt(typ, views);
            typ < 64 ==>
              found == (m < |views| && views[m].number % 256 == typ as int)
              && (found ==> block == BlockOf(DecodeVar(views[m].value)))
    ensures var views := OptionsOf(pdu.hdr[..], pdu.length);
            var k := FirstWith(typ, views);
            typ < 64 && Reaches(typ, views) ==>
              found == (k < |views|) && (found ==> block == BlockOf(DecodeVar(views[k].value)))
  {
    hide ParseOption, Options, DecodeVar, BlockOf, StopsAt, FirstWith;
    found, block := false, Block(0, false, 0);
    var oi, option := CheckOption(pdu, typ);
    ghost var s, views := pdu.hdr[..], OptionsOf(pdu.hdr[..], pdu.length);
    ghost var m := StopsAt(typ, views);
    if option != 0 {
      OptionsAreParsed(s, pdu.length, m);
      found := true;
      block := ReadBlock(pdu, option);
      FieldsFit(DecodeVar(views[m].value));
    }
    if typ < 64 && Reaches(typ, views) {
      ReachesFirst(typ, views);
    }
  }

  lemma FieldsFit(v: nat)
    ensures InFields(BlockOf(v))
  {
  }

  // ---- writing a block option ----

  /** `max_size - length - 4`, which wraps in 32 bits. */
  function Available(room: nat): nat {
    if 4 <= room then room - 4 else UINT + room - 4
  }

  /** The block option has been added behind `options` or, when there is a payload, to the payload; unless it does
      not fit, or options with higher numbers are there. */
  ghost predicate Placed(options: seq<Opt>, payload: seq<Byte>, length: nat, maxDelta: nat, pdu: Pdu, b: Block)
    requires length <= pdu.maxSize
    reads pdu
  {
    var val := EncodeVar(BlockValue(b));
    var n := if maxDelta <= BLOCK2 then |Encoded(BLOCK2 - maxDelta, val)| else 0;
    if 0 < n <= pdu.maxSize - length then
      pdu.length == length + n &&
      if payload == [] then pdu.payload == [] && pdu.options == options + [Opt(BLOCK2, val)]
      else pdu.options == options && pdu.payload == payload + Encoded(BLOCK2 - maxDelta, val)
    else pdu.length == length && pdu.options == options && pdu.payload == payload
  }

  /** The option is encoded and added. */
  method AddBlockOption(pdu: Pdu, b: Block)
    requires pdu.Valid() && InFields(b)
    modifies pdu, pdu.hdr
    ensures pdu.token == old(pdu.token) && pdu.hdr[..HEADER] == old(pdu.hdr[..HEADER])
    ensures if old(pdu.payload) == [] then pdu.Valid() && pdu.payload == [] else pdu.data == 0
    ensures Placed(old(pdu.options), old(pdu.payload), old(pdu.length), old(pdu.maxDelta), pdu, b)
    ensures old(pdu.length) <= pdu.length <= pdu.maxSize && pdu.length <= old(pdu.length) + 5
  {
    hide Encoded, HeaderAccepted, HeaderSize, Body, Ordered, EncodeOptions, EncodeVar;
    var val := EncodeBlock(b);
    OptionFits(BLOCK2, pdu.maxDelta, val, pdu.maxSize - pdu.length);
    var n := pdu.AddOption(BLOCK2, val);
  }

  /** `coap_write_block_opt`. The result is 1, or -1 for a type other than Block2, -2 for a block behind
      the data, -3 if not even the smallest block fits. Behind a payload that has already been added, the option
      becomes part of it, as with `coap_add_option`. */
  method WriteBlockOpt(block: Block, typ: nat, pdu: Pdu, dataLength: nat) returns (result: int, b: Block)
    requires pdu.Valid() && InFields(block)
    modifies pdu, pdu.hdr
    ensures pdu.token == old(pdu.token) && pdu.hdr[..HEADER] == old(pdu.hdr[..HEADER])
    ensures result != 1 || old(pdu.payload) == [] ==> pdu.Valid() && pdu.payload == old(pdu.payload)
    ensures result == 1 && old(pdu.payload) != [] ==> pdu.data == 0
    ensures var avail := Available(pdu.maxSize - old(pdu.length));
            var start := Offset(block);
            result == if typ != BLOCK2 then -1 else if dataLength <= start then -2
                      else if avail < 16 && avail < dataLength - start then -3 else 1
    ensures result != 1 ==> b == block && pdu.options == old(pdu.options) && pdu.length == old(pdu.length)
    ensures result == 1 ==> Negotiated(block, b, Available(pdu.maxSize - old(pdu.length)), dataLength)
    // the option is left out, without notice, behind options with higher numbers and when it does not fit
    ensures result == 1 ==> Placed(old(pdu.options), old(pdu.payload), old(pdu.length), old(pdu.maxDelta), pdu, b)
    ensures pdu.length <= old(pdu.length) + 5
    // the reserve of 4 bytes is enough for the option and the payload marker if the option takes at most 3
    ensures result == 1 && 4 <= pdu.maxSize - old(pdu.length) && pdu.length - old(pdu.length) <= 3 ==>
              pdu.length + Min(BlockSize(b.szx), dataLength - Offset(block)) + 1 <= pdu.maxSize
  {
    hide Encoded, HeaderAccepted, HeaderSize, Negotiated, Body, Ordered, EncodeOptions, EncodeVar, Pow2, BlockStart;
    b := block;
    if typ != BLOCK2 {
      return -1, b;
    }
    var want := BlockSize(block.szx);
    var start := BlockStart(block.num, block.szx);
    if dataLength <= start {
      return -2, b;
    }
    Powers();
    Pow2Increases(4, block.szx + 4);
    Pow2Increases(block.szx + 4, 11);
    var avail := Available(pdu.maxSize - pdu.length);
    if want <= avail {
      b := block.(m := want < dataLength - start);
      SameSize(block, b, avail, dataLength);
    } else if dataLength - start <= avail {
      b := block.(m := false);
      SameSize(block, b, avail, dataLength);
    } else {
      if avail < 16 {
        return -3, b;
      }
      var fls := Fls(avail);
      ShrunkSize(block, fls, avail, dataLength);
      b := Block(block.num * Pow2(block.szx - (fls - 5)) % NUM_LIMIT, true, fls - 5);
    }
    NegotiatedFits(block, b, avail, dataLength);
    AddBlockOption(pdu, b);
    result := 1;
  }

  function Offset(b: Block): nat {
    BlockStart(b.num, b.szx)
  }

  /** The outcome of the negotiation: block sizes only shrink, and no further than needed; the part of the
      data that the block stands for fits; M is set exactly when data remain behind it; and the byte
      offset is kept exactly when the new block number fits its 20 bits. */
  ghost predicate Negotiated(block: Block, b: Block, avail: nat, dataLength: nat) {
    var start := Offset(block);
    && InFields(b) && b.szx <= block.szx && start < dataLength
    && Min(BlockSize(b.szx), dataLength - start) <= avail
    && (b.szx == block.szx <==> Min(BlockSize(block.szx), dataLength - start) <= avail)
    && (b.szx < block.szx ==> BlockSize(b.szx) <= avail < BlockSize(b.szx + 1))
    && (b.m <==> start + BlockSize(b.szx) < dataLength)
    && (Offset(b) == start <==> block.num * Pow2(block.szx - b.szx) < NUM_LIMIT)
  }

  lemma SameSize(block: Block, b: Block, avail: nat, dataLength: nat)
    requires InFields(block) && Offset(block) < dataLength && b == block.(m := b.m)
    requires b.m <==> Offset(block) + BlockSize(b.szx) < dataLength
    requires Min(BlockSize(block.szx), dataLength - Offset(block)) <= avail
    ensures Negotiated(block, b, avail, dataLength)
  {
    assert Pow2(0) == 1;
  }

  lemma ShrunkSize(block: Block, fls: nat, avail: nat, dataLength: nat)
    requires InFields(block) && 16 <= avail < BlockSize(block.szx) && Offset(block) + avail < dataLength
    requires avail < Pow2(fls) && (fls > 0 ==> Pow2(fls - 1) <= avail)
    ensures 5 <= fls < block.szx + 5
    ensures Negotiated(block, Block(block.num * Pow2(block.szx - (fls - 5)) % NUM_LIMIT, true, fls - 5), avail,
                       dataLength)
  {
    hide Pow2, BlockStart;
    Powers();
    if fls < 5 {
      Pow2Increases(fls, 4);
    }
    if block.szx + 5 <= fls {
      Pow2Increases(block.szx + 4, fls - 1);
    }
    ShrunkOffset(block, fls - 5);
  }

  /** The byte offset is kept if the block number, in smaller blocks, still fits its 20 bits. */
  lemma ShrunkOffset(block: Block, szx: nat)
    requires szx <= block.szx
    ensures var num := block.num * Pow2(block.szx - szx);
            BlockStart(num % NUM_LIMIT, szx) == Offset(block) <==> num < NUM_LIMIT
  {
    hide Pow2, BlockStart;
    var k := block.szx - szx;
    var num := block.num * Pow2(k);
    PowAdd(szx + 4, k);
    StartIs(block.num, block.szx);
    Regroup(block.num, Pow2(k), BlockSize(szx));
    KeepsOffset(num, BlockSize(szx));
    StartIs(num % NUM_LIMIT, szx);
  }

  /** The byte offset is lost when block 0x10000 of 1024 bytes is shrunk to 16: the new number would be 0x400000. */
  lemma OffsetLost()
    ensures var block, b := Block(0x1_0000, false, 6), Block(0, true, 0);
            Negotiated(block, b, 16, 0x400_0400) && Offset(block) == 0x400_0000 && Offset(b) == 0
  {
    Powers();
    ShrunkSize(Block(0x1_0000, false, 6), 5, 16, 0x400_0400);
  }

  lemma StartIs(num: nat, szx: nat)
    ensures BlockStart(num, szx) == num * BlockSize(szx)
  {
  }

  lemma Regroup(a: nat, b: nat, c: nat)
    ensures a * b * c == a * (c * b)
  {
  }

  lemma KeepsOffset(num: nat, size: nat)
    requires size > 0
    ensures num % NUM_LIMIT * size == num * size <==> num < NUM_LIMIT
  {
    var r := num % NUM_LIMIT;
    assert num * size - r * size == (num - r) * size;
    if num != r {
      assert (num - r) * size > 0;
    }
  }

  lemma NegotiatedFits(block: Block, b: Block, avail: nat, dataLength: nat)
    requires Negotiated(block, b, avail, dataLength)
    ensures InFields(b) && 1 <= avail && Min(BlockSize(b.szx), dataLength - Offset(block)) <= avail
  {
  }

  /** A block option takes at most 5 bytes, and its header never overruns its space. */
  lemma OptionFits(number: nat, maxDelta: nat, val: seq<Byte>, room: nat)
    requires |val| <= 3 && number <= BLOCK2
    ensures maxDelta <= number && HeaderAccepted(number - maxDelta, |val|, room) ==>
              HeaderSize(number - maxDelta, |val|) <= room
    ensures maxDelta <= number ==> 1 <= |Encoded(number - maxDelta, val)| <= 5
  {
  }

  method EncodeBlock(b: Block) returns (val: seq<Byte>)
    requires InFields(b)
    ensures val == EncodeVar(BlockValue(b)) && |val| <= 3
  {
    BlockOfValue(b);
    EncodedLengths(BlockValue(b));
    var buf := new Byte[3];
    var n := EncodeVarBytes(buf, BlockValue(b));
    val := buf[..n];
  }

  // ---- what has been written is read back ----

  lemma {:induction false} OrderedAt(opts: seq<Opt>, prev: nat, i: nat, j: nat)
    requires Ordered(opts, prev) && i <= j < |opts|
    ensures prev <= opts[i].number <= opts[j].number
    decreases j
  {
    if i > 0 {
      OrderedAt(opts[1..], opts[0].number, i - 1, j - 1);
    } else if j > 0 {
      OrderedAt(opts[1..], opts[0].number, 0, j - 1);
    }
  }

  /** `coap_get_block` finds in the finished message exactly the block that `coap_write_block_opt` chose, even
      if other options follow it. */
  lemma BlockReadsBack(s: seq<Byte>, n: nat, token: seq<Byte>, before: seq<Opt>, b: Block, after: seq<Opt>,
                       payload: seq<Byte>)
    requires InFields(b) && HEADER <= n <= |s| && s[1] != 0 && TokenLength(s) == |token| <= 8
    requires var all := before + [Opt(BLOCK2, EncodeVar(BlockValue(b)))] + after;
             Ordered(all, 0) && Good(all, 0) && s[HEADER..n] == Body(token, all, payload)
    requires forall o :: o in before ==> o.number != BLOCK2
    ensures var views := OptionsOf(s, n);
            var k := FirstWith(BLOCK2, views);
            Reaches(BLOCK2, views) && k == |before| < |views| && BlockOf(DecodeVar(views[k].value)) == b
  {
    hide Options, Good, Ordered, Body, EncodeVar, DecodeVar, Walk, StopsAt, FirstWith;
    var all := before + [Opt(BLOCK2, EncodeVar(BlockValue(b)))] + after;
    RoundTrip(s, n, token, all, payload);
    OptionsOfIs(s, n);
    var views := OptionsOf(s, n);
    assert Contents(views) == all;
    BlockOfValue(b);
    DecodeEncodeVar(BlockValue(b));
    assert forall j :: 0 <= j < |views| ==> Content(views[j]) == Contents(views)[j] == all[j];
    assert all[|before|].number == BLOCK2;
    forall j | 0 <= j < |before|
      ensures views[j].number < BLOCK2
    {
      OrderedAt(all, 0, j, |before|);
      assert all[j] == before[j] && before[j] in before;
    }
  }

  // ---- adding the block ----

  /** `coap_add_block`, whose shift of the block number wraps in 32 bits. */
  method AddBlock(pdu: Pdu, data: seq<Byte>, num: nat, szx: nat) returns (ok: bool)
    requires pdu.Valid() && pdu.data == 0 && num < UINT && szx < 27
    modifies pdu, pdu.hdr
    ensures pdu.Valid() && pdu.token == old(pdu.token) && pdu.options == old(pdu.options)
    ensures var start := BlockStart(num, szx) % UINT;
            && (ok <==> start < |data| && old(pdu.length) + Min(|data| - start, BlockSize(szx)) + 1 <= pdu.maxSize)
            && (ok ==> pdu.payload == data[start..start + Min(|data| - start, BlockSize(szx))])
    ensures pdu.hdr[..HEADER] == old(pdu.hdr[..HEADER])
  {
    hide BlockSize, BlockStart, Ordered, EncodeOptions, Body;
    var start := BlockStart(num, szx) % UINT;
    if |data| <= start {
      return false;
    }
    ok := pdu.AddData(data[start..start + Min(|data| - start, BlockSize(szx))]);
  }

  /** It does not wrap for the numbers and sizes that a block option can carry. */
  lemma StartFits(b: Block)
    requires InFields(b)
    ensures BlockStart(b.num, b.szx) % UINT == Offset(b)
  {
    Powers();
    Pow2Increases(b.szx + 4, 11);
    ProductBound(b.num, BlockSize(b.szx), NUM_LIMIT, 2048);
  }

  lemma ProductBound(a: nat, b: nat, c: nat, d: nat)
    requires a <= c && b <= d
    ensures a * b <= c * d
  {
    assert a * b <= c * b <= c * d;
  }

  /** Block `k` of the data; nothing behind the end. */
  function BlockAt<T>(data: seq<T>, k: nat, szx: nat): seq<T> {
    var start := BlockStart(k, szx);
    if |data| <= start then [] else data[start..start + Min(|data| - start, BlockSize(szx))]
  }

  /** The blocks of one size, in order, from block `k` on. */
  ghost function BlocksFrom<T>(data: seq<T>, k: nat, szx: nat): seq<T>
    decreases |data| - BlockStart(k, szx)
  {
    if |data| <= BlockStart(k, szx) then []
    else
      NextStart(k, szx);
      BlockAt(data, k, szx) + BlocksFrom(data, k + 1, szx)
  }

  lemma NextStart(k: nat, szx: nat)
    ensures BlockStart(k + 1, szx) == BlockStart(k, szx) + BlockSize(szx)
  {
  }

  lemma BlocksStep<T>(data: seq<T>, k: nat, szx: nat)
    ensures |data| <= BlockStart(k, szx) ==> BlocksFrom(data, k, szx) == []
    ensures BlocksFrom(data, k, szx) == BlockAt(data, k, szx) + BlocksFrom(data, k + 1, szx)
  {
    hide BlockStart;
    NextStart(k, szx);
  }

  lemma {:induction false} BlocksAreData<T>(data: seq<T>, k: nat, szx: nat)
    requires BlockStart(k, szx) <= |data|
    ensures BlocksFrom(data, k, szx) == data[BlockStart(k, szx)..]
    decreases |data| - BlockStart(k, szx)
  {
    hide BlockSize, BlockStart, BlocksFrom, BlockAt;
    var start, size := BlockStart(k, szx), BlockSize(szx);
    BlocksStep(data, k, szx);
    if start < |data| {
      NextStart(k, szx);
      BlockIs(data, k, szx);
      if start + size <= |data| {
        BlocksAreData(data, k + 1, szx);
        assert data[start..] == data[start..start + size] + data[start + size..];
      } else {
        BlocksStep(data, k + 1, szx);
      }
    }
  }

  lemma BlockIs<T>(data: seq<T>, k: nat, szx: nat)
    requires BlockStart(k, szx) < |data|
    ensures var start, size := BlockStart(k, szx), BlockSize(szx);
            BlockAt(data, k, szx) == if start + size <= |data| then data[start..start + size] else data[start..]
  {
    hide BlockSize, BlockStart;
  }
}
