/** A block of data from one end to the other: negotiated, written behind the other options, parsed and read back. */
module CoapBlockExchange {
  import opened Arithmetic
  import opened CoapOption
  import opened CoapMessage
  import opened CoapPdu
  import opened CoapIterator
  import opened CoapExchange
  import opened CoapEncode
  import opened CoapBlock

  /** What the receiver finds is the block that was chosen, with exactly its part of the data; and with enough
      room the block that was asked for is sent, unshrunk. `room` is the space behind the other options. */
  method ExchangeBlock(h: Header, token: seq<Byte>, options: seq<Opt>, block: Block, data: seq<Byte>, size: nat)
    returns (ok: bool, chosen: Block, header: Header, received: Block, payload: seq<Byte>, ghost room: nat)
    requires h.version == VERSION && h.typ < 4 && h.code != 0 && |h.id| == 2
    requires Ordered(options, 0) && Good(options, 0) && Last(options, 0) < BLOCK2
    requires InFields(block) && HEADER <= size <= MAX_PDU_SIZE
    ensures ok ==> header == h && received == chosen && payload == BlockAt(data, chosen.num, chosen.szx)
    ensures ok ==> room == size - HEADER - |token| - |EncodeOptions(options, 0)|
    ensures ok ==> Negotiated(block, chosen, Available(room), |data|)
    ensures |token| <= 8 && HEADER + |token| + Room(options) + 6 + BlockSize(block.szx) <= size &&
            Offset(block) < |data| ==>
              ok && chosen == block.(m := Offset(block) + BlockSize(block.szx) < |data|)
  {
    hide Ordered, Good, EncodeOptions, Body, Options, Walk, Room, Accepts, Negotiated, BlockSize, BlockStart;
    hide EncodeVar, DecodeVar, Encoded, Reaches, FirstWith, PayloadOf;
    header, received, payload := h, block, [];
    var sent;
    ok, chosen, sent, room := SendBlock(h, token, options, block, data, size);
    if !ok {
      return;
    }
    ghost var s := sent.hdr[..];
    var n := sent.length;
    SentIsRead(s, n, token, options, chosen, sent.payload);
    var pdu := new Pdu(size);
    ok := pdu.Parse(sent.hdr, n);
    assert sent.hdr[..] == s;
    SameMessage(s, pdu.hdr[..], n);
    assert pdu.hdr[..HEADER] == pdu.hdr[..n][..HEADER] == s[..HEADER];
    SameHeader(s, pdu.hdr[..]);
    SamePayload(s, pdu.hdr[..], n);
    var found;
    found, received := GetBlock(pdu, BLOCK2);
    var _, at, len := pdu.GetData();
    payload := pdu.hdr[at..at + len];
    header := Header(pdu.hdr[0] / 64, pdu.hdr[0] / 16 % 4, pdu.hdr[1], pdu.hdr[2..HEADER]);
  }

  /** The sending side: token, options, block option and block. */
  method SendBlock(h: Header, token: seq<Byte>, options: seq<Opt>, block: Block, data: seq<Byte>, size: nat)
    returns (ok: bool, chosen: Block, sent: Pdu, ghost room: nat)
    requires h.version == VERSION && h.typ < 4 && |h.id| == 2
    requires Ordered(options, 0) && Last(options, 0) < BLOCK2
    requires InFields(block) && HEADER <= size <= MAX_PDU_SIZE
    ensures fresh(sent) && fresh(sent.hdr) && sent.Valid() && sent.maxSize == size
    ensures ok ==> HeaderOf(sent.hdr[..]) == h && sent.token == token && InFields(chosen)
    ensures ok ==> sent.options == options + [Opt(BLOCK2, EncodeVar(BlockValue(chosen)))]
    ensures ok ==> sent.payload == BlockAt(data, chosen.num, chosen.szx)
    ensures ok ==> room == size - HEADER - |token| - |EncodeOptions(options, 0)|
    ensures ok ==> Negotiated(block, chosen, Available(room), |data|)
    ensures |token| <= 8 && HEADER + |token| + Room(options) + 6 + BlockSize(block.szx) <= size &&
            Offset(block) < |data| ==>
              ok && chosen == block.(m := Offset(block) + BlockSize(block.szx) < |data|)
  {
    hide Ordered, Good, EncodeOptions, Body, Room, Negotiated, BlockSize, BlockStart, EncodeVar, Encoded;
    chosen, room := block, 0;
    sent := new Pdu.Init(h.typ, h.code, h.id, size);
    ok := Build(sent, token, options, []);
    if !ok {
      return;
    }
    LengthIs(sent);
    Roomy(options, 0);
    ghost var before := sent.hdr[..];
    room := size - sent.length;
    ok, chosen := WriteBlock(sent, block, data);
    SameHeader(before, sent.hdr[..]);
  }

  /** `coap_write_block_opt` and `coap_add_block`, behind options below Block2. */
  method WriteBlock(pdu: Pdu, block: Block, data: seq<Byte>) returns (ok: bool, chosen: Block)
    requires pdu.Valid() && pdu.payload == [] && InFields(block) && pdu.maxDelta < BLOCK2
    modifies pdu, pdu.hdr
    ensures pdu.Valid() && pdu.token == old(pdu.token) && pdu.hdr[..HEADER] == old(pdu.hdr[..HEADER])
    ensures ok ==> InFields(chosen) && Negotiated(block, chosen, Available(pdu.maxSize - old(pdu.length)), |data|)
    ensures ok ==> pdu.options == old(pdu.options) + [Opt(BLOCK2, EncodeVar(BlockValue(chosen)))]
    ensures ok ==> pdu.payload == BlockAt(data, chosen.num, chosen.szx)
    ensures old(pdu.length) + 6 + BlockSize(block.szx) <= pdu.maxSize && Offset(block) < |data| ==>
              ok && chosen == block.(m := Offset(block) + BlockSize(block.szx) < |data|)
  {
    hide Ordered, Good, EncodeOptions, Body, Negotiated, BlockSize, BlockStart, EncodeVar, Encoded;
    SixteenAtLeast(block.szx);
    var before := pdu.length;
    ghost var avail := Available(pdu.maxSize - before);
    var result;
    result, chosen := WriteBlockOpt(block, BLOCK2, pdu, |data|);
    if result != 1 {
      return false, chosen;
    }
    NegotiatedFits(block, chosen, avail, |data|);
    ValueFits(chosen, old(pdu.maxDelta), avail);
    if pdu.length == before {
      return false, chosen;
    }
    Unshrunk(block, chosen, avail, |data|);
    StartFits(chosen);
    ok := AddBlock(pdu, data, chosen.num, chosen.szx);
  }

  lemma SixteenAtLeast(szx: nat)
    ensures BlockSize(szx) >= 16
  {
    Powers();
    Pow2Increases(4, szx + 4);
  }

  lemma ValueFits(b: Block, last: nat, room: nat)
    requires InFields(b) && last < BLOCK2
    ensures 1 <= |Encoded(BLOCK2 - last, EncodeVar(BlockValue(b)))| <= 5
  {
    hide EncodeVar, Encoded, HeaderAccepted, HeaderSize;
    BlockOfValue(b);
    EncodedLengths(BlockValue(b));
    OptionFits(BLOCK2, last, EncodeVar(BlockValue(b)), room);
  }

  lemma {:induction false} Roomy(options: seq<Opt>, prev: nat)
    requires Ordered(options, prev)
    ensures |EncodeOptions(options, prev)| <= Room(options)
    decreases |options|
  {
    if options != [] {
      Roomy(options[1..], options[0].number);
    }
  }

  /** With space for the whole block, nothing but the M bit changes. */
  lemma Unshrunk(block: Block, b: Block, avail: nat, n: nat)
    requires Negotiated(block, b, avail, n) && InFields(block)
    ensures BlockSize(block.szx) <= avail ==> b == block.(m := Offset(block) + BlockSize(block.szx) < n)
  {
    hide BlockSize;
    if BlockSize(block.szx) <= avail {
      assert Pow2(0) == 1;
      SameStart(block.num, b.num, BlockSize(block.szx));
    }
  }

  lemma SameStart(a: nat, b: nat, size: nat)
    requires size > 0
    ensures a * size == b * size <==> a == b
  {
    assert b * size - a * size == (b - a) * size;
    if a < b {
      assert (b - a) * size > 0;
    } else if b < a {
      assert (b - a) * size < 0;
    }
  }

  /** The message that was sent is accepted, and its first block option and its payload are what was put in. */
  lemma SentIsRead(s: seq<Byte>, n: nat, token: seq<Byte>, options: seq<Opt>, b: Block, payload: seq<Byte>)
    requires InFields(b) && HEADER <= n <= |s| && s[1] != 0 && TokenLength(s) == |token| <= 8
    requires Ordered(options, 0) && Good(options, 0) && Last(options, 0) < BLOCK2
    requires var all := options + [Opt(BLOCK2, EncodeVar(BlockValue(b)))];
             Ordered(all, 0) && s[HEADER..n] == Body(token, all, payload)
    ensures Accepts(s, n) && PayloadOf(s, n) == payload
    ensures var views := OptionsOf(s, n);
            var k := FirstWith(BLOCK2, views);
            Reaches(BLOCK2, views) && k < |views| && BlockOf(DecodeVar(views[k].value)) == b
  {
    hide Ordered, Good, EncodeOptions, Body, Options, Walk, EncodeVar, DecodeVar, Reaches, FirstWith;
    var o := Opt(BLOCK2, EncodeVar(BlockValue(b)));
    var all := options + [o];
    BlockOfValue(b);
    EncodedLengths(BlockValue(b));
    GoodSnoc(options, 0, o);
    RoundTrip(s, n, token, all, payload);
    forall x | x in options
      ensures x.number != BLOCK2
    {
      var i :| 0 <= i < |options| && options[i] == x;
      OrderedAt(options, 0, i, |options| - 1);
    }
    assert all + [] == all;
    BlockReadsBack(s, n, token, options, b, [], payload);
  }

  lemma {:induction false} GoodSnoc(options: seq<Opt>, prev: nat, o: Opt)
    requires Ordered(options, prev) && Good(options, prev) && Ordered(options + [o], prev)
    requires o.number - Last(options, prev) != 269 && Encodable(|o.value|)
    ensures Good(options + [o], prev)
    decreases |options|
  {
    hide Encodable;
    if options == [] {
      assert options + [o] == [o] && [o][1..] == [];
    } else {
      assert (options + [o])[1..] == options[1..] + [o];
      GoodSnoc(options[1..], options[0].number, o);
    }
  }

  lemma LengthIs(pdu: Pdu)
    requires pdu.Valid() && pdu.payload == []
    ensures pdu.length == HEADER + |pdu.token| + |EncodeOptions(pdu.options, 0)|
  {
    hide Ordered, EncodeOptions;
    assert |pdu.hdr[HEADER..pdu.length]| == pdu.length - HEADER;
  }
}
