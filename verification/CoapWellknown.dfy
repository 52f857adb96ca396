/** The response to a request for /.well-known/core: the whole document, or the block of it that was asked for or
    that fits. */
module CoapWellknown {
  import opened Arithmetic
  import opened CoapOption
  import opened CoapMessage
  import opened CoapPdu
  import opened CoapIterator
  import opened CoapEncode
  import opened CoapBlock
  import opened CoapBlockExchange
  import opened CoapLinks
  import opened CoapLinksReading

  const CONTENT_FORMAT := 12
  const LINK_FORMAT := 40
  const MAX_BLOCK_SZX := 4
  const LENGTH_LIMIT := 0x1000_0000      // printed lengths have 28 bits

  const FORMAT := Opt(CONTENT_FORMAT, [LINK_FORMAT])

  /** The characters as bytes. */
  function Codes(s: string): (r: seq<Byte>)
    ensures |r| == |s|
  {
    seq(|s|, i requires 0 <= i < |s| => s[i] as int % 256)
  }

  /** The size exponent of the blocks that are sent when `block` is asked for. */
  function Size(block: Block): nat {
    if block.szx > MAX_BLOCK_SZX then MAX_BLOCK_SZX else block.szx
  }

  /** The number, in blocks of that size, of the place in the document that was asked for. */
  function Number(block: Block): nat {
    block.num * Pow2(block.szx - Size(block))
  }

  lemma SamePlace(block: Block)
    ensures BlockStart(Number(block), Size(block)) == Offset(block)
    ensures block.szx <= MAX_BLOCK_SZX ==> Number(block) == block.num
  {
    hide Pow2;
    Powers();
    PowAdd(Size(block) + 4, block.szx - Size(block));
    Regroup(block.num, Pow2(block.szx - Size(block)), BlockSize(Size(block)));
  }

  lemma Shifted(block: Block)
    requires block.szx > MAX_BLOCK_SZX
    ensures Offset(block) / BlockSize(MAX_BLOCK_SZX) == Number(block) && BlockSize(MAX_BLOCK_SZX) == 256
  {
    hide Pow2;
    SamePlace(block);
    Powers();
  }

  datatype Reply =
    | BadRequest
    | Unavailable
    | Whole(payload: string)
    | Part(block: Block, payload: string)

  /** The reply that is given to a request without or with a block option, when `room` bytes are left in the response
      behind the content format. */
  function Due(d: string, room: nat, asked: bool, wanted: Block): Reply {
    if !asked then
      if |d| <= room then Whole(d[..Min(|d|, Beyond(room, 1))])
      else Part(Block(0, BlockSize(MAX_BLOCK_SZX) < |d|, MAX_BLOCK_SZX), BlockAt(d, 0, MAX_BLOCK_SZX))
    else if 6 < wanted.szx then BadRequest
    else
      var num, szx := Number(wanted) % NUM_LIMIT, Size(wanted);
      if |d| <= BlockStart(num, szx) then Unavailable
      else Part(Block(num, BlockStart(num, szx) + BlockSize(szx) < |d|, szx), BlockAt(d, Number(wanted), szx))
  }

  /** Without a block option the whole document is sent, or its first block with an announcement that more follows,
      exactly unless the document is as long as the room: then its last character is missing without notice. */
  lemma LastCharacter(d: string, room: nat)
    requires BlockSize(MAX_BLOCK_SZX) <= room
    ensures var r := Due(d, room, false, Block(0, false, 0));
            (r == Whole(d) || r == Part(Block(0, true, MAX_BLOCK_SZX), BlockAt(d, 0, MAX_BLOCK_SZX))) <==> |d| != room
    ensures |d| == room ==> Due(d, room, false, Block(0, false, 0)) == Whole(d[..room - 1])
  {
    hide BlockSize;
  }

  /** With lengths below 2^28, the block that is announced is the one that is carried exactly if its number fits into
      20 bits; otherwise nothing is carried. */
  lemma CarriesAnnounced(d: string, room: nat, wanted: Block)
    requires InFields(wanted) && |d| <= LENGTH_LIMIT && Due(d, room, true, wanted).Part?
    ensures var r := Due(d, room, true, wanted);
            && (r.payload == BlockAt(d, r.block.num, r.block.szx) <==> Number(wanted) < NUM_LIMIT)
            && (NUM_LIMIT <= Number(wanted) ==> r.payload == "")
            && (Number(wanted) < NUM_LIMIT ==> Offset(r.block) == Offset(wanted))
  {
    hide BlockAt, BlockStart, Number, Size;
    SamePlace(wanted);
    Nonempty(d, Number(wanted) % NUM_LIMIT, Size(wanted));
    if NUM_LIMIT <= Number(wanted) {
      LargeNumber(wanted);
      FarAway(d, Number(wanted));
    }
  }

  lemma Nonempty(d: string, k: nat, szx: nat)
    requires BlockStart(k, szx) < |d|
    ensures BlockAt(d, k, szx) != ""
  {
    hide BlockStart, BlockSize;
  }

  /** Only a number that has been converted to smaller blocks can be too large. */
  lemma LargeNumber(wanted: Block)
    requires InFields(wanted) && NUM_LIMIT <= Number(wanted)
    ensures Size(wanted) == MAX_BLOCK_SZX
  {
    hide Pow2;
    SamePlace(wanted);
  }

  lemma FarAway(d: string, k: nat)
    requires |d| <= LENGTH_LIMIT && NUM_LIMIT <= k
    ensures BlockAt(d, k, MAX_BLOCK_SZX) == ""
  {
    hide Pow2;
    Powers();
    assert BlockStart(k, MAX_BLOCK_SZX) == 256 * k;
  }

  /** Block 0x40000 of 1024 bytes is announced as block 0 of 256 bytes. */
  lemma AnnouncedWrongly(d: string, room: nat)
    requires 0 < |d| <= LENGTH_LIMIT
    ensures var wanted := Block(0x4_0000, false, 6);
            InFields(wanted) && Due(d, room, true, wanted) == Part(Block(0, 256 < |d|, MAX_BLOCK_SZX), "")
  {
    hide Pow2;
    Powers();
  }

  // ---- the function ----

  /** `get_wkc_len` */
  method DocumentLength(resources: seq<Resource>) returns (len: nat)
    ensures len == |Document(resources)|
  {
    hide Document;
    var buf := new char[1];
    var _, total, _ := PrintWellknown(resources, buf, 0, UINT - 1);
    len := total;
  }

  /** The content format is added, which takes two bytes. */
  method AddFormat(resp: Pdu)
    requires resp.Valid() && resp.maxSize == MAX_PDU_SIZE && resp.options == [] && resp.payload == []
    modifies resp, resp.hdr
    ensures resp.Valid() && resp.options == [FORMAT] && resp.payload == [] && resp.token == old(resp.token)
    ensures resp.length == HEADER + |resp.token| + 2 && resp.hdr[..HEADER] == old(resp.hdr[..HEADER])
  {
    hide Ordered, EncodeOptions, Body, Encoded, HeaderAccepted, HeaderSize;
    LengthIs(resp);
    NoOptions();
    OptionFits(CONTENT_FORMAT, 0, [LINK_FORMAT], resp.maxSize - resp.length);
    FormatLength();
    var n := resp.AddOption(CONTENT_FORMAT, [LINK_FORMAT]);
  }

  lemma NoOptions()
    ensures EncodeOptions([], 0) == [] && Last([], 0) == 0 && Last([FORMAT], 0) == CONTENT_FORMAT
  {
  }

  lemma FormatLength()
    ensures |Encoded(CONTENT_FORMAT, [LINK_FORMAT])| == 2
  {
  }

  /** A message with this payload, in bytes; without payload there is a payload marker all the same, which makes the
      message malformed. */
  ghost predicate Carries(resp: Pdu, payload: string)
    reads resp, resp.hdr
  {
    if payload != "" then resp.Valid() && resp.payload == Codes(payload)
    else
      && 0 < HEADER <= resp.length <= resp.hdr.Length && |resp.token| == TokenLength(resp.hdr[..]) <= 8
      && Ordered(resp.options, 0)
      && resp.hdr[HEADER..resp.length] == resp.token + EncodeOptions(resp.options, 0) + [PAYLOAD_START]
  }

  /** The response is one that a receiver accepts exactly if there is something to carry. */
  lemma AcceptedIfCarrying(resp: Pdu, payload: string)
    requires 2 <= resp.hdr.Length && Carries(resp, payload) && resp.hdr[1] != 0 && Good(resp.options, 0)
    ensures resp.length <= resp.hdr.Length && (Accepts(resp.hdr[..], resp.length) <==> payload != "")
  {
    hide Ordered, Good, EncodeOptions, Walk, Body, Codes;
    if payload != "" {
      RoundTrip(resp.hdr[..], resp.length, resp.token, resp.options, resp.payload);
    } else {
      MarkerAlone(resp.hdr[..], resp.length, resp.token, resp.options);
    }
  }

  /** Content format and block option are options that the encoder gets right. */
  lemma GoodOptions(b: Block)
    requires InFields(b)
    ensures Ordered([FORMAT], 0) && Good([FORMAT], 0)
    ensures var options := [FORMAT, Opt(BLOCK2, EncodeVar(BlockValue(b)))];
            Ordered(options, 0) && Good(options, 0)
  {
    hide EncodeVar;
    BlockOfValue(b);
    EncodedLengths(BlockValue(b));
    var o := Opt(BLOCK2, EncodeVar(BlockValue(b)));
    hide Encodable;
    assert Encodable(1) && Encodable(|o.value|) by { Short(1); Short(|o.value|); }
    assert [FORMAT, o][1..] == [o] && [o][1..] == [] && [FORMAT][1..] == [];
    assert Ordered([], BLOCK2) && Good([], BLOCK2) && Ordered([], CONTENT_FORMAT);
    assert Ordered([o], CONTENT_FORMAT) && Good([o], CONTENT_FORMAT);
  }

  lemma Short(n: nat)
    ensures n <= 3 ==> Encodable(n)
  {
  }

  lemma MarkerBehind(s: seq<Byte>, s': seq<Byte>, n: nat, token: seq<Byte>, options: seq<Opt>)
    requires Ordered(options, 0) && HEADER <= n < |s| == |s'| && s[HEADER..n] == Body(token, options, [])
    requires s' == s[n := PAYLOAD_START as Byte]
    ensures s'[HEADER..n + 1] == token + EncodeOptions(options, 0) + [PAYLOAD_START]
    ensures s'[..HEADER] == s[..HEADER] && s'[0] == s[0]
  {
    hide Ordered, EncodeOptions;
    assert token + EncodeOptions(options, 0) + [] == token + EncodeOptions(options, 0);
    assert s'[HEADER..n + 1] == s[HEADER..n] + [PAYLOAD_START];
  }

  /** The payload marker, which is there in any case, and the payload. */
  method Carry(resp: Pdu, payload: string)
    requires resp.Valid() && resp.payload == [] && resp.length + 1 + |payload| <= resp.maxSize
    modifies resp, resp.hdr
    ensures resp.token == old(resp.token) && resp.options == old(resp.options)
    ensures resp.hdr[..HEADER] == old(resp.hdr[..HEADER])
    ensures Carries(resp, payload)
  {
    hide Ordered, EncodeOptions, Body, Codes;
    if payload == "" {
      ghost var s := resp.hdr[..];
      resp.hdr[resp.length] := PAYLOAD_START;
      assert resp.hdr[..] == s[resp.length := PAYLOAD_START as Byte];
      MarkerBehind(s, resp.hdr[..], resp.length, resp.token, resp.options);
      resp.length := resp.length + 1;
      resp.data := resp.length;
    } else {
      var ok := resp.AddData(Codes(payload));
    }
  }

  /** `coap_write_block_opt` behind the content format: a block of at most 256 bytes is never shrunk. */
  method AnnounceBlock(resp: Pdu, block: Block, total: nat) returns (ok: bool, b: Block)
    requires resp.Valid() && resp.maxSize == MAX_PDU_SIZE && resp.options == [FORMAT] && resp.payload == []
    requires resp.length == HEADER + |resp.token| + 2 && InFields(block) && block.szx <= MAX_BLOCK_SZX
    modifies resp, resp.hdr
    ensures resp.Valid() && resp.token == old(resp.token) && resp.payload == []
    ensures resp.hdr[..HEADER] == old(resp.hdr[..HEADER]) && resp.length <= HEADER + |resp.token| + 7
    ensures ok <==> Offset(block) < total
    ensures ok ==> b == block.(m := Offset(block) + BlockSize(block.szx) < total)
    ensures ok ==> resp.options == [FORMAT, Opt(BLOCK2, EncodeVar(BlockValue(b)))] && BlockSize(b.szx) <= 256
  {
    hide BlockSize, BlockStart, Ordered, EncodeOptions, Body, EncodeVar, Encoded, Negotiated;
    NoOptions();
    SmallBlock(block.szx);
    SixteenAtLeast(block.szx);
    ghost var avail := Available(resp.maxSize - resp.length);
    var result;
    result, b := WriteBlockOpt(block, BLOCK2, resp, total);
    ok := result == 1;
    if ok {
      NegotiatedFits(block, b, avail, total);
      ValueFits(b, CONTENT_FORMAT, avail);
      Unshrunk(block, b, avail, total);
    }
  }

  lemma SmallBlock(szx: nat)
    requires szx <= MAX_BLOCK_SZX
    ensures BlockSize(szx) <= 256
  {
    Powers();
    Pow2Increases(szx + 4, 8);
  }

  /** The document, as far as there is room. */
  method CarryWhole(resources: seq<Resource>, resp: Pdu) returns (payload: string)
    requires resp.Valid() && resp.options == [FORMAT] && resp.payload == [] && resp.length < resp.maxSize
    modifies resp, resp.hdr
    ensures var d := Document(resources);
            payload == d[..Min(|d|, resp.maxSize - old(resp.length) - 1)]
    ensures Carries(resp, payload) && resp.token == old(resp.token) && resp.options == old(resp.options)
    ensures resp.hdr[..HEADER] == old(resp.hdr[..HEADER])
  {
    hide Document, Ordered, EncodeOptions, Body, Codes;
    var size := resp.maxSize - resp.length - 1;
    var buf := new char[size];
    var written, _, _ := PrintWellknown(resources, buf, size, 0);
    payload := buf[..written];
    Carry(resp, payload);
  }

  /** The block option, and what is printed for the place asked for. */
  method CarryPart(resources: seq<Resource>, resp: Pdu, block: Block, place: nat, total: nat) returns (reply: Reply)
    requires resp.Valid() && resp.maxSize == MAX_PDU_SIZE && resp.options == [FORMAT] && resp.payload == []
    requires resp.length == HEADER + |resp.token| + 2 && InFields(block) && block.szx <= MAX_BLOCK_SZX
    requires total == |Document(resources)|
    modifies resp, resp.hdr
    ensures reply == if total <= Offset(block) then Unavailable
                     else Part(block.(m := Offset(block) + BlockSize(block.szx) < total),
                               BlockAt(Document(resources), place, block.szx))
    ensures resp.token == old(resp.token) && resp.hdr[..HEADER] == old(resp.hdr[..HEADER])
    ensures reply.Unavailable? ==> resp.length == HEADER + |resp.token| && resp.options == [] && resp.payload == []
    ensures reply.Part? ==>
              Carries(resp, reply.payload)
              && resp.options == [FORMAT, Opt(BLOCK2, EncodeVar(BlockValue(reply.block)))]
  {
    hide Document, BlockSize, BlockStart, Ordered, EncodeOptions, Body, EncodeVar, Codes;
    var ok, b := AnnounceBlock(resp, block, total);
    if !ok {
      resp.length := HEADER + resp.hdr[0] % 16;
      resp.options := [];
      return Unavailable;
    }
    var buf := new char[BlockSize(b.szx)];
    var written, _, _ := PrintBlock(resources, buf, place, b.szx);
    Carry(resp, buf[..written]);
    reply := Part(b, buf[..written]);
  }

  /** `wellknown_response`, from where the token has been added. (With messages of COAP_MAX_PDU_SIZE there is always
      space for the content format and for the largest block, so the source's branches for too little space are
      never taken.) */
  method Respond(resources: seq<Resource>, resp: Pdu, asked: bool, wanted: Block) returns (reply: Reply)
    requires resp.Valid() && resp.maxSize == MAX_PDU_SIZE && resp.options == [] && resp.payload == []
    requires asked ==> InFields(wanted)
    modifies resp, resp.hdr
    ensures reply == Due(Document(resources), MAX_PDU_SIZE - HEADER - |old(resp.token)| - 2, asked, wanted)
    ensures resp.token == old(resp.token) && resp.hdr[..HEADER] == old(resp.hdr[..HEADER])
    ensures reply.Unavailable? || reply.BadRequest? ==>
              resp.length == HEADER + |resp.token| && resp.options == [] && resp.payload == []
    ensures reply.Whole? ==> resp.options == [FORMAT] && Carries(resp, reply.payload)
    ensures reply.Part? ==>
              Carries(resp, reply.payload)
              && resp.options == [FORMAT, Opt(BLOCK2, EncodeVar(BlockValue(reply.block)))]
  {
    hide Document, BlockSize, BlockStart, Ordered, EncodeOptions, Body, EncodeVar, Number, Carries, BlockAt;
    LengthIs(resp);
    NoOptions();
    FirstStart(MAX_BLOCK_SZX);
    var total := DocumentLength(resources);
    if asked {
      if 6 < wanted.szx {
        return BadRequest;
      }
      var block, place := wanted, wanted.num;
      SamePlace(wanted);
      if MAX_BLOCK_SZX < wanted.szx {
        Shifted(wanted);
        place := Offset(wanted) / BlockSize(MAX_BLOCK_SZX);
        block := Block(place % NUM_LIMIT, wanted.m, MAX_BLOCK_SZX);
      }
      AddFormat(resp);
      reply := CarryPart(resources, resp, block, place, total);
    } else {
      AddFormat(resp);
      if MAX_PDU_SIZE - resp.length < total {
        reply := CarryPart(resources, resp, Block(0, false, MAX_BLOCK_SZX), 0, total);
      } else {
        var payload := CarryWhole(resources, resp);
        reply := Whole(payload);
      }
    }
  }

  /** `COAP_RESPONSE_CODE` */
  function ResponseCode(n: nat): Byte
    requires n < 800 && n % 100 < 32
  {
    n / 100 * 32 + n % 100
  }

  /** RFC 7252, section 3: the class is in the upper three bits and the detail in the lower five, so that c.dd is
      written for the decimal number cdd, and no two numbers have the same code. */
  lemma ResponseCodeIs(n: nat, b: Byte)
    requires n < 800 && n % 100 < 32
    ensures b == ResponseCode(n) <==> n == 100 * (b / 32) + b % 32
    ensures ResponseCode(205) == 0x45 && ResponseCode(400) == 0x80 && ResponseCode(503) == 0xA3
  {
    CodeParts(n / 100, n % 100, b);
    CodeParts(b / 32, b % 32, b);
    HundredParts(b / 32, b % 32);
  }

  lemma CodeParts(c: nat, d: nat, b: nat)
    requires d < 32
    ensures b == 32 * c + d <==> b / 32 == c && b % 32 == d
  {
  }

  lemma HundredParts(c: nat, d: nat)
    requires d < 32
    ensures (100 * c + d) / 100 == c && (100 * c + d) % 100 == d
  {
  }

  const CON := 0
  const NON := 1
  const ACK := 2

  /** The header of the response: it acknowledges a confirmable request, under the same message id. */
  function ResponseHeader(request: Header, reply: Reply): Header {
    var code := if reply.BadRequest? then 400 else if reply.Unavailable? then 503 else 205;
    Header(VERSION, if request.typ == CON then ACK else NON, ResponseCode(code), request.id)
  }

  /** The response with its code. */
  method Answer(resources: seq<Resource>, resp: Pdu, ghost request: Header, asked: bool, wanted: Block)
    returns (reply: Reply)
    requires resp.Valid() && resp.maxSize == MAX_PDU_SIZE && resp.options == [] && resp.payload == []
    requires asked ==> InFields(wanted)
    requires HeaderOf(resp.hdr[..]) == ResponseHeader(request, Whole(""))
    modifies resp, resp.hdr
    ensures reply == Due(Document(resources), MAX_PDU_SIZE - HEADER - |old(resp.token)| - 2, asked, wanted)
    ensures resp.token == old(resp.token) && HeaderOf(resp.hdr[..]) == ResponseHeader(request, reply)
    ensures reply.Whole? || reply.Part? ==>
              Carries(resp, reply.payload) && resp.length <= resp.hdr.Length
              && (Accepts(resp.hdr[..], resp.length) <==> reply.payload != "")
    ensures reply.Part? ==> resp.options == [FORMAT, Opt(BLOCK2, EncodeVar(BlockValue(reply.block)))]
  {
    hide Document, Ordered, Good, EncodeOptions, Body, EncodeVar, Due, Carries, Walk, BlockValue, BlockAt, Accepts;
    ghost var before, room: nat := resp.hdr[..], MAX_PDU_SIZE - HEADER - |resp.token| - 2;
    reply := Respond(resources, resp, asked, wanted);
    SameHeader(before, resp.hdr[..]);
    match reply {
      case BadRequest => resp.hdr[1] := ResponseCode(400);
      case Unavailable => resp.hdr[1] := ResponseCode(503);
      case Whole(payload) =>
        GoodOptions(Block(0, false, 0));
        AcceptedIfCarrying(resp, payload);
      case Part(b, payload) =>
        DueFits(Document(resources), room, asked, wanted);
        GoodOptions(b);
        AcceptedIfCarrying(resp, payload);
    }
  }

  /** `wellknown_response`. The block asked for is the one `coap_get_block` finds. */
  method WellknownResponse(resources: seq<Resource>, request: Pdu)
    returns (resp: Pdu, reply: Reply, ghost asked: bool, ghost wanted: Block)
    requires request.hdr.Length == request.maxSize + 1 && HEADER <= request.length <= request.maxSize <= MAX_PDU_SIZE
    requires Accepts(request.hdr[..], request.length)
    ensures fresh(resp) && fresh(resp.hdr) && resp.maxSize == MAX_PDU_SIZE && resp.hdr.Length == resp.maxSize + 1
    ensures var s := request.hdr[..];
            resp.token == s[HEADER..HEADER + TokenLength(s)]
            && reply == Due(Document(resources), MAX_PDU_SIZE - HEADER - TokenLength(s) - 2, asked, wanted)
    ensures var views := OptionsOf(request.hdr[..], request.length);
            var k := FirstWith(BLOCK2, views);
            Reaches(BLOCK2, views) ==>
              asked == (k < |views|) && (asked ==> wanted == BlockOf(DecodeVar(views[k].value)))
    ensures asked ==> InFields(wanted)
    ensures HeaderOf(resp.hdr[..]) == ResponseHeader(HeaderOf(request.hdr[..]), reply)
    ensures reply.Whole? || reply.Part? ==>
              Carries(resp, reply.payload) && resp.length <= resp.hdr.Length
              && (Accepts(resp.hdr[..], resp.length) <==> reply.payload != "")
    ensures reply.Part? ==> resp.options == [FORMAT, Opt(BLOCK2, EncodeVar(BlockValue(reply.block)))]
  {
    hide Document, Ordered, Good, EncodeOptions, Body, EncodeVar, DecodeVar, Due, Carries, Walk, Options, Reaches,
         FirstWith, StopsAt, BlockOf, BlockValue, BlockAt;
    var typ := if request.hdr[0] / 16 % 4 == CON then ACK else NON;
    resp := new Pdu.Init(typ, ResponseCode(205), request.hdr[2..HEADER], MAX_PDU_SIZE);
    var token := request.hdr[HEADER..HEADER + request.hdr[0] % 16];
    var ok := resp.AddToken(token);
    var found, block := GetBlock(request, BLOCK2);
    asked, wanted := found, block;
    reply := Answer(resources, resp, HeaderOf(request.hdr[..]), found, block);
  }

  lemma DueFits(d: string, room: nat, asked: bool, wanted: Block)
    requires asked ==> InFields(wanted)
    ensures var r := Due(d, room, asked, wanted);
            r.Part? ==> InFields(r.block)
  {
    hide BlockAt, BlockSize, BlockStart, Number;
  }

  // ---- a client that fetches the document ----

  lemma DuePart(d: string, room: nat, wanted: Block)
    requires InFields(wanted) && wanted.szx <= 6 && Number(wanted) < NUM_LIMIT
    requires BlockStart(Number(wanted), Size(wanted)) < |d|
    ensures Due(d, room, true, wanted)
              == Part(Block(Number(wanted), BlockStart(Number(wanted), Size(wanted)) + BlockSize(Size(wanted)) < |d|,
                            Size(wanted)),
                      BlockAt(d, Number(wanted), Size(wanted)))
  {
    hide BlockSize, BlockStart, Number, BlockAt;
  }

  /** One request for a block; `next` is the block to ask for if more is announced. */
  method FetchBlock(resources: seq<Resource>, wanted: Block) returns (payload: string, more: bool, next: Block)
    requires InFields(wanted) && wanted.szx <= 6 && Number(wanted) < NUM_LIMIT
    requires BlockStart(Number(wanted), Size(wanted)) < |Document(resources)|
    ensures payload == BlockAt(Document(resources), Number(wanted), Size(wanted))
    ensures more <==> BlockStart(Number(wanted) + 1, Size(wanted)) < |Document(resources)|
    ensures next.szx <= 6 && Size(next) == Size(wanted) && Number(next) == next.num == Number(wanted) + 1
  {
    hide Document, BlockSize, BlockStart, Number, BlockAt, Due, Carries, EncodeVar, Ordered, EncodeOptions, Body;
    var resp := new Pdu(MAX_PDU_SIZE);
    var reply := Respond(resources, resp, true, wanted);
    DuePart(Document(resources), MAX_PDU_SIZE - HEADER - 2, wanted);
    payload, more, next := reply.payload, reply.block.m, Block(reply.block.num + 1, false, reply.block.szx);
    NextStart(Number(wanted), Size(wanted));
    SamePlace(next);
  }

  /** Asking for block after block of the size that the first response has chosen, as long as more is announced,
      gives the whole document, if its blocks can be numbered; and from it the resources can be read. */
  method FetchDocument(resources: seq<Resource>, szx: nat) returns (doc: string)
    requires szx <= 6 && Document(resources) != ""
    requires |Document(resources)| <= BlockStart(NUM_LIMIT, Size(Block(0, false, szx)))
    ensures doc == Document(resources)
    ensures (forall r :: r in resources ==> PlainResource(r) && Unmistakable(r)) ==> ReadDocument(doc) == resources
  {
    hide Document, BlockSize, BlockStart, BlocksFrom, Number, BlockAt, PlainResource, Unmistakable, ReadDocument;
    ghost var d, size, k := Document(resources), Size(Block(0, false, szx)), 0;
    var wanted, more := Block(0, false, szx), true;
    doc := "";
    FirstStart(size);
    FirstPlace(szx);
    BlocksOfDocument(resources, size);
    while more
      invariant wanted.szx <= 6 && Size(wanted) == size && Number(wanted) == k && wanted.num <= k
      invariant doc + BlocksFrom(d, k, size) == d
      invariant if more then k < NUM_LIMIT && BlockStart(k, size) < |d| else |d| <= BlockStart(k, size)
      decreases if more then |d| - BlockStart(k, size) + 1 else 0
    {
      var payload;
      payload, more, wanted := FetchBlock(resources, wanted);
      BlocksStep(d, k, size);
      NextStart(k, size);
      ghost var rest := BlocksFrom(d, k + 1, size);
      assert doc + payload + rest == doc + (payload + rest);
      doc := doc + payload;
      k := k + 1;
      if more {
        FewBlocks(k, |d|, size);
      }
    }
    BlocksStep(d, k, size);
    assert doc + [] == doc;
    if forall r :: r in resources ==> PlainResource(r) && Unmistakable(r) {
      ReadsBack(resources);
    }
  }

  lemma FirstPlace(szx: nat)
    ensures Number(Block(0, false, szx)) == 0
  {
  }

  lemma FewBlocks(k: nat, n: nat, szx: nat)
    requires BlockStart(k, szx) < n <= BlockStart(NUM_LIMIT, szx)
    ensures k < NUM_LIMIT
  {
    if NUM_LIMIT <= k {
      ProductBound(NUM_LIMIT, BlockSize(szx), k, BlockSize(szx));
    }
  }
}
