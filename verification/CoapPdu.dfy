/** CoAP messages (RFC 7252, section 3): building them with the `coap_add_*` functions and parsing them. */
module CoapPdu {
  import opened CoapOption
  import opened CoapMessage

  const HEADER := 4
  const MAX_PDU_SIZE := 1400

  ghost function Body(token: seq<Byte>, options: seq<Opt>, payload: seq<Byte>): seq<Byte>
    requires Ordered(options, 0)
  {
    token + EncodeOptions(options, 0) + Tail(payload)
  }

  function TokenLength(s: seq<Byte>): nat
    requires |s| > 0
  {
    s[0] % 16
  }

  const VERSION := 1

  /** Version, type, code and message id, the two bytes of the id as they lie in memory. */
  datatype Header = Header(version: nat, typ: nat, code: Byte, id: seq<Byte>)

  function HeaderOf(s: seq<Byte>): Header
    requires HEADER <= |s|
  {
    Header(s[0] / 64, s[0] / 16 % 4, s[1], s[2..HEADER])
  }

  lemma SameHeader(s: seq<Byte>, t: seq<Byte>)
    requires HEADER <= |s| && HEADER <= |t| && s[..HEADER] == t[..HEADER]
    ensures HeaderOf(s) == HeaderOf(t) && TokenLength(s) == TokenLength(t)
  {
    assert s[0] == s[..HEADER][0] && s[1] == s[..HEADER][1] && s[2..HEADER] == s[..HEADER][2..];
    assert t[0] == t[..HEADER][0] && t[1] == t[..HEADER][1] && t[2..HEADER] == t[..HEADER][2..];
  }

  /** Header and token length are all that the first four bytes hold. */
  lemma FirstFourBytes(s: seq<Byte>, h: Header, token: nat)
    requires HEADER <= |s| && |h.id| == 2
    ensures HeaderOf(s) == h && TokenLength(s) == token <==>
            s[..HEADER] == [64 * h.version + 16 * h.typ + token, h.code, h.id[0], h.id[1]]
            && h.typ < 4 && token < 16
  {
    FirstByte(s[0], h.version, h.typ, token);
    assert s[..HEADER] == [s[0], s[1]] + s[2..HEADER];
    assert h.id == [h.id[0], h.id[1]];
  }

  lemma FirstByte(b: Byte, version: nat, typ: nat, token: nat)
    ensures b / 64 == version && b / 16 % 4 == typ && b % 16 == token <==>
            b == 64 * version + 16 * typ + token && typ < 4 && token < 16
  {
    assert b == 64 * (b / 64) + 16 * (b / 16 % 4) + b % 16;
  }

  /** What `coap_pdu_parse` accepts: an empty message (code 0) is the bare header, the token fits and has
      at most 8 bytes, and the options lead to the end or to a non-empty payload. */
  predicate Accepts(s: seq<Byte>, n: nat)
    requires n <= |s| && 2 <= |s|
  {
    && (s[1] == 0 ==> n == HEADER && TokenLength(s) == 0)
    && HEADER + TokenLength(s) <= n && TokenLength(s) <= 8
    && Walk(s, HEADER + TokenLength(s), n - HEADER - TokenLength(s)) != Broken
  }

  predicate PayloadWithin(w: WalkEnd, lo: nat, hi: nat) {
    w.Payload? ==> lo < w.at < hi
  }

  /** The bytes from where the walk has found the payload to the end of the message. */
  function PayloadBytes(s: seq<Byte>, n: nat, w: WalkEnd): seq<Byte>
    requires n <= |s|
  {
    if w.Payload? && w.at <= n then s[w.at..n] else []
  }

  /** The payload that the walk finds. */
  function PayloadOf(s: seq<Byte>, n: nat): seq<Byte>
    requires 0 < |s| && n <= |s|
  {
    var at := HEADER + TokenLength(s);
    if at <= n then PayloadBytes(s, n, Walk(s, at, n - at)) else []
  }

  class Pdu {
    const maxSize: nat
    const hdr: array<Byte>          // header, token, options, payload, and one byte that the parsers may look at
    var maxDelta: nat
    var length: nat
    var data: nat                   // where the payload begins, 0 for NULL
    ghost var token: seq<Byte>
    ghost var options: seq<Opt>
    ghost var payload: seq<Byte>

    /** The message under construction consists of `token`, `options` and `payload`. */
    ghost predicate Valid()
      reads this, hdr
    {
      && hdr.Length == maxSize + 1 && maxSize <= MAX_PDU_SIZE
      && HEADER <= length <= maxSize
      && |token| == TokenLength(hdr[..]) <= 8
      && Ordered(options, 0) && maxDelta == Last(options, 0)
      && hdr[HEADER..length] == Body(token, options, payload)
      && data == (if payload == [] then 0 else length - |payload|)
    }

    /** `coap_pdu_clear` */
    constructor (size: nat)
      requires HEADER <= size <= MAX_PDU_SIZE
      ensures Valid() && fresh(hdr) && maxSize == size && token == [] && options == [] && payload == []
      ensures length == HEADER
      ensures hdr[..HEADER] == [0x40, 0, 0, 0]
    {
      maxSize := size;
      hdr := new Byte[size + 1](_ => 0);
      maxDelta, length, data := 0, HEADER, 0;
      token, options, payload := [], [], [];
      new;
      hdr[0] := 0x40;
    }

    /** `coap_pdu_init`, with memory for the message */
    constructor Init(typ: nat, code: Byte, id: seq<Byte>, size: nat)
      requires HEADER <= size <= MAX_PDU_SIZE && typ < 4 && |id| == 2
      ensures Valid() && fresh(hdr) && maxSize == size && token == [] && options == [] && payload == []
      ensures length == HEADER && HeaderOf(hdr[..]) == Header(VERSION, typ, code, id)
    {
      maxSize := size;
      hdr := new Byte[size + 1](_ => 0);
      maxDelta, length, data := 0, HEADER, 0;
      token, options, payload := [], [], [];
      new;
      hdr[0] := 0x40;
      hdr[2], hdr[3] := id[0], id[1];
      hdr[0] := hdr[0] + 16 * typ;
      hdr[1] := code;
    }

    /** `coap_add_token` */
    method AddToken(d: seq<Byte>) returns (ok: bool)
      requires Valid()
      modifies this, hdr
      ensures Valid()
      ensures ok <==> |d| <= 8 && HEADER + |d| <= maxSize
      ensures ok ==> token == d && options == [] && payload == [] && length == HEADER + |d|
      ensures !ok ==>
                token == old(token) && options == old(options) && payload == old(payload) && hdr[..] == old(hdr[..])
      ensures HeaderOf(hdr[..]) == old(HeaderOf(hdr[..]))
      ensures hdr[0] / 16 == old(hdr[0]) / 16 && hdr[1..HEADER] == old(hdr[1..HEADER])
    {
      hide Ordered, EncodeOptions, Body;
      TokenBody(d);
      LowNibble(hdr[0], |d|);
      var headerLength := |d| + HEADER;
      if |d| > 8 || maxSize < headerLength {
        return false;
      }
      hdr[0] := hdr[0] / 16 * 16 + |d|;
      CopyBytes(hdr, HEADER, d);
      maxDelta := 0;
      length := headerLength;
      data := 0;
      token, options, payload := d, [], [];
      return true;
    }

    /** `coap_add_option`, with the space that the header writer asserts. It refuses options out of order and
        options that do not fit. Called (against the documentation) behind `coap_add_data`, it loses the
        pointer to the payload, and the option becomes part of the payload. */
    method AddOption(number: nat, val: seq<Byte>) returns (n: nat)
      requires Valid() && number < 0x10000
      requires maxDelta <= number && HeaderAccepted(number - maxDelta, |val|, maxSize - length) ==>
                 HeaderSize(number - maxDelta, |val|) <= maxSize - length
      modifies this, hdr
      ensures old(payload) == [] ==> Valid()
      ensures old(payload) != [] ==> data == 0
      ensures token == old(token) && length == old(length) + n <= maxSize && hdr[..HEADER] == old(hdr[..HEADER])
      ensures Ordered(options, 0) && hdr[HEADER..length] == Body(token, options, payload)
      ensures n == if old(maxDelta) <= number && |Encoded(number - old(maxDelta), val)| <= maxSize - old(length)
                   then |Encoded(number - old(maxDelta), val)| else 0
      ensures options == if n == 0 || old(payload) != [] then old(options) else old(options) + [Opt(number, val)]
      ensures payload == if n == 0 || old(payload) == [] then old(payload)
                         else old(payload) + Encoded(number - old(maxDelta), val)
    {
      hide Encoded, HeaderAccepted, HeaderSize, Ordered, EncodeOptions, Body;
      data := 0;
      if number < maxDelta {
        return 0;
      }
      ghost var before, delta := hdr[..], number - maxDelta;
      n := OptEncode(hdr, length, maxSize - length, number - maxDelta, val);
      SliceSame(before, hdr[..], 0, HEADER);
      SliceSame(before, hdr[..], HEADER, length);
      if n == 0 {
        return;
      }
      if payload == [] {
        OrderedSnoc(options, 0, Opt(number, val));
        Appended(hdr[..], before, length, n, token, options, Opt(number, val));
        options := options + [Opt(number, val)];
      } else {
        Swallowed(hdr[..], length, n, token, options, payload, Encoded(delta, val));
        payload := payload + Encoded(delta, val);
      }
      maxDelta := number;
      length := length + n;
    }

    lemma NoPayloadYet()
      requires Valid() && data == 0
      ensures payload == []
    {
      hide Ordered, EncodeOptions;
      assert |hdr[HEADER..length]| == length - HEADER;
    }

    /** `coap_add_data`; the source asserts that no data has been added yet. */
    method AddData(val: seq<Byte>) returns (ok: bool)
      requires Valid() && data == 0
      modifies this, hdr
      ensures Valid() && token == old(token) && options == old(options)
      ensures payload == if ok then val else []
      ensures ok <==> val == [] || old(length) + |val| + 1 <= maxSize
      ensures hdr[..HEADER] == old(hdr[..HEADER])
    {
      hide Ordered, EncodeOptions, Body;
      NoPayloadYet();
      if |val| == 0 {
        return true;
      }
      if length + |val| + 1 > maxSize {
        return false;
      }
      ghost var before := hdr[..];
      data := length;
      hdr[data] := PAYLOAD_START;
      data := data + 1;
      CopyBytes(hdr, data, val);
      SliceSame(before, hdr[..], 0, HEADER);
      SliceSame(before, hdr[..], HEADER, length);
      DataAppended(hdr[..], before, length, token, options, val);
      length := length + |val| + 1;
      payload := val;
      return true;
    }

    /** `coap_get_data`, as offset and length: what lies there is the payload, of a message under construction
        as of a received one. */
    method GetData() returns (found: bool, at: nat, len: nat)
      requires Valid() || Received()
      ensures found <==> payload != []
      ensures at + len <= length <= hdr.Length && hdr[at..at + len] == payload
    {
      hide Ordered, EncodeOptions, Body, Walk;
      assert data <= length && (data != 0 <==> payload != []) && (data != 0 ==> hdr[data..length] == payload) by {
        if Valid() {
          BodyParts(hdr[..], length, token, options, payload);
        } else {
          WalkWithin(hdr[..], HEADER + TokenLength(hdr[..]), length - HEADER - TokenLength(hdr[..]));
        }
      }
      if data != 0 {
        return true, data, length - data;
      }
      return false, 0, 0;
    }

    // ---- receiving ----

    /** A message that has been accepted: its bytes satisfy the parser, and `data` points to the payload. */
    ghost predicate Received()
      reads this, hdr
    {
      && hdr.Length == maxSize + 1 && HEADER <= length <= maxSize
      && HEADER + TokenLength(hdr[..]) <= length && payload == PayloadOf(hdr[..], length)
      && var w := Walk(hdr[..], HEADER + TokenLength(hdr[..]), length - HEADER - TokenLength(hdr[..]));
         w != Broken && data == if w.Payload? then w.at else 0
    }

    /** `coap_pdu_parse` of the first `n` bytes of a receive buffer, into this message. */
    method Parse(src: array<Byte>, n: nat) returns (ok: bool)
      requires n <= src.Length && 2 <= src.Length && src != hdr
      requires hdr.Length == maxSize + 1 && HEADER <= maxSize
      modifies this, hdr
      ensures ok <==> n <= maxSize && Accepts(src[..], n)
      ensures ok ==> Received() && length == n && hdr[..n] == src[..n]
    {
      hide ParseOption, Walk;
      ok := false;
      if maxSize < n {
        return;
      }
      hdr[0] := src[0];
      hdr[1] := src[1];
      data := 0;
      var tokenLength := hdr[0] % 16;
      if hdr[1] == 0 {
        if n != HEADER || tokenLength != 0 {
          return;
        }
      }
      if n < HEADER + tokenLength || tokenLength > 8 {
        return;
      }
      ok := TakeRest(src, n, tokenLength);
    }

    /** The rest of the message is copied, and its options are walked over. */
    method TakeRest(src: array<Byte>, n: nat, tokenLength: nat) returns (ok: bool)
      requires HEADER + tokenLength <= n <= src.Length && src != hdr && n <= maxSize && hdr.Length == maxSize + 1
      requires hdr[0] == src[0] && hdr[1] == src[1] && data == 0 && tokenLength == src[0] % 16
      modifies this, hdr
      ensures ok <==> Walk(src[..], HEADER + tokenLength, n - HEADER - tokenLength) != Broken
      ensures ok ==> Received() && length == n && hdr[..n] == src[..n]
    {
      hide ParseOption, Walk;
      hdr[2], hdr[3] := src[2], src[3];
      CopyBytes(hdr, HEADER, src[HEADER..n]);
      length := n;
      Copied(src[..], hdr[..], n);
      WalkLocal(src[..], hdr[..], HEADER + tokenLength, n - HEADER - tokenLength);
      ok, data := FindPayload(HEADER + tokenLength, n - HEADER - tokenLength);
      payload := PayloadOf(hdr[..], n);
    }

    /** The second half of `coap_pdu_parse`: the loop over the options and the payload marker. */
    method FindPayload(start: nat, n: nat) returns (ok: bool, at: nat)
      requires start + n < hdr.Length
      ensures var w := Walk(hdr[..], start, n);
              ok == (w != Broken) && at == if w.Payload? then w.at else 0
    {
      hide ParseOption, Walk;
      ok, at := false, 0;
      var opt: nat, left: nat := start, n;
      ghost var s := hdr[..];
      WalkEnds(s, opt, left);
      while left != 0 && hdr[opt] != PAYLOAD_START
        invariant opt + left == start + n && Walk(s, opt, left) == Walk(s, start, n)
        invariant left == 0 ==> Walk(s, opt, left) == NoPayload
        invariant left != 0 && s[opt] == PAYLOAD_START ==>
                  Walk(s, opt, left) == if left == 1 then Broken else Payload(opt + 1)
        decreases left
      {
        var size, _, _, _ := OptParse(hdr, opt, left);
        ParsedSize(s, opt, left);
        if size == 0 {
          WalkEnds(s, opt, left);
          return;
        }
        WalkStep(s, opt, left);
        opt, left := opt + size, left - size;
        WalkEnds(s, opt, left);
      }
      if left != 0 {
        opt, left := opt + 1, left - 1;
        if left == 0 {
          return;
        }
        at := opt;
      }
      ok := true;
    }
  }

  /** One more option behind the options already written. */
  lemma Appended(s: seq<Byte>, before: seq<Byte>, length: nat, n: nat, token: seq<Byte>, options: seq<Opt>, o: Opt)
    requires HEADER <= length && length + n <= |s| == |before| && s[HEADER..length] == before[HEADER..length]
    requires Ordered(options, 0) && Last(options, 0) <= o.number < 0x10000
    requires before[HEADER..length] == Body(token, options, [])
    requires s[length..length + n] == Encoded(o.number - Last(options, 0), o.value)
    ensures Ordered(options + [o], 0) && s[HEADER..length + n] == Body(token, options + [o], [])
    ensures Last(options + [o], 0) == o.number
  {
    hide Encoded, EncodeOptions, Ordered;
    OrderedSnoc(options, 0, o);
    assert s[HEADER..length + n] == s[HEADER..length] + s[length..length + n];
    var E := Encoded(o.number - Last(options, 0), o.value);
    assert token + EncodeOptions(options, 0) + E == token + (EncodeOptions(options, 0) + E);
    assert Body(token, options, []) == token + EncodeOptions(options, 0);
    assert Body(token, options + [o], []) == token + EncodeOptions(options + [o], 0);
  }

  /** Bytes behind the payload are payload. */
  lemma Swallowed(s: seq<Byte>, length: nat, n: nat, token: seq<Byte>, options: seq<Opt>, payload: seq<Byte>,
                  more: seq<Byte>)
    requires HEADER <= length && length + n <= |s| && Ordered(options, 0) && payload != []
    requires s[HEADER..length] == Body(token, options, payload) && s[length..length + n] == more
    ensures s[HEADER..length + n] == Body(token, options, payload + more)
  {
    hide Ordered, EncodeOptions;
    assert s[HEADER..length + n] == s[HEADER..length] + s[length..length + n];
    var head := token + EncodeOptions(options, 0);
    assert head + ([PAYLOAD_START] + payload) + more == head + ([PAYLOAD_START] + (payload + more));
  }

  lemma LowNibble(b: Byte, n: nat)
    ensures n < 16 ==>
              var r := b / 16 * 16 + n;
              r % 16 == n && r < 256 && r / 16 == b / 16 && r / 64 == b / 64
  {
  }

  lemma TokenBody(d: seq<Byte>)
    ensures Ordered([], 0) && Last([], 0) == 0 && Body(d, [], []) == d
  {
  }

  lemma DataAppended(s: seq<Byte>, before: seq<Byte>, length: nat, token: seq<Byte>, options: seq<Opt>, val: seq<Byte>)
    requires Ordered(options, 0) && HEADER <= length && length + 1 + |val| <= |s| == |before| && val != []
    requires s[HEADER..length] == before[HEADER..length] == Body(token, options, [])
    requires s[length] == PAYLOAD_START && s[length + 1..length + 1 + |val|] == val
    ensures s[HEADER..length + 1 + |val|] == Body(token, options, val)
  {
    hide EncodeOptions, Ordered;
    var E := token + EncodeOptions(options, 0);
    assert E + [] == E;
    assert s[HEADER..length + 1 + |val|] == s[HEADER..length] + [s[length]] + s[length + 1..length + 1 + |val|];
    assert E + [PAYLOAD_START] + val == E + ([PAYLOAD_START] + val);
  }

  lemma Copied(src: seq<Byte>, dst: seq<Byte>, n: nat)
    requires HEADER <= n <= |src| && n <= |dst|
    requires dst[0] == src[0] && dst[1] == src[1] && dst[2] == src[2] && dst[3] == src[3]
    requires dst[HEADER..n] == src[HEADER..n]
    ensures dst[..n] == src[..n]
  {
    assert forall k :: HEADER <= k < n ==> dst[k] == dst[HEADER..n][k - HEADER] == src[HEADER..n][k - HEADER] == src[k];
  }

  /** The walk depends only on the bytes of the message. */
  lemma {:induction false} WalkLocal(s: seq<Byte>, s': seq<Byte>, at: nat, length: nat)
    requires at + length <= |s| && at + length <= |s'| && s[..at + length] == s'[..at + length]
    ensures Walk(s, at, length) == Walk(s', at, length)
    decreases length
  {
    hide ParseOption;
    if length > 0 {
      assert s[at] == s[..at + length][at] == s'[at];
      ParseLocal(s, s', at, length);
      ParsedSize(s, at, length);
      if s[at] != PAYLOAD_START && ParseOption(s, at, length).Parsed? {
        var p := ParseOption(s, at, length);
        WalkLocal(s, s', at + p.size, length - p.size);
      }
    }
  }

  /** Where the loop of the parser stops. */
  lemma WalkEnds(s: seq<Byte>, at: nat, length: nat)
    requires at + length <= |s|
    ensures length == 0 ==> Walk(s, at, length) == NoPayload
    ensures 0 < length && s[at] == PAYLOAD_START ==>
              Walk(s, at, length) == if length == 1 then Broken else Payload(at + 1)
    ensures 0 < length && s[at] != PAYLOAD_START && ParseOption(s, at, length).Malformed? ==>
              Walk(s, at, length) == Broken
  {
    hide ParseOption;
  }

  lemma {:induction false} WalkWithin(s: seq<Byte>, at: nat, length: nat)
    requires at + length <= |s|
    ensures PayloadWithin(Walk(s, at, length), at, at + length)
    decreases length
  {
    hide ParseOption, Walk;
    WalkEnds(s, at, length);
    if 0 < length && s[at] != PAYLOAD_START && ParseOption(s, at, length).Parsed? {
      WalkStep(s, at, length);
      var p := ParseOption(s, at, length);
      WalkWithin(s, at + p.size, length - p.size);
    }
  }

  lemma ParseLocal(s: seq<Byte>, s': seq<Byte>, at: nat, length: nat)
    requires at + length <= |s| && at + length <= |s'| && s[..at + length] == s'[..at + length]
    ensures ParseOption(s, at, length) == ParseOption(s', at, length)
  {
    assert forall k :: 0 <= k < at + length ==> s[k] == s[..at + length][k] == s'[k];
  }

  // ---- round trip ----

  /** A message built by the `coap_add_*` functions, with a non-zero code and options the encoder gets
      right, is accepted by the parser, which finds token, options and payload exactly as given. The
      options come back if and only if no delta and no length is 269. */
  lemma RoundTrip(s: seq<Byte>, n: nat, token: seq<Byte>, options: seq<Opt>, payload: seq<Byte>)
    requires Ordered(options, 0) && HEADER <= n <= |s| && s[1] != 0 && TokenLength(s) == |token| <= 8
    requires s[HEADER..n] == Body(token, options, payload)
    ensures HEADER + |token| <= n && s[HEADER..HEADER + |token|] == token
    ensures HEADER + |payload| <= n && s[n - |payload|..n] == payload
    ensures Contents(Options(s, HEADER + |token|, n - HEADER - |token|, 0)) == options <==> Good(options, 0)
    ensures Good(options, 0) ==> Accepts(s, n)
    ensures Good(options, 0) ==>
              Walk(s, HEADER + |token|, n - HEADER - |token|)
                == if payload == [] then NoPayload else Payload(n - |payload|)
  {
    hide EncodeOptions, Ordered, Good, Options, Walk, Contents, Body, Tail;
    var at := HEADER + |token|;
    BodyParts(s, n, token, options, payload);
    OptionsEncoded(s, at, n - at, options, 0, payload);
    if Good(options, 0) {
      WalkEncoded(s, at, n - at, options, 0, payload);
    }
  }

  /** A message that ends with its payload marker is refused. */
  lemma MarkerAlone(s: seq<Byte>, n: nat, token: seq<Byte>, options: seq<Opt>)
    requires Ordered(options, 0) && Good(options, 0) && HEADER <= n <= |s| && TokenLength(s) == |token| <= 8
    requires s[HEADER..n] == token + EncodeOptions(options, 0) + [PAYLOAD_START]
    ensures !Accepts(s, n)
  {
    hide EncodeOptions, Ordered, Good, Walk;
    var E, at := EncodeOptions(options, 0), HEADER + |token|;
    ThreeParts(token, E, [PAYLOAD_START]);
    SubSlice(s, HEADER, n, |token|, n - HEADER);
    WalkMarker(s, at, n - at, options, 0);
  }

  lemma BodyParts(s: seq<Byte>, n: nat, token: seq<Byte>, options: seq<Opt>, payload: seq<Byte>)
    requires Ordered(options, 0) && HEADER <= n <= |s| && s[HEADER..n] == Body(token, options, payload)
    ensures HEADER + |token| <= n && s[HEADER..HEADER + |token|] == token
    ensures s[HEADER + |token|..n] == EncodeOptions(options, 0) + Tail(payload)
    ensures HEADER + |payload| <= n && s[n - |payload|..n] == payload
  {
    hide EncodeOptions, Ordered, Tail;
    var E, T, B := EncodeOptions(options, 0), Tail(payload), Body(token, options, payload);
    ThreeParts(token, E, T);
    LastPart(token + E, payload);
    SubSlice(s, HEADER, n, 0, |token|);
    SubSlice(s, HEADER, n, |token|, n - HEADER);
    SubSlice(s, HEADER, n, n - HEADER - |payload|, n - HEADER);
  }

  lemma ThreeParts(a: seq<Byte>, b: seq<Byte>, c: seq<Byte>)
    ensures (a + b + c)[0..|a|] == a && (a + b + c)[|a|..|a + b + c|] == b + c
  {
  }

  lemma LastPart(a: seq<Byte>, payload: seq<Byte>)
    ensures var B := a + Tail(payload);
            |payload| <= |B| && B[|B| - |payload|..|B|] == payload
  {
    if payload != [] {
      var b := a + [PAYLOAD_START];
      assert a + Tail(payload) == b + payload;
      assert (b + payload)[|b|..] == payload;
    }
  }
}
