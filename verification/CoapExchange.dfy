/** A message from one end to the other: built with the `coap_add_*` functions, parsed, and read with the
    option iterator and the field accessors. */
module CoapExchange {
  import opened CoapOption
  import opened CoapMessage
  import opened CoapPdu
  import opened CoapIterator
  import opened CoapWire

  /** The loop that option.h recommends for reading the options of a message. */
  method ReadOptions(pdu: Pdu) returns (opts: seq<Opt>)
    requires pdu.hdr.Length == pdu.maxSize + 1 && 0 < pdu.length <= pdu.maxSize
    requires pdu.maxSize <= MAX_PDU_SIZE
    ensures opts == Contents(OptionsOf(pdu.hdr[..], pdu.length))
  {
    hide Options, Delivered, ParseOption, Contents;
    opts := [];
    ghost var s := pdu.hdr[..];
    ghost var views, k := OptionsOf(s, pdu.length), 0;
    var oi := new OptIterator(pdu, All);
    assert oi.Remaining(s) == views by { DeliveredAll(views); DeliveredAll([]); }
    ContentsEmpty();
    while true
      invariant fresh(oi) && pdu.hdr[..] == s && oi.Within(s) && (!oi.bad ==> 0 < oi.nextOption)
      invariant 0 <= k <= |views| && oi.Remaining(s) == views[k..]
      invariant opts == Contents(views[..k])
      decreases |views| - k
    {
      var current := oi.Next(pdu.hdr);
      if current == 0 {
        assert views[..k] == views;
        break;
      }
      ghost var v: View :| v.number == oi.typ && v.at == current && views[k..] == [v] + oi.Remaining(s);
      OneFurther(views, k, v, oi.Remaining(s));
      OptionsAreParsed(s, pdu.length, k);
      var o := ReadOne(pdu, current, oi.typ);
      assert o == Content(v);
      opts := opts + [o];
      ContentsSnoc(views[..k], v);
      k := k + 1;
    }
  }

  /** Number and value of the option at `current`. */
  method ReadOne(pdu: Pdu, current: nat, number: nat) returns (o: Opt)
    requires pdu.hdr.Length == pdu.maxSize + 1 && 0 < pdu.length <= pdu.maxSize <= MAX_PDU_SIZE && current < pdu.length
    requires ParseOption(pdu.hdr[..], current, pdu.length - current).Parsed?
    ensures var s := pdu.hdr[..];
            var p := ParseOption(s, current, pdu.length - current);
            p.value + p.length <= |s| && o == Opt(number, s[p.value..p.value + p.length])
  {
    hide ParseOption;
    ghost var s := pdu.hdr[..];
    ghost var p := ParseOption(s, current, pdu.length - current);
    ParsedSize(s, current, pdu.length - current);
    ParsedLength(s, current, pdu.length - current);
    var len := OptLength(pdu.hdr, current);
    var value := OptValue(pdu.hdr, current);
    assert pdu.hdr[..] == s;
    assert value == p.value && len == p.length;
    o := Opt(number, pdu.hdr[value..value + len]);
  }

  lemma ContentsSnoc(views: seq<View>, v: View)
    ensures Contents(views + [v]) == Contents(views) + [Content(v)]
  {
  }

  /** Every option in view has been parsed at its position. */
  lemma OptionsAreParsed(s: seq<Byte>, n: nat, k: nat)
    requires 0 < |s| && n <= |s| && k < |OptionsOf(s, n)|
    ensures var v := OptionsOf(s, n)[k];
            v.at < n && var p := ParseOption(s, v.at, n - v.at);
            p.Parsed? && v.at < p.value && p.value + p.length <= n && v.value == s[p.value..p.value + p.length]
  {
    hide Options, ParseOption;
    var at := HEADER + TokenLength(s);
    if at < n {
      ParsedAt(s, at, n - at, 0, k);
      ParsedSize(s, OptionsOf(s, n)[k].at, n - OptionsOf(s, n)[k].at);
    }
  }

  lemma {:induction false} ParsedAt(s: seq<Byte>, at: nat, length: nat, number: nat, k: nat)
    requires at + length <= |s| && k < |Options(s, at, length, number)|
    ensures var v := Options(s, at, length, number)[k];
            v.at < at + length && var p := ParseOption(s, v.at, at + length - v.at);
            p.Parsed? && p.value + p.length <= at + length && v.value == s[p.value..p.value + p.length]
    decreases length
  {
    hide ParseOption, Options;
    OptionsEnd(s, at, length, number);
    ParsedSize(s, at, length);
    StopsAtMarker(s, at, length, number);
    if k > 0 {
      var p := ParseOption(s, at, length);
      ParsedAt(s, at + p.size, length - p.size, (number + p.delta) % 0x10000, k - 1);
    }
  }

  /** Five bytes of headroom for each option, as the header writer needs at most. */
  ghost function Room(options: seq<Opt>): nat {
    if options == [] then 0 else |options[0].value| + 5 + Room(options[1..])
  }

  lemma HeadroomSuffices(delta: nat, val: seq<Byte>, maxlen: nat)
    requires |val| + 5 <= maxlen
    ensures HeaderSize(delta, |val|) <= maxlen && 1 <= |Encoded(delta, val)| <= |val| + 5 <= maxlen
  {
  }

  lemma NextToAdd(options: seq<Opt>, k: nat, prev: nat)
    requires k < |options| && Ordered(options[k..], prev)
    ensures var o := options[k];
            && prev <= o.number < 0x10000 && Ordered(options[k + 1..], o.number)
            && Room(options[k..]) == |o.value| + 5 + Room(options[k + 1..])
            && options[..k + 1] == options[..k] + [o]
  {
    assert options[k..][0] == options[k] && options[k..][1..] == options[k + 1..];
  }

  /** Building a message; it fails when the options leave too little headroom or the parts do not fit. */
  method Build(pdu: Pdu, token: seq<Byte>, options: seq<Opt>, payload: seq<Byte>) returns (ok: bool)
    requires pdu.Valid() && Ordered(options, 0)
    modifies pdu, pdu.hdr
    ensures pdu.Valid() && HeaderOf(pdu.hdr[..]) == old(HeaderOf(pdu.hdr[..]))
    ensures ok ==> pdu.token == token && pdu.options == options && pdu.payload == payload
    ensures |token| <= 8 && HEADER + |token| + Room(options) + 1 + |payload| <= pdu.maxSize ==> ok
  {
    hide Encoded, HeaderAccepted, HeaderSize, EncodeOptions, Body, Ordered, Room;
    ok := pdu.AddToken(token);
    if !ok {
      return;
    }
    var k := 0;
    assert options[..0] == [] && options[0..] == options;
    while k < |options|
      invariant 0 <= k <= |options| && pdu.Valid() && HeaderOf(pdu.hdr[..]) == old(HeaderOf(pdu.hdr[..]))
      invariant pdu.token == token && pdu.options == options[..k] && pdu.payload == []
      invariant Ordered(options[k..], pdu.maxDelta)
      invariant HEADER + |token| + Room(options) + 1 + |payload| <= pdu.maxSize ==>
                  pdu.length + Room(options[k..]) + 1 + |payload| <= pdu.maxSize
    {
      var o := options[k];
      NextToAdd(options, k, pdu.maxDelta);
      if pdu.maxSize - pdu.length < |o.value| + 5 {
        return false;
      }
      HeadroomSuffices(o.number - pdu.maxDelta, o.value, pdu.maxSize - pdu.length);
      ghost var before := pdu.hdr[..];
      var n := pdu.AddOption(o.number, o.value);
      SameHeader(before, pdu.hdr[..]);
      k := k + 1;
    }
    assert options[..k] == options && options[k..] == [];
    ghost var before := pdu.hdr[..];
    ok := pdu.AddData(payload);
    SameHeader(before, pdu.hdr[..]);
  }

  /** `coap_read` without the network, and reading what has been received: messages of another version and
      malformed ones are dropped, and header, token, options and payload are those that lie in the bytes. */
  method Receive(src: array<Byte>, n: nat)
    returns (ok: bool, header: Header, token: seq<Byte>, options: seq<Opt>, payload: seq<Byte>)
    requires n <= src.Length && n <= MAX_PDU_SIZE && HEADER <= src.Length
    ensures ok <==> HeaderOf(src[..]).version == VERSION && Accepts(src[..], n)
    ensures ok ==> var s := src[..];
                   var at := HEADER + TokenLength(s);
                   && header == HeaderOf(s) && at <= n && token == s[HEADER..at] && options == Contents(OptionsOf(s, n))
                   && payload == PayloadOf(s, n)
    ensures ok ==> exists os :: IsMessage(src[..], n, token, os, payload) && options == Meant(os, 0)
  {
    hide OptionsOf, Contents, Walk, Accepts, ParseOption, PayloadOf, IsMessage;
    ok, header, token, options, payload := false, Header(0, 0, 0, []), [], [], [];
    ghost var s := src[..];
    AcceptsHeader(s, n);
    if n < HEADER || src[0] / 64 != VERSION {
      return;
    }
    var pdu := new Pdu.Init(0, 0, [0, 0], n);
    ok := pdu.Parse(src, n);
    if !ok {
      return;
    }
    ghost var t := pdu.hdr[..];
    assert t[..n] == s[..n];
    assert t[..HEADER] == t[..n][..HEADER] == s[..HEADER];
    SameHeader(t, s);
    header := Header(pdu.hdr[0] / 64, pdu.hdr[0] / 16 % 4, pdu.hdr[1], pdu.hdr[2..HEADER]);
    SameMessage(s, t, n);
    token, options, payload := ReadMessage(pdu);
    PrefixSlices(s, t, n, HEADER, HEADER + TokenLength(s));
    SamePayload(s, t, n);
    Grammatical(s, n, token, payload);
  }

  lemma Grammatical(s: seq<Byte>, n: nat, token: seq<Byte>, payload: seq<Byte>)
    requires n <= |s| && 2 <= |s| && Accepts(s, n) && HEADER + TokenLength(s) <= n
    requires token == s[HEADER..HEADER + TokenLength(s)] && payload == PayloadOf(s, n)
    ensures exists os :: IsMessage(s, n, token, os, payload) && Contents(OptionsOf(s, n)) == Meant(os, 0)
  {
    hide Accepts, IsMessage, Contents, OptionsOf, PayloadOf, Meant, Split;
    var at := HEADER + TokenLength(s);
    AcceptedIsMessage(s, n);
    MessageRead(s, n, token, Split(s, at, n - at), payload);
  }

  lemma AcceptsHeader(s: seq<Byte>, n: nat)
    requires n <= |s| && 2 <= |s|
    ensures Accepts(s, n) ==> HEADER <= n
  {
    hide Walk;
  }

  /** The parts of an accepted message. */
  method ReadMessage(pdu: Pdu) returns (token: seq<Byte>, options: seq<Opt>, payload: seq<Byte>)
    requires pdu.Received() && pdu.maxSize <= MAX_PDU_SIZE
    ensures var s := pdu.hdr[..];
            var at := HEADER + TokenLength(s);
            && at <= pdu.length && token == s[HEADER..at] && options == Contents(OptionsOf(s, pdu.length))
            && payload == PayloadOf(s, pdu.length)
  {
    hide Options, Contents, Walk, ParseOption, PayloadOf;
    options := ReadOptions(pdu);
    token := pdu.hdr[HEADER..HEADER + pdu.hdr[0] % 16];
    var found, at, len := pdu.GetData();
    payload := pdu.hdr[at..at + len];
  }

  lemma SamePayload(s: seq<Byte>, t: seq<Byte>, n: nat)
    requires HEADER <= n <= |s| && n <= |t| && t[..n] == s[..n]
    ensures PayloadOf(s, n) == PayloadOf(t, n)
  {
    hide Walk, OptionsOf;
    SameMessage(s, t, n);
    var at := HEADER + TokenLength(s);
    if at <= n {
      var w := Walk(s, at, n - at);
      if w.Payload? && w.at <= n {
        PrefixSlices(s, t, n, w.at, n);
      }
    }
  }

  lemma PrefixSlices(s: seq<Byte>, t: seq<Byte>, n: nat, i: nat, j: nat)
    requires i <= j <= n <= |s| && n <= |t| && t[..n] == s[..n]
    ensures s[i..j] == t[i..j]
  {
    assert s[i..j] == s[..n][i..j] && t[i..j] == t[..n][i..j];
  }

  /** Equal bytes are the same message. */
  lemma SameMessage(s: seq<Byte>, t: seq<Byte>, n: nat)
    requires HEADER <= n <= |s| && n <= |t| && t[..n] == s[..n]
    ensures t[0] == s[0] && TokenLength(t) == TokenLength(s) && OptionsOf(s, n) == OptionsOf(t, n)
    ensures HEADER + TokenLength(s) <= n ==>
              var at := HEADER + TokenLength(s);
              Walk(s, at, n - at) == Walk(t, at, n - at)
    ensures HEADER + TokenLength(s) <= n ==>
              PayloadWithin(Walk(s, HEADER + TokenLength(s), n - HEADER - TokenLength(s)), 0, n)
  {
    hide Walk, Options, ParseOption;
    assert t[0] == t[..n][0] && s[0] == s[..n][0];
    var at := HEADER + TokenLength(s);
    if at <= n {
      WalkLocal(s, t, at, n - at);
      WalkWithin(s, at, n - at);
      OptionsLocal(s, t, at, n - at, 0);
    }
  }

  lemma {:induction false} OptionsLocal(s: seq<Byte>, s': seq<Byte>, at: nat, length: nat, number: nat)
    requires at + length <= |s| && at + length <= |s'| && s[..at + length] == s'[..at + length]
    ensures Options(s, at, length, number) == Options(s', at, length, number)
    decreases length
  {
    hide ParseOption, Options;
    OptionsEnd(s, at, length, number);
    OptionsEnd(s', at, length, number);
    if length > 0 {
      assert s[at] == s[..at + length][at] == s'[at];
      ParseLocal(s, s', at, length);
      ParsedSize(s, at, length);
      StopsAtMarker(s, at, length, number);
      StopsAtMarker(s', at, length, number);
      var p := ParseOption(s, at, length);
      if p.Parsed? {
        PrefixSlices(s, s', at + length, p.value, p.value + p.length);
        OptionsLocal(s, s', at + p.size, length - p.size, (number + p.delta) % 0x10000);
      }
    }
  }

  /** From one end to the other: with a non-zero code and options whose deltas and lengths are not 269,
      what was put in comes out, and nothing is refused if there was room. `wire` is the message as it is sent. */
  method Exchange(h: Header, token: seq<Byte>, options: seq<Opt>, payload: seq<Byte>, size: nat)
    returns (ok: bool, wire: seq<Byte>, h': Header, token': seq<Byte>, options': seq<Opt>, payload': seq<Byte>)
    requires h.version == VERSION && h.typ < 4 && h.code != 0 && |h.id| == 2 && HEADER <= size <= MAX_PDU_SIZE
    requires Ordered(options, 0) && Good(options, 0)
    ensures ok ==> wire == [0x40 + 16 * h.typ + |token|, h.code, h.id[0], h.id[1]] + Body(token, options, payload)
    ensures ok ==> h' == h && token' == token && options' == options && payload' == payload
    ensures |token| <= 8 && HEADER + |token| + Room(options) + 1 + |payload| <= size ==> ok
  {
    hide Ordered, Good, EncodeOptions, Body, Options, Walk, Contents, Room, Accepts, IsMessage, Meant;
    wire, h', token', options', payload' := [], h, [], [], [];
    var sent := new Pdu.Init(h.typ, h.code, h.id, size);
    ok := Build(sent, token, options, payload);
    if !ok {
      return;
    }
    ghost var s := sent.hdr[..];
    RoundTrip(s, sent.length, token, options, payload);
    OptionsOfIs(s, sent.length);
    FirstFourBytes(s, h, |token|);
    wire := sent.hdr[..sent.length];
    assert wire == s[..HEADER] + s[HEADER..sent.length];
    ok, h', token', options', payload' := Receive(sent.hdr, sent.length);
  }

  lemma OptionsOfIs(s: seq<Byte>, n: nat)
    requires 0 < |s| && HEADER + TokenLength(s) <= n <= |s|
    ensures OptionsOf(s, n) == Options(s, HEADER + TokenLength(s), n - HEADER - TokenLength(s), 0)
  {
  }
}
