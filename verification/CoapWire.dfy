/** What a message means: the format of RFC 7252, section 3, as a grammar. The parser accepts exactly its messages,
    and the payload and the options that are found are those of the grammar. */
module CoapWire {
  import opened CoapOption
  import opened CoapMessage
  import opened CoapPdu
  import opened CoapIterator

  /** An option as it is sent, with the delta and the value that its bytes stand for; `d` and `l` are the numbers of
      bytes that the delta and the length take behind the first one. */
  datatype WireOption = WireOption(bytes: seq<Byte>, delta: nat, value: seq<Byte>, d: nat, l: nat)

  /** In the format of the standard, with a delta that the parser does not refuse. */
  predicate Readable(o: WireOption) {
    OnWire(o.bytes, o.delta, o.value, o.d, o.l) && o.delta < 269 + 0xFF00
  }

  function Bytes(os: seq<WireOption>): seq<Byte> {
    if os == [] then [] else os[0].bytes + Bytes(os[1..])
  }

  /** The options meant: every number is the sum of the deltas, in 16 bits. */
  function Meant(os: seq<WireOption>, number: nat): seq<Opt> {
    if os == [] then []
    else
      var n := (number + os[0].delta) % 0x10000;
      [Opt(n, os[0].value)] + Meant(os[1..], n)
  }

  /** The first `n` bytes are a message: behind the header come a token of at most 8 bytes, options, and a payload
      with its marker, or nothing; a message with code 0 is the bare header. */
  ghost predicate IsMessage(s: seq<Byte>, n: nat, token: seq<Byte>, os: seq<WireOption>, payload: seq<Byte>)
    requires n <= |s| && 2 <= |s|
  {
    && HEADER <= n && |token| == TokenLength(s) <= 8 && (forall o :: o in os ==> Readable(o))
    && s[HEADER..n] == token + Bytes(os) + Tail(payload)
    && (s[1] == 0 ==> n == HEADER)
  }

  // ---- reading what is in the grammar ----

  lemma FirstRead(s: seq<Byte>, at: nat, length: nat, os: seq<WireOption>, tail: seq<Byte>)
    requires at + length <= |s| && os != [] && Readable(os[0]) && s[at..at + length] == Bytes(os) + tail
    ensures var o := os[0];
            && 1 <= |o.bytes| <= length && s[at] < 0xF0
            && ParseOption(s, at, length)
                 == Parsed(o.delta % 0x10000, |o.value|, at + |o.bytes| - |o.value|, |o.bytes|)
            && s[at + |o.bytes| - |o.value|..at + |o.bytes|] == o.value
            && s[at + |o.bytes|..at + length] == Bytes(os[1..]) + tail
  {
    hide ParseOption, OnWire, Bytes;
    var o := os[0];
    BytesFirst(os);
    ThreeParts(o.bytes, Bytes(os[1..]), tail);
    SizeOnWire(o);
    assert |o.bytes + Bytes(os[1..]) + tail| == length;
    SubSlice(s, at, at + length, 0, |o.bytes|);
    SubSlice(s, at, at + length, |o.bytes|, length);
    ReadOffWire(s, at, length, o.delta, o.value, o.d, o.l);
  }

  lemma BytesFirst(os: seq<WireOption>)
    requires os != []
    ensures Bytes(os) == os[0].bytes + Bytes(os[1..])
  {
  }

  lemma SizeOnWire(o: WireOption)
    requires Readable(o)
    ensures |o.bytes| == 1 + o.d + o.l + |o.value|
  {
  }

  /** The parser finds the payload, and the iterator the options that are meant. */
  lemma {:induction false} BodyRead(s: seq<Byte>, at: nat, length: nat, os: seq<WireOption>, payload: seq<Byte>,
                                    number: nat)
    requires at + length <= |s| && (forall o :: o in os ==> Readable(o))
    requires s[at..at + length] == Bytes(os) + Tail(payload)
    ensures Walk(s, at, length) == if payload == [] then NoPayload else Payload(at + length - |payload|)
    ensures Contents(Options(s, at, length, number)) == Meant(os, number)
    decreases |os|
  {
    hide ParseOption, Readable, Walk, Options, Contents, Tail;
    if os == [] {
      assert Bytes(os) + Tail(payload) == Tail(payload);
      WalkTail(s, at, length, payload);
      OptionsTail(s, at, length, number, payload);
      ContentsEmpty();
    } else {
      var o := os[0];
      FirstRead(s, at, length, os, Tail(payload));
      var e, n := |o.bytes|, (number + o.delta) % 0x10000;
      WalkStep(s, at, length);
      OptionsStep(s, at, length, number);
      BodyRead(s, at + e, length - e, os[1..], payload, n);
      SumsAgree(number, o.delta);
      ContentsCons(View(n, at, o.value), Options(s, at + e, length - e, n));
    }
  }

  lemma SumsAgree(number: nat, delta: nat)
    ensures (number + delta % 0x10000) % 0x10000 == (number + delta) % 0x10000
  {
    var q := delta / 0x10000;
    assert delta == 0x10000 * q + delta % 0x10000;
    assert number + delta == 0x10000 * q + (number + delta % 0x10000);
  }

  /** A message of the grammar is accepted, and its token, options and payload are found. */
  lemma MessageRead(s: seq<Byte>, n: nat, token: seq<Byte>, os: seq<WireOption>, payload: seq<Byte>)
    requires n <= |s| && 2 <= |s| && IsMessage(s, n, token, os, payload)
    ensures Accepts(s, n) && HEADER + TokenLength(s) <= n && token == s[HEADER..HEADER + TokenLength(s)]
    ensures Contents(OptionsOf(s, n)) == Meant(os, 0) && PayloadOf(s, n) == payload
  {
    hide Readable, Walk, Options, Contents, Bytes, Meant, Tail;
    var at := HEADER + |token|;
    ThreeParts(token, Bytes(os), Tail(payload));
    assert |token + Bytes(os) + Tail(payload)| == n - HEADER;
    SubSlice(s, HEADER, n, 0, |token|);
    SubSlice(s, HEADER, n, |token|, n - HEADER);
    BodyRead(s, at, n - at, os, payload, 0);
    LastPart(token + Bytes(os), payload);
    SubSlice(s, HEADER, n, n - HEADER - |payload|, n - HEADER);
    if n == at {
      OptionsEnd(s, at, 0, 0);
    }
    if s[1] == 0 {
      assert |token| == 0;
    }
  }

  // ---- what is accepted is in the grammar ----

  /** The options that the parser walks over. */
  ghost function Split(s: seq<Byte>, at: nat, length: nat): seq<WireOption>
    requires at + length <= |s|
    decreases length
  {
    if length == 0 || s[at] == PAYLOAD_START || ParseOption(s, at, length).Malformed? then []
    else
      var p := ParseOption(s, at, length);
      ParsedOnWire(s, at, length);
      ParsedSize(s, at, length);
      [OptionAt(s, at, p)] + Split(s, at + p.size, length - p.size)
  }

  ghost function OptionAt(s: seq<Byte>, at: nat, p: Parsed): WireOption
    requires at < |s| && at + 1 + ExtCount(s[at] / 16) <= |s|
    requires p.Parsed? && at + p.size <= |s| && p.value + p.length <= |s|
  {
    WireOption(s[at..at + p.size], Number(s, at + 1, s[at] / 16), s[p.value..p.value + p.length],
               ExtCount(s[at] / 16), ExtCount(s[at] % 16))
  }

  lemma SplitFirst(s: seq<Byte>, at: nat, length: nat)
    requires at + length <= |s| && 0 < length && s[at] != PAYLOAD_START && ParseOption(s, at, length).Parsed?
    ensures var p := ParseOption(s, at, length);
            && 1 <= p.size <= length && |Split(s, at, length)| > 0
            && Split(s, at, length)[1..] == Split(s, at + p.size, length - p.size)
            && Readable(Split(s, at, length)[0]) && Split(s, at, length)[0].bytes == s[at..at + p.size]
  {
    hide ParseOption, OnWire, Number;
    ParsedOnWire(s, at, length);
    ParsedSize(s, at, length);
  }

  lemma SplitEnd(s: seq<Byte>, at: nat, length: nat)
    requires at + length <= |s| && (length == 0 || s[at] == PAYLOAD_START) && Walk(s, at, length) != Broken
    ensures Split(s, at, length) == []
    ensures s[at..at + length] == [] + Tail(PayloadBytes(s, at + length, Walk(s, at, length)))
  {
    hide ParseOption;
    if 0 < length {
      assert s[at..at + length] == [s[at]] + s[at + 1..at + length];
    }
  }

  lemma {:induction false} SplitIs(s: seq<Byte>, at: nat, length: nat)
    requires at + length <= |s| && Walk(s, at, length) != Broken
    ensures forall o :: o in Split(s, at, length) ==> Readable(o)
    ensures s[at..at + length]
              == Bytes(Split(s, at, length)) + Tail(PayloadBytes(s, at + length, Walk(s, at, length)))
    decreases length
  {
    hide ParseOption, Readable, Walk, Split, Tail, PayloadBytes;
    if length == 0 || s[at] == PAYLOAD_START {
      SplitEnd(s, at, length);
    } else {
      WalkEnds(s, at, length);
      var p, os := ParseOption(s, at, length), Split(s, at, length);
      SplitFirst(s, at, length);
      WalkStep(s, at, length);
      SplitIs(s, at + p.size, length - p.size);
      assert s[at..at + length] == s[at..at + p.size] + s[at + p.size..at + length];
      var tail := Tail(PayloadBytes(s, at + length, Walk(s, at, length)));
      assert os[0].bytes + Bytes(os[1..]) + tail == os[0].bytes + (Bytes(os[1..]) + tail);
      assert os == [os[0]] + os[1..];
    }
  }

  /** The parser accepts exactly the messages of the grammar. */
  lemma AcceptsMessages(s: seq<Byte>, n: nat)
    requires n <= |s| && 2 <= |s|
    ensures Accepts(s, n) <==> exists token, os, payload :: IsMessage(s, n, token, os, payload)
  {
    hide Walk, Readable, Bytes, Split, Tail, Accepts, IsMessage;
    if Accepts(s, n) {
      AcceptedIsMessage(s, n);
    }
    forall token, os, payload | IsMessage(s, n, token, os, payload)
      ensures Accepts(s, n)
    {
      MessageRead(s, n, token, os, payload);
    }
  }

  lemma AcceptedIsMessage(s: seq<Byte>, n: nat)
    requires n <= |s| && 2 <= |s| && Accepts(s, n)
    ensures var at := HEADER + TokenLength(s);
            at <= n && IsMessage(s, n, s[HEADER..at], Split(s, at, n - at), PayloadOf(s, n))
  {
    hide Walk, Readable, Bytes, Split, Tail, PayloadBytes;
    var at := HEADER + TokenLength(s);
    SplitIs(s, at, n - at);
    assert s[HEADER..n] == s[HEADER..at] + s[at..n];
    assert s[HEADER..at] + (Bytes(Split(s, at, n - at)) + Tail(PayloadOf(s, n)))
        == s[HEADER..at] + Bytes(Split(s, at, n - at)) + Tail(PayloadOf(s, n));
  }
}
