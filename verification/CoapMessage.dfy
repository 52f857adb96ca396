/** The body of a CoAP message behind the header: token, options, payload. What the encoder writes, how
    the parser walks over it, and that walking and iterating give back what was written. */
module CoapMessage {
  import opened CoapOption

  datatype Opt = Opt(number: nat, value: seq<Byte>)

  /** Options in the order in which `coap_add_option` accepts them. */
  ghost predicate Ordered(opts: seq<Opt>, prev: nat) {
    opts == [] || (prev <= opts[0].number < 0x10000 && Ordered(opts[1..], opts[0].number))
  }

  ghost function Last(opts: seq<Opt>, prev: nat): nat {
    if opts == [] then prev else opts[|opts| - 1].number
  }

  ghost function EncodeOptions(opts: seq<Opt>, prev: nat): seq<Byte>
    requires Ordered(opts, prev)
  {
    if opts == [] then [] else Encoded(opts[0].number - prev, opts[0].value) + EncodeOptions(opts[1..], opts[0].number)
  }

  ghost function Tail(payload: seq<Byte>): seq<Byte> {
    if payload == [] then [] else [PAYLOAD_START] + payload
  }

  /** No delta is 269, no length is 269 or too long. */
  ghost predicate Good(opts: seq<Opt>, prev: nat)
    requires Ordered(opts, prev)
  {
    opts == [] || (opts[0].number - prev != 269 && Encodable(|opts[0].value|) && Good(opts[1..], opts[0].number))
  }

  // ---- appending an option ----

  lemma {:induction false} OrderedSnoc(opts: seq<Opt>, prev: nat, o: Opt)
    requires Ordered(opts, prev) && Last(opts, prev) <= o.number < 0x10000
    ensures Ordered(opts + [o], prev)
    ensures EncodeOptions(opts + [o], prev) == EncodeOptions(opts, prev) + Encoded(o.number - Last(opts, prev), o.value)
    ensures Last(opts, prev) >= prev
  {
    hide Encoded;
    if opts == [] {
      assert opts + [o] == [o] && [o][1..] == [];
    } else {
      assert (opts + [o])[1..] == opts[1..] + [o];
      OrderedSnoc(opts[1..], opts[0].number, o);
    }
  }

  // ---- the parser's walk and the iterator's view ----

  datatype WalkEnd = Broken | NoPayload | Payload(at: nat)

  /** The loop of `coap_pdu_parse` with the test that follows it. */
  function Walk(s: seq<Byte>, at: nat, length: nat): WalkEnd
    requires at + length <= |s|
    decreases length
  {
    if length == 0 then NoPayload
    else if s[at] == PAYLOAD_START then (if length == 1 then Broken else Payload(at + 1))
    else
      var p := ParseOption(s, at, length);
      ParsedSize(s, at, length);
      if p.Malformed? then Broken else Walk(s, at + p.size, length - p.size)
  }

  datatype View = View(number: nat, at: nat, value: seq<Byte>)

  /** The options from `at` on, up to the payload, the end, or the first malformed one. */
  function Options(s: seq<Byte>, at: nat, length: nat, number: nat): seq<View>
    requires at + length <= |s|
    decreases length
  {
    if length == 0 || s[at] == PAYLOAD_START then []
    else
      var p := ParseOption(s, at, length);
      ParsedSize(s, at, length);
      if p.Malformed? then []
      else
        var n := (number + p.delta) % 0x10000;
        [View(n, at, s[p.value..p.value + p.length])] + Options(s, at + p.size, length - p.size, n)
  }

  function Content(v: View): Opt {
    Opt(v.number, v.value)
  }

  function Contents(views: seq<View>): seq<Opt> {
    seq(|views|, i requires 0 <= i < |views| => Content(views[i]))
  }

  lemma ContentsCons(v: View, views: seq<View>)
    ensures Contents([v] + views) == [Content(v)] + Contents(views)
  {
  }

  // ---- round trip ----

  lemma FirstByte(delta: nat, value: seq<Byte>)
    ensures |Encoded(delta, value)| >= 1 && Encoded(delta, value)[0] < PAYLOAD_START
  {
  }

  /** One encoded option at the head of the body. */
  lemma HeadOption(s: seq<Byte>, at: nat, length: nat, prev: nat, opts: seq<Opt>, tail: seq<Byte>)
    requires Ordered(opts, prev) && opts != [] && at + length <= |s|
    requires s[at..at + length] == EncodeOptions(opts, prev) + tail
    ensures var e := |Encoded(opts[0].number - prev, opts[0].value)|;
            && 1 <= e <= length && s[at] != PAYLOAD_START
            && s[at..at + e] == Encoded(opts[0].number - prev, opts[0].value)
            && s[at + e..at + length] == EncodeOptions(opts[1..], opts[0].number) + tail
  {
    hide Encoded;
    var E := Encoded(opts[0].number - prev, opts[0].value);
    var rest := EncodeOptions(opts[1..], opts[0].number) + tail;
    var e := |E|;
    FirstByte(opts[0].number - prev, opts[0].value);
    assert EncodeOptions(opts, prev) + tail == E + rest;
    SubSlice(s, at, at + length, 0, e);
    SubSlice(s, at, at + length, e, length);
    assert s[at] == s[at..at + length][0];
  }

  lemma WalkStep(s: seq<Byte>, at: nat, length: nat)
    requires at + length <= |s| && 0 < length && s[at] != PAYLOAD_START && ParseOption(s, at, length).Parsed?
    ensures var p := ParseOption(s, at, length);
            1 <= p.size <= length && Walk(s, at, length) == Walk(s, at + p.size, length - p.size)
  {
    hide ParseOption;
    ParsedSize(s, at, length);
  }

  lemma WalkTail(s: seq<Byte>, at: nat, length: nat, payload: seq<Byte>)
    requires at + length <= |s| && s[at..at + length] == Tail(payload)
    ensures Walk(s, at, length) == if payload == [] then NoPayload else Payload(at + length - |payload|)
  {
    hide ParseOption;
    if payload != [] {
      assert s[at] == s[at..at + length][0];
    }
  }

  /** The parser finds the payload exactly where it was put. */
  lemma {:induction false} WalkEncoded(s: seq<Byte>, at: nat, length: nat, opts: seq<Opt>, prev: nat,
                                       payload: seq<Byte>)
    requires Ordered(opts, prev) && Good(opts, prev)
    requires at + length <= |s| && s[at..at + length] == EncodeOptions(opts, prev) + Tail(payload)
    ensures Walk(s, at, length) == if payload == [] then NoPayload else Payload(at + length - |payload|)
    decreases |opts|
  {
    hide Encoded, ParseOption, Walk;
    if opts == [] {
      assert [] + Tail(payload) == Tail(payload);
      WalkTail(s, at, length, payload);
    } else {
      var d, v := opts[0].number - prev, opts[0].value;
      HeadOption(s, at, length, prev, opts, Tail(payload));
      DecodeEncode(s, at, length, d, v);
      WalkStep(s, at, length);
      var e := |Encoded(d, v)|;
      WalkEncoded(s, at + e, length - e, opts[1..], opts[0].number, payload);
    }
  }

  /** A payload marker with nothing behind it is an error. */
  lemma {:induction false} WalkMarker(s: seq<Byte>, at: nat, length: nat, opts: seq<Opt>, prev: nat)
    requires Ordered(opts, prev) && Good(opts, prev)
    requires at + length <= |s| && s[at..at + length] == EncodeOptions(opts, prev) + [PAYLOAD_START]
    ensures Walk(s, at, length) == Broken
    decreases |opts|
  {
    hide Encoded, ParseOption;
    if opts == [] {
      assert [] + [PAYLOAD_START] == [PAYLOAD_START];
      assert s[at] == s[at..at + length][0];
    } else {
      var d, v := opts[0].number - prev, opts[0].value;
      HeadOption(s, at, length, prev, opts, [PAYLOAD_START]);
      DecodeEncode(s, at, length, d, v);
      WalkStep(s, at, length);
      var e := |Encoded(d, v)|;
      WalkMarker(s, at + e, length - e, opts[1..], opts[0].number);
    }
  }

  lemma OptionsStep(s: seq<Byte>, at: nat, length: nat, number: nat)
    requires at + length <= |s| && 0 < length && s[at] != PAYLOAD_START
    ensures var p := ParseOption(s, at, length);
            if p.Malformed? then Options(s, at, length, number) == []
            else 1 <= p.size <= length && p.value + p.length <= |s| && p.delta < 0x10000
                 && var n := (number + p.delta) % 0x10000;
                    Options(s, at, length, number)
                      == [View(n, at, s[p.value..p.value + p.length])] + Options(s, at + p.size, length - p.size, n)
  {
    hide ParseOption;
    ParsedSize(s, at, length);
  }

  lemma OptionsTail(s: seq<Byte>, at: nat, length: nat, number: nat, payload: seq<Byte>)
    requires at + length <= |s| && s[at..at + length] == Tail(payload)
    ensures Options(s, at, length, number) == []
  {
    hide ParseOption;
    if payload != [] {
      assert s[at] == s[at..at + length][0];
    }
  }

  lemma SameList(o: Opt, rest: seq<Opt>, opts: seq<Opt>)
    requires opts != []
    ensures [o] + rest == opts <==> o == opts[0] && rest == opts[1..]
  {
    assert opts == [opts[0]] + opts[1..];
    assert ([o] + rest)[0] == o && ([o] + rest)[1..] == rest;
  }

  /** Iterating gives back the list of numbers and values exactly when every option of the list is one
      the encoder gets right. */
  lemma {:induction false} OptionsEncoded(s: seq<Byte>, at: nat, length: nat, opts: seq<Opt>, prev: nat,
                                          payload: seq<Byte>)
    requires Ordered(opts, prev) && prev < 0x10000
    requires at + length <= |s| && s[at..at + length] == EncodeOptions(opts, prev) + Tail(payload)
    ensures Contents(Options(s, at, length, prev)) == opts <==> Good(opts, prev)
    decreases |opts|
  {
    hide Encoded, ParseOption, Contents, Options, Encodable, Tail, EncodeOptions;
    ContentsEmpty();
    if opts == [] {
      NothingLeft(prev, payload);
      OptionsTail(s, at, length, prev, payload);
    } else {
      var d, v := opts[0].number - prev, opts[0].value;
      HeadOption(s, at, length, prev, opts, Tail(payload));
      DecodeEncode(s, at, length, d, v);
      OptionsStep(s, at, length, prev);
      var p := ParseOption(s, at, length);
      if p.Parsed? {
        var n := (prev + p.delta) % 0x10000;
        var view := View(n, at, s[p.value..p.value + p.length]);
        var rest := Options(s, at + p.size, length - p.size, n);
        ContentsCons(view, rest);
        SameList(Content(view), Contents(rest), opts);
        SameNumber(prev, p.delta, d);
        if d != 269 && Encodable(|v|) {
          OptionsEncoded(s, at + p.size, length - p.size, opts[1..], opts[0].number, payload);
        }
      }
    }
  }

  lemma NothingLeft(prev: nat, payload: seq<Byte>)
    ensures Ordered([], prev) && EncodeOptions([], prev) + Tail(payload) == Tail(payload)
  {
  }

  lemma ContentsEmpty()
    ensures Contents([]) == []
  {
  }

  lemma SameNumber(prev: nat, a: nat, b: nat)
    requires a < 0x10000 && prev + b < 0x10000
    ensures (prev + a) % 0x10000 == prev + b <==> a == b
  {
  }
}
