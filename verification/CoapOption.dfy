/** CoAP options on the wire (RFC 7252, section 3.1): the encoder, the parser and the field accessors. */
module CoapOption {
  type Byte = x: int | 0 <= x < 256

  const PAYLOAD_START := 0xFF

  // ---- encoding ----

  /** The 4-bit field that announces the value `n`. The middle range should end at 268: for 269 the
      one-byte form is chosen, whose byte cannot hold 256. */
  function Nibble(n: nat): (b: Byte) {
    if n < 13 then n else if n < 270 then 13 else 14
  }

  /** The extension bytes of `n`, truncated to 8 bits each. */
  function Extension(n: nat): (e: seq<Byte>)
    ensures |e| == if n < 13 then 0 else if n < 270 then 1 else 2
  {
    if n < 13 then [] else if n < 270 then [(n - 13) % 256] else [(n - 269) / 256 % 256, (n - 269) % 256]
  }

  function HeaderBytes(delta: nat, length: nat): (h: seq<Byte>)
    ensures |h| == HeaderSize(delta, length)
  {
    [Nibble(delta) * 16 + Nibble(length)] + Extension(delta) + Extension(length)
  }

  function HeaderSize(delta: nat, length: nat): nat {
    1 + |Extension(delta)| + |Extension(length)|
  }

  /** The space tests of `coap_opt_setheader`: the test for the length extension counts the bytes
      already written but not the first byte. */
  predicate HeaderAccepted(delta: nat, length: nat, maxlen: nat) {
    1 + |Extension(delta)| <= maxlen && |Extension(delta)| + |Extension(length)| <= maxlen
  }

  /** The extension bytes of `n` stand at `i`. */
  ghost predicate ExtensionAt(s: seq<Byte>, i: nat, n: nat) {
    && i + |Extension(n)| <= |s|
    && (13 <= n < 270 ==> s[i] == (n - 13) % 256)
    && (270 <= n ==> s[i] == (n - 269) / 256 % 256 && s[i + 1] == (n - 269) % 256)
  }

  ghost predicate HeaderAt(s: seq<Byte>, at: nat, delta: nat, length: nat) {
    && at < |s| && s[at] == Nibble(delta) * 16 + Nibble(length)
    && ExtensionAt(s, at + 1, delta) && ExtensionAt(s, at + 1 + |Extension(delta)|, length)
  }

  lemma HeaderAtIs(s: seq<Byte>, at: nat, delta: nat, length: nat)
    requires HeaderAt(s, at, delta, length)
    ensures s[at..at + HeaderSize(delta, length)] == HeaderBytes(delta, length)
  {
    hide Nibble;
    var d := |Extension(delta)|;
    assert s[at + 1..at + 1 + d] == Extension(delta);
    assert s[at + 1 + d..at + HeaderSize(delta, length)] == Extension(length);
    Pieces(s, at, 1 + d, HeaderSize(delta, length));
  }

  /** The extension bytes of `n`, written from `i` on. */
  method PutExtension(opt: array<Byte>, i: nat, n: nat)
    requires i + |Extension(n)| <= opt.Length
    modifies opt
    ensures ExtensionAt(opt[..], i, n)
    ensures forall k :: 0 <= k < opt.Length && !(i <= k < i + |Extension(n)|) ==> opt[k] == old(opt[k])
  {
    if 13 <= n < 270 {
      opt[i] := (n - 13) % 256;
    } else if n >= 270 {
      opt[i] := (n - 269) / 256 % 256;
      opt[i + 1] := (n - 269) % 256;
    }
  }

  lemma ExtensionStays(s: seq<Byte>, s': seq<Byte>, i: nat, n: nat)
    requires ExtensionAt(s, i, n) && |s'| == |s| && forall k :: i <= k < i + |Extension(n)| ==> s'[k] == s[k]
    ensures ExtensionAt(s', i, n)
  {
  }

  /** `coap_opt_setheader`. The buffer needs one byte more than `maxlen`, see `HeaderOverrun`. */
  method OptSetHeader(opt: array<Byte>, at: nat, maxlen: nat, delta: nat, length: nat) returns (n: nat)
    requires at + maxlen < opt.Length && delta < 0x10000
    modifies opt
    ensures n == if HeaderAccepted(delta, length, maxlen) then HeaderSize(delta, length) else 0
    ensures n != 0 ==> n <= maxlen + 1 && HeaderAt(opt[..], at, delta, length)
    ensures forall k :: 0 <= k < at || at + HeaderSize(delta, length) <= k < opt.Length ==> opt[k] == old(opt[k])
  {
    hide Extension, ExtensionAt;
    ExtensionSize(delta);
    ExtensionSize(length);
    n := 0;
    var skip := 0;
    if maxlen == 0 {
      return;
    }
    if delta < 13 {
      opt[at] := delta * 16;
    } else if delta < 270 {
      if maxlen < 2 {
        return;
      }
      opt[at] := 0xd0;
      skip := 1;
    } else {
      if maxlen < 3 {
        return;
      }
      opt[at] := 0xe0;
      skip := 2;
    }
    PutExtension(opt, at + 1, delta);
    ghost var s := opt[..];
    if length < 13 {
      opt[at] := opt[at] + length;
    } else if length < 270 {
      if maxlen < skip + 1 {
        return;
      }
      opt[at] := opt[at] + 0x0d;
    } else {
      if maxlen < skip + 2 {
        return;
      }
      opt[at] := opt[at] + 0x0e;
    }
    PutExtension(opt, at + 1 + skip, length);
    ExtensionStays(s, opt[..], at + 1, delta);
    n := 1 + skip + (if length < 13 then 0 else if length < 270 then 1 else 2);
  }

  lemma ExtensionSize(n: nat)
    ensures |Extension(n)| == if n < 13 then 0 else if n < 270 then 1 else 2
  {
  }

  lemma Pieces(s: seq<Byte>, at: nat, e: nat, n: nat)
    requires 1 <= e <= n && at + n <= |s|
    ensures s[at..at + n] == [s[at]] + s[at + 1..at + e] + s[at + e..at + n]
  {
  }

  /** The header overruns its space, by one byte, exactly when the length needs an extension and one
      byte too few is left. */
  lemma HeaderOverrun(delta: nat, length: nat, maxlen: nat)
    ensures HeaderAccepted(delta, length, maxlen) && maxlen < HeaderSize(delta, length) <==>
            13 <= length && maxlen == HeaderSize(delta, length) - 1
  {
  }

  /** For instance, a value of 13 bytes in a single byte of space. */
  lemma OverrunExample()
    ensures HeaderAccepted(0, 13, 1) && HeaderSize(0, 13) == 2
  {
  }

  // ---- decoding ----

  datatype Parsed = Malformed | Parsed(delta: nat, length: nat, value: nat, size: nat)

  /** How many extension bytes follow for a 4-bit field. */
  function ExtCount(nibble: nat): nat {
    if nibble < 13 then 0 else if nibble == 13 then 1 else 2
  }

  /** RFC 7252, section 3.1: the number written as a 4-bit field with its extension bytes at `i`. */
  function Number(s: seq<Byte>, i: nat, nibble: nat): nat
    requires i + ExtCount(nibble) <= |s|
  {
    if nibble < 13 then nibble else if nibble == 13 then 13 + s[i] as int else 269 + 256 * s[i] as int + s[i + 1] as int
  }

  /** The option at `at` within the next `length` bytes: both fields must not be 15, header and value must
      fit, and the high byte of a two-byte delta must not be 255. The delta is kept in 16 bits. */
  function ParseOption(s: seq<Byte>, at: nat, length: nat): Parsed
    requires at + length <= |s|
  {
    if length == 0 then Malformed
    else
      var dn, ln := s[at] / 16, s[at] % 16;
      var header := 1 + ExtCount(dn) + ExtCount(ln);
      if dn == 15 || ln == 15 || length < header then Malformed
      else if dn == 14 && s[at + 1] == 255 then Malformed
      else
        var delta := Number(s, at + 1, dn);
        var len := Number(s, at + 1 + ExtCount(dn), ln);
        if length < header + len then Malformed
        else Parsed(delta % 0x10000, len, at + header, header + len)
  }

  lemma ParsedSize(s: seq<Byte>, at: nat, length: nat)
    requires at + length <= |s|
    ensures var p := ParseOption(s, at, length);
            p.Parsed? ==>
              1 <= p.size <= length && p.delta < 0x10000 && p.value + p.length == at + p.size && at < p.value
  {
  }

  /** The switch over the delta of `coap_opt_parse`, from the 4-bit field at `o` with `e` bytes left. */
  method ReadDelta(opt: array<Byte>, o: nat, e: nat, nibble: nat) returns (ok: bool, o': nat, e': nat, delta: nat)
    requires o + e < opt.Length && nibble < 16
    ensures ok <==> nibble < 15 && ExtCount(nibble) <= e && (nibble == 14 ==> opt[o + 1] < 255)
    ensures ok ==> o' == o + ExtCount(nibble) && o' + e' == o + e
                   && o + 1 + ExtCount(nibble) <= opt.Length && delta == Number(opt[..], o + 1, nibble) % 0x10000
  {
    ok, o', e', delta := false, o, e, nibble;
    if nibble == 15 {
      return;
    }
    if nibble == 14 {
      if e' < 1 { return; }
      o', e' := o' + 1, e' - 1;
      delta := (opt[o'] as int * 256 + 269) % 0x10000;
      if delta < 269 {
        return;
      }
    }
    if nibble >= 13 {
      if e' < 1 { return; }
      o', e' := o' + 1, e' - 1;
      delta := (delta + opt[o'] as int) % 0x10000;
    }
    ok := true;
  }

  /** The switch over the length. */
  method ReadLength(opt: array<Byte>, o: nat, e: nat, nibble: nat) returns (ok: bool, o': nat, e': nat, len: nat)
    requires o + e < opt.Length && nibble < 16
    ensures ok <==> nibble < 15 && ExtCount(nibble) <= e
    ensures ok ==> o' == o + ExtCount(nibble) && o' + e' == o + e
                   && o + 1 + ExtCount(nibble) <= opt.Length && len == Number(opt[..], o + 1, nibble)
  {
    ok, o', e', len := false, o, e, nibble;
    if nibble == 15 {
      return;
    }
    if nibble == 14 {
      if e' < 1 { return; }
      o', e' := o' + 1, e' - 1;
      len := opt[o'] as int * 256 + 269;
    }
    if nibble >= 13 {
      if e' < 1 { return; }
      o', e' := o' + 1, e' - 1;
      len := len + opt[o'] as int;
    }
    ok := true;
  }

  /** `coap_opt_parse`: it may look at the byte behind the last one (hence the strict precondition), but
      what it finds there never reaches the result. 0 stands for an error. */
  method OptParse(opt: array<Byte>, at: nat, length: nat) returns (size: nat, delta: nat, len: nat, value: nat)
    requires at + length < opt.Length
    ensures var p := ParseOption(opt[..], at, length);
            if p.Parsed? then size == p.size && delta == p.delta && len == p.length && value == p.value else size == 0
  {
    hide Number;
    size, delta, len, value := 0, 0, 0, 0;
    var o: nat, e: nat := at, length;
    if e < 1 {
      return;
    }
    var dn, ln := opt[o] / 16, opt[o] % 16;
    var ok;
    ok, o, e, delta := ReadDelta(opt, o, e, dn);
    if !ok {
      return;
    }
    ok, o, e, len := ReadLength(opt, o, e, ln);
    if !ok {
      return;
    }
    if e < 1 {
      return;
    }
    o, e := o + 1, e - 1;
    value := o;
    if e < len {
      return;
    }
    size := o + len - at;
  }

  // ---- what is encoded is decoded ----

  /** The values the encoder gets right. */
  predicate Encodable(n: nat) {
    n != 269 && n <= 65804
  }

  lemma NumberOfExtension(n: nat, s: seq<Byte>, i: nat)
    requires i + |Extension(n)| <= |s| && s[i..i + |Extension(n)|] == Extension(n)
    ensures ExtCount(Nibble(n)) == |Extension(n)| && Nibble(n) < 15
    ensures Number(s, i, Nibble(n)) == n <==> Encodable(n)
    ensures n == 269 ==> Number(s, i, Nibble(n)) == 13
    ensures 270 <= n <= 65535 ==> s[i] < 255
  {
    if n >= 13 {
      assert s[i] == s[i..i + |Extension(n)|][0];
    }
    if n >= 270 {
      assert s[i + 1] == s[i..i + |Extension(n)|][1];
    }
  }

  /** The option with this delta and value, as `coap_opt_encode` writes it. */
  function Encoded(delta: nat, value: seq<Byte>): seq<Byte> {
    HeaderBytes(delta, |value|) + value
  }

  /** Parsing an encoded option gives back delta and value exactly when the delta is not 269 and the
      length is not 269 (nor beyond the two-byte range). */
  lemma DecodeEncode(s: seq<Byte>, at: nat, length: nat, delta: nat, value: seq<Byte>)
    requires delta < 0x10000 && at + length <= |s| && |Encoded(delta, value)| <= length
    requires s[at..at + |Encoded(delta, value)|] == Encoded(delta, value)
    ensures var p := ParseOption(s, at, length);
            p.Parsed? && p.delta == delta && p.length == |value| <==> delta != 269 && Encodable(|value|)
    ensures var p := ParseOption(s, at, length);
            delta != 269 && Encodable(|value|) ==>
              p.size == |Encoded(delta, value)| && s[p.value..p.value + p.length] == value
  {
    hide Extension, Nibble, Number;
    var d, l := |Extension(delta)|, |Extension(|value|)|;
    EncodedPieces(s, at, delta, value);
    NumberOfExtension(delta, s, at + 1);
    NumberOfExtension(|value|, s, at + 1 + d);
    NibbleOf(delta, |value|, s[at]);
    ExtensionSize(delta);
    ExtensionSize(|value|);
  }

  lemma NibbleOf(delta: nat, length: nat, b: Byte)
    requires b == Nibble(delta) * 16 + Nibble(length) && Nibble(delta) < 15 && Nibble(length) < 15
    ensures b / 16 == Nibble(delta) && b % 16 == Nibble(length)
  {
  }

  lemma EncodedPieces(s: seq<Byte>, at: nat, delta: nat, value: seq<Byte>)
    requires at + |Encoded(delta, value)| <= |s| && s[at..at + |Encoded(delta, value)|] == Encoded(delta, value)
    ensures var d, l := |Extension(delta)|, |Extension(|value|)|;
            var h := 1 + d + l;
            && s[at] == Nibble(delta) * 16 + Nibble(|value|)
            && s[at + 1..at + 1 + d] == Extension(delta) && s[at + 1 + d..at + h] == Extension(|value|)
            && s[at + h..at + h + |value|] == value && |Encoded(delta, value)| == h + |value|
  {
    hide Extension, Nibble;
    var E := Encoded(delta, value);
    var d, l := |Extension(delta)|, |Extension(|value|)|;
    FourParts(E[..1], Extension(delta), Extension(|value|), value, E);
    SubSlice(s, at, at + |E|, 0, 1);
    SubSlice(s, at, at + |E|, 1, 1 + d);
    SubSlice(s, at, at + |E|, 1 + d, 1 + d + l);
    SubSlice(s, at, at + |E|, 1 + d + l, |E|);
    assert s[at] == s[at..at + 1][0];
  }

  lemma SubSlice<T>(s: seq<T>, a: nat, b: nat, i: nat, j: nat)
    requires a <= b <= |s| && i <= j <= b - a
    ensures s[a..b][i..j] == s[a + i..a + j]
  {
    var t := s[a..b];
    assert forall k :: 0 <= k < j - i ==> t[i..j][k] == t[i + k] == s[a + i + k];
  }

  lemma SliceSame<T>(s: seq<T>, s': seq<T>, i: nat, j: nat)
    requires i <= j <= |s| == |s'| && forall k :: i <= k < j ==> s[k] == s'[k]
    ensures s[i..j] == s'[i..j]
  {
  }

  lemma FourParts<T>(a: seq<T>, b: seq<T>, c: seq<T>, d: seq<T>, s: seq<T>)
    requires s == a + b + c + d
    ensures s[0..|a|] == a && s[|a|..|a| + |b|] == b && s[|a| + |b|..|a| + |b| + |c|] == c
    ensures s[|a| + |b| + |c|..|s|] == d
  {
  }

  // ---- the format of the standard ----

  /** RFC 7252, section 3.1: the number `n` in a 4-bit field and the bytes that follow it. */
  predicate Field(n: nat, nibble: nat, more: seq<Byte>) {
    || (n == nibble <= 12 && more == [])
    || (nibble == 13 && |more| == 1 && n == 13 + more[0] as int)
    || (nibble == 14 && |more| == 2 && n == 269 + 256 * more[0] as int + more[1] as int)
  }

  /** RFC 7252, figure 8: delta and length in four bits each, their extensions, and the value. `d` and `l` are the
      numbers of bytes of the extensions. */
  predicate OnWire(b: seq<Byte>, delta: nat, value: seq<Byte>, d: nat, l: nat) {
    && |b| == 1 + d + l + |value| && b[1 + d + l..] == value
    && Field(delta, b[0] / 16, b[1..1 + d]) && Field(|value|, b[0] % 16, b[1 + d..1 + d + l])
  }

  /** The encoder keeps to the standard except for a delta or a length of 269, and lengths of more than two bytes. */
  lemma EncodedOnWire(delta: nat, value: seq<Byte>)
    ensures (exists d, l :: OnWire(Encoded(delta, value), delta, value, d, l))
            <==> Encodable(delta) && Encodable(|value|)
  {
    hide Extension, Nibble, Encodable, Field, Encoded;
    var b, d, l := Encoded(delta, value), |Extension(delta)|, |Extension(|value|)|;
    assert b[..] == b;
    EncodedPieces(b, 0, delta, value);
    ExtensionField(delta, d);
    ExtensionField(|value|, l);
    NibbleOf(delta, |value|, b[0]);
    if Encodable(delta) && Encodable(|value|) {
      assert OnWire(b, delta, value, d, l);
    }
    forall d', l' | OnWire(b, delta, value, d', l')
      ensures Encodable(delta) && Encodable(|value|)
    {
      FieldLength(delta, Nibble(delta), b[1..1 + d'], Extension(delta));
      FieldLength(|value|, Nibble(|value|), b[1 + d'..1 + d' + l'], Extension(|value|));
    }
  }

  /** The field that the encoder writes is the one of the standard iff the number is encodable. */
  lemma ExtensionField(n: nat, size: nat)
    requires size == |Extension(n)|
    ensures Nibble(n) < 15 && |Extension(n)| == ExtCount(Nibble(n))
    ensures Field(n, Nibble(n), Extension(n)) <==> Encodable(n)
  {
  }

  lemma FieldLength(n: nat, nibble: nat, more: seq<Byte>, e: seq<Byte>)
    requires Field(n, nibble, more) && |e| == ExtCount(nibble)
    ensures |more| == |e|
  {
  }

  /** The parser reads every option as the standard means it, with the delta in 16 bits; only a delta whose high
      byte is 255 is refused. */
  lemma ReadOffWire(s: seq<Byte>, at: nat, length: nat, delta: nat, value: seq<Byte>, d: nat, l: nat)
    requires at + length <= |s| && 1 + d + l + |value| <= length
    requires OnWire(s[at..at + 1 + d + l + |value|], delta, value, d, l)
    ensures ParseOption(s, at, length)
              == if delta < 269 + 0xFF00 then Parsed(delta % 0x10000, |value|, at + 1 + d + l, 1 + d + l + |value|)
                 else Malformed
    ensures s[at] < 0xF0 && s[at + 1 + d + l..at + 1 + d + l + |value|] == value
  {
    hide Field;
    var e := 1 + d + l + |value|;
    var b := s[at..at + e];
    SubSlice(s, at, at + e, 1, 1 + d);
    SubSlice(s, at, at + e, 1 + d, 1 + d + l);
    SubSlice(s, at, at + e, 1 + d + l, e);
    FieldRead(s, at + 1, delta, b[0] / 16, d);
    FieldRead(s, at + 1 + d, |value|, b[0] % 16, l);
  }

  lemma FieldRead(s: seq<Byte>, i: nat, n: nat, nibble: nat, size: nat)
    requires i + size <= |s| && Field(n, nibble, s[i..i + size])
    ensures nibble < 15 && size == ExtCount(nibble) && Number(s, i, nibble) == n
    ensures nibble == 14 ==> (s[i] < 255 <==> n < 269 + 0xFF00)
  {
    if size > 0 {
      assert s[i..i + size][0] == s[i];
    }
    if size > 1 {
      assert s[i..i + size][1] == s[i + 1];
    }
  }

  lemma FieldWritten(s: seq<Byte>, i: nat, nibble: nat)
    requires nibble < 15 && i + ExtCount(nibble) <= |s|
    ensures Field(Number(s, i, nibble), nibble, s[i..i + ExtCount(nibble)])
    ensures nibble == 14 && s[i] < 255 ==> Number(s, i, nibble) < 269 + 0xFF00
    ensures nibble < 14 ==> Number(s, i, nibble) < 269
  {
  }

  /** Whatever the parser accepts is in that format. */
  lemma ParsedOnWire(s: seq<Byte>, at: nat, length: nat)
    requires at + length <= |s| && ParseOption(s, at, length).Parsed?
    ensures var p, dn, ln := ParseOption(s, at, length), s[at] / 16, s[at] % 16;
            && p.size <= length && p.value + p.length <= |s| && dn < 15 && at + 1 + ExtCount(dn) <= |s|
            && var delta := Number(s, at + 1, dn);
               OnWire(s[at..at + p.size], delta, s[p.value..p.value + p.length], ExtCount(dn), ExtCount(ln))
               && delta < 269 + 0xFF00
  {
    hide Field, Number;
    ParsedSize(s, at, length);
    var p, dn, ln := ParseOption(s, at, length), s[at] / 16, s[at] % 16;
    var d, l, b := ExtCount(dn), ExtCount(ln), s[at..at + p.size];
    FieldWritten(s, at + 1, dn);
    FieldWritten(s, at + 1 + d, ln);
    SubSlice(s, at, at + p.size, 1, 1 + d);
    SubSlice(s, at, at + p.size, 1 + d, 1 + d + l);
    SubSlice(s, at, at + p.size, 1 + d + l, p.size);
  }

  /** A delta of 269 is read back as 13. */
  lemma Delta269(rest: seq<Byte>)
    ensures HeaderBytes(269, 0) == [0xd0, 0]
    ensures ParseOption(HeaderBytes(269, 0) + rest, 0, 2 + |rest|) == Parsed(13, 0, 2, 2)
  {
    assert (HeaderBytes(269, 0) + rest)[0] == 0xd0 && (HeaderBytes(269, 0) + rest)[1] == 0;
  }

  /** `coap_opt_encode`. The source asserts that the header has not overrun its space. */
  method OptEncode(opt: array<Byte>, at: nat, maxlen: nat, delta: nat, val: seq<Byte>) returns (n: nat)
    requires at + maxlen < opt.Length && delta < 0x10000
    requires HeaderAccepted(delta, |val|, maxlen) ==> HeaderSize(delta, |val|) <= maxlen
    modifies opt
    ensures n == if |Encoded(delta, val)| <= maxlen then |Encoded(delta, val)| else 0
    ensures n != 0 ==> opt[at..at + n] == Encoded(delta, val)
    ensures opt[..at] == old(opt[..at])
  {
    hide Extension, Nibble, HeaderAt;
    var l := OptSetHeader(opt, at, maxlen, delta, |val|);
    if l == 0 {
      return 0;
    }
    if maxlen - l < |val| {
      return 0;
    }
    ghost var s := opt[..];
    HeaderAtIs(s, at, delta, |val|);
    CopyBytes(opt, at + l, val);
    n := l + |val|;
    SliceSame(s, opt[..], at, at + l);
    assert opt[at..at + n] == opt[..][at..at + l] + opt[at + l..at + n];
  }

  /** `memcpy` from a caller's value. */
  method CopyBytes(dst: array<Byte>, at: nat, val: seq<Byte>)
    requires at + |val| <= dst.Length
    modifies dst
    ensures dst[at..at + |val|] == val
    ensures forall k :: 0 <= k < at || at + |val| <= k < dst.Length ==> dst[k] == old(dst[k])
  {
    for k := 0 to |val|
      invariant dst[at..at + k] == val[..k]
      invariant forall j :: 0 <= j < at || at + k <= j < dst.Length ==> dst[j] == old(dst[j])
    {
      dst[at + k] := val[k];
      assert dst[at..at + k + 1] == dst[at..at + k] + [val[k]];
    }
  }

  // ---- the accessors ----

  /** `coap_opt_delta` (without length checks) */
  method OptDelta(opt: array<Byte>, at: nat) returns (n: nat)
    requires at < opt.Length && at + ExtCount(opt[at] / 16) < opt.Length
    ensures forall length :: at + length <= opt.Length && ParseOption(opt[..], at, length).Parsed? ==>
                               n == ParseOption(opt[..], at, length).delta
  {
    n := opt[at] / 16;
    if n == 15 {
      return 0;
    }
    var o := at + 1;
    if n == 14 {
      n := (opt[o] as int * 256 + 269) % 0x10000;
      o := o + 1;
      n := (n + opt[o] as int) % 0x10000;
    } else if n == 13 {
      n := (n + opt[o] as int) % 0x10000;
    }
  }

  lemma ParsedLength(s: seq<Byte>, at: nat, length: nat)
    requires at + length <= |s| && ParseOption(s, at, length).Parsed?
    ensures s[at] / 16 < 15 && s[at] % 16 < 15 && at + 1 + ExtCount(s[at] / 16) + ExtCount(s[at] % 16) <= |s|
    ensures ParseOption(s, at, length).length == Number(s, at + 1 + ExtCount(s[at] / 16), s[at] % 16)
  {
  }

  lemma TwoBytes(hi: Byte, lo: Byte)
    ensures ((hi as int * 256 + 269) % 0x10000 + lo as int) % 0x10000
              == (269 + 256 * hi as int + lo as int) % 0x10000
  {
    var x := hi as int * 256 + 269;
    if x < 0x10000 {
      assert x % 0x10000 == x;
    } else {
      assert x % 0x10000 == x - 0x10000;
    }
  }

  /** The switch over the length of `coap_opt_length`, with the bytes of the extension from `at` on. */
  method LengthAt(opt: array<Byte>, at: nat, nibble: nat) returns (n: nat)
    requires nibble < 15 && at + ExtCount(nibble) <= opt.Length
    ensures n == Number(opt[..], at, nibble) % 0x10000
  {
    n := nibble;
    if n == 14 {
      TwoBytes(opt[at], opt[at + 1]);
      n := (opt[at] as int * 256 + 269) % 0x10000;
      n := (n + opt[at + 1] as int) % 0x10000;
    } else if n == 13 {
      n := n + opt[at] as int;
    }
  }

  /** `coap_opt_length`; the result is an unsigned short. */
  method OptLength(opt: array<Byte>, at: nat) returns (n: nat)
    requires at < opt.Length && at + ExtCount(opt[at] / 16) + ExtCount(opt[at] % 16) < opt.Length
    ensures forall length :: at + length <= opt.Length && ParseOption(opt[..], at, length).Parsed? ==>
                               n == ParseOption(opt[..], at, length).length % 0x10000
  {
    hide ParseOption, Number;
    ghost var s := opt[..];
    forall length | at + length <= |s| && ParseOption(s, at, length).Parsed?
      ensures s[at] / 16 < 15 && s[at] % 16 < 15
      ensures ParseOption(s, at, length).length == Number(s, at + 1 + ExtCount(s[at] / 16), s[at] % 16)
    {
      ParsedLength(s, at, length);
    }
    n := opt[at] % 16;
    var o, d := at, opt[at] / 16;
    if d == 15 {
      return 0;
    }
    if d == 14 {
      o := o + 1;
    }
    if d >= 13 {
      o := o + 1;
    }
    o := o + 1;
    if n == 15 {
      return 0;
    }
    n := LengthAt(opt, o, n);
  }

  /** `coap_opt_value` as an offset; -1 stands for NULL. */
  method OptValue(opt: array<Byte>, at: nat) returns (v: int)
    requires at < opt.Length
    ensures forall length :: at + length <= opt.Length && ParseOption(opt[..], at, length).Parsed? ==>
                               v == ParseOption(opt[..], at, length).value
  {
    var ofs := 1;
    var d, l := opt[at] / 16, opt[at] % 16;
    if d == 15 || l == 15 {
      return -1;
    }
    if d == 14 {
      ofs := ofs + 1;
    }
    if d >= 13 {
      ofs := ofs + 1;
    }
    if l == 14 {
      ofs := ofs + 1;
    }
    if l >= 13 {
      ofs := ofs + 1;
    }
    v := at + ofs;
  }
}
