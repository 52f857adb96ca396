/** The variable-length unsigned integers of CoAP options (RFC 7252, section 3.2) and `coap_fls`. */
module CoapEncode {
  import opened Arithmetic
  import opened CoapOption

  const UINT := 0x1_0000_0000

  /** Big-endian, without leading zero bytes. */
  function EncodeVar(v: nat): seq<Byte> {
    if v == 0 then [] else EncodeVar(v / 256) + [v % 256]
  }

  function DecodeVar(s: seq<Byte>): nat {
    if s == [] then 0 else DecodeVar(s[..|s| - 1]) * 256 + s[|s| - 1] as int
  }

  lemma DecodeSnoc(s: seq<Byte>, b: Byte)
    ensures DecodeVar(s + [b]) == DecodeVar(s) * 256 + b as int
  {
    assert (s + [b])[..|s|] == s;
  }

  /** Network byte order: the first byte has the highest place value. */
  lemma {:induction false} PlaceValue(b: Byte, s: seq<Byte>)
    ensures DecodeVar([b] + s) == b * Pow2(8 * |s|) + DecodeVar(s)
    decreases |s|
  {
    hide Pow2;
    Powers();
    if s == [] {
      DecodeSnoc([], b);
      assert [] + [b] == [b] + s;
    } else {
      var t, c := s[..|s| - 1], s[|s| - 1];
      PlaceValue(b, t);
      DecodeSnoc([b] + t, c);
      assert [b] + s == [b] + t + [c];
      PowAdd(8 * |t|, 8);
      OnePlaceUp(b, Pow2(8 * |t|), DecodeVar(t), c);
    }
  }

  lemma OnePlaceUp(b: nat, p: nat, x: nat, c: nat)
    ensures (b * p + x) * 256 + c == b * (p * 256) + (x * 256 + c)
  {
  }

  lemma {:induction false} DecodeEncodeVar(v: nat)
    ensures DecodeVar(EncodeVar(v)) == v
  {
    if v > 0 {
      DecodeEncodeVar(v / 256);
      DecodeSnoc(EncodeVar(v / 256), v % 256);
    }
  }

  /** No shorter string of bytes stands for the same number. */
  lemma {:induction false} EncodingIsMinimal(v: nat, s: seq<Byte>)
    requires DecodeVar(s) == v
    ensures |EncodeVar(v)| <= |s|
    decreases |s|
  {
    if s != [] && v > 0 {
      EncodingIsMinimal(v / 256, s[..|s| - 1]);
    }
  }

  lemma {:induction false} EncodedLength(v: nat, n: nat)
    requires v < Pow2(8 * n)
    ensures |EncodeVar(v)| <= n
    decreases n
  {
    if n > 0 && v > 0 {
      assert Pow2(8 * n) == 256 * Pow2(8 * (n - 1)) by { PowAdd(8 * (n - 1), 8); Powers(); }
      EncodedLength(v / 256, n - 1);
    }
  }

  lemma EncodedLengths(v: nat)
    ensures v < UINT ==> |EncodeVar(v)| <= 4
    ensures v < 0x100_0000 ==> |EncodeVar(v)| <= 3
  {
    Powers();
    if v < UINT {
      EncodedLength(v, 4);
    }
    if v < 0x100_0000 {
      EncodedLength(v, 3);
    }
  }

  /** `coap_encode_var_bytes`: the bytes are counted first, then filled in from the last one. */
  method EncodeVarBytes(buf: array<Byte>, val: nat) returns (n: nat)
    requires val < UINT && |EncodeVar(val)| <= buf.Length
    modifies buf
    ensures n == |EncodeVar(val)| && buf[..n] == EncodeVar(val)
    ensures forall k :: n <= k < buf.Length ==> buf[k] == old(buf[k])
  {
    EncodedLengths(val);
    n := 0;
    var rest := val;
    while rest != 0 && n < 4
      invariant |EncodeVar(rest)| + n == |EncodeVar(val)|
      decreases rest
    {
      rest := rest / 256;
      n := n + 1;
    }
    var i, v := n, val;
    while i != 0
      invariant 0 <= i <= n == |EncodeVar(val)| && |EncodeVar(v)| == i
      invariant EncodeVar(v) + buf[i..n] == EncodeVar(val)
      invariant forall k :: n <= k < buf.Length ==> buf[k] == old(buf[k])
    {
      ghost var tail := buf[i..n];
      i := i - 1;
      buf[i] := v % 256;
      assert buf[i..n] == [v % 256] + tail;
      v := v / 256;
    }
  }

  /** `coap_decode_var_bytes` of the `len` bytes at `at`, in 32 bits. */
  method DecodeVarBytes(buf: array<Byte>, at: nat, len: nat) returns (n: nat)
    requires at + len <= buf.Length
    ensures n == DecodeVar(buf[at..at + len]) % UINT
  {
    n := 0;
    for i := 0 to len
      invariant n == DecodeVar(buf[at..at + i]) % UINT
    {
      assert buf[at..at + i + 1] == buf[at..at + i] + [buf[at + i]];
      DecodeSnoc(buf[at..at + i], buf[at + i]);
      WrapStep(DecodeVar(buf[at..at + i]), buf[at + i]);
      n := (n * 256 + buf[at + i] as int) % UINT;
    }
  }

  lemma WrapStep(x: nat, b: nat)
    ensures (x % UINT * 256 + b) % UINT == (x * 256 + b) % UINT
  {
    assert x == x / UINT * UINT + x % UINT;
    assert x * 256 + b == x / UINT * 256 * UINT + (x % UINT * 256 + b);
  }

  /** `coap_fls`: the position of the most significant bit, counted from 1. */
  method Fls(i: nat) returns (n: nat)
    ensures i < Pow2(n) && (n > 0 ==> Pow2(n - 1) <= i)
  {
    hide Pow2, Between;
    n := 0;
    var x := i;
    Doubles(0);
    Ends(i, i);
    while x != 0
      invariant Between(x, Pow2(n), i)
      invariant n > 0 ==> Pow2(n - 1) <= i
      decreases x
    {
      HalvingStep(x, Pow2(n), i);
      Doubles(n);
      x := x / 2;
      n := n + 1;
    }
    Ends(Pow2(n), i);
  }

  /** `x` is what is left of `i` after dividing by `p`. */
  ghost predicate Between(x: nat, p: nat, i: nat) {
    x * p <= i < (x + 1) * p
  }

  lemma Ends(p: nat, i: nat)
    ensures Between(i, 1, i) && (Between(0, p, i) ==> i < p)
  {
  }

  lemma Doubles(n: nat)
    ensures Pow2(n + 1) == 2 * Pow2(n) && Pow2(0) == 1
  {
  }

  lemma HalvingStep(x: nat, p: nat, i: nat)
    requires 0 < x && Between(x, p, i)
    ensures Between(x / 2, 2 * p, i) && p <= i
  {
    var h, r := x / 2, x % 2;
    assert x == 2 * h + r;
    assert (2 * h + r) * p == h * (2 * p) + r * p;
    assert (h + 1) * (2 * p) == h * (2 * p) + 2 * p;
    assert x * p >= p;
  }
}
