/** Iterating over the options of a message, with and without a filter. */
module CoapIterator {
  import opened CoapOption
  import opened CoapMessage
  import opened CoapPdu

  // ---- filters: 64 bits ----

  type Filter = f: seq<bv8> | |f| == 8 witness [0, 0, 0, 0, 0, 0, 0, 0]

  function Mask(k: nat): bv8
    requires k < 8
  {
    1 << k
  }

  /** `coap_option_getb`: the option number is passed on as 8 bits; -1 when it does not fit the filter. */
  function GetBit(f: Filter, number: nat): int {
    var bit := number % 256;
    if 8 <= bit / 8 then -1 else if f[bit / 8] & Mask(bit % 8) != 0 then 1 else 0
  }

  /** `coap_option_setb`; unchanged when the number does not fit. */
  function SetBit(f: Filter, number: nat): Filter {
    var bit := number % 256;
    if 8 <= bit / 8 then f else f[bit / 8 := f[bit / 8] | Mask(bit % 8)]
  }

  const NO_BITS: Filter := [0, 0, 0, 0, 0, 0, 0, 0]

  lemma OrMask(x: bv8, j: nat, k: nat)
    requires j < 8 && k < 8
    ensures (x | Mask(k)) & Mask(j) != 0 <==> j == k || x & Mask(j) != 0
  {
    MaskOne(k);
    MaskOne(j);
    OrBit(x, Mask(k), Mask(j));
    if j != k {
      MasksDiffer(j, k);
    }
  }

  lemma MaskOne(k: nat)
    requires k < 8
    ensures Mask(k) != 0
  {
    assert k == 0 || k == 1 || k == 2 || k == 3 || k == 4 || k == 5 || k == 6 || k == 7;
  }

  lemma MasksDiffer(j: nat, k: nat)
    requires j < 8 && k < 8 && j != k
    ensures Mask(j) & Mask(k) == 0
  {
    assert j == 0 || j == 1 || j == 2 || j == 3 || j == 4 || j == 5 || j == 6 || j == 7;
    assert k == 0 || k == 1 || k == 2 || k == 3 || k == 4 || k == 5 || k == 6 || k == 7;
  }

  lemma OrBit(x: bv8, a: bv8, b: bv8)
    requires a & b == 0 || a == b
    ensures (x | a) & b == if a == b then b else x & b
  {
  }

  lemma SetThenGet(f: Filter, number: nat, n: nat)
    ensures GetBit(SetBit(f, number), n) == if n % 256 == number % 256 && n % 256 < 64 then 1 else GetBit(f, n)
  {
    var bit, b := number % 256, n % 256;
    if bit < 64 && b < 64 {
      SetThenGetAt(f, bit / 8, bit % 8, b / 8, b % 8);
    }
  }

  lemma SetThenGetAt(f: Filter, i: nat, k: nat, j: nat, l: nat)
    requires i < 8 && k < 8 && j < 8 && l < 8
    ensures f[i := f[i] | Mask(k)][j] & Mask(l) != 0 <==> (i == j && k == l) || f[j] & Mask(l) != 0
  {
    hide Mask;
    OrMask(f[i], l, k);
  }

  lemma NoBits(n: nat)
    ensures GetBit(NO_BITS, n) == if n % 256 < 64 then 0 else -1
  {
    hide Mask;
    ZeroAnd(Mask(n % 8));
  }

  lemma ZeroAnd(b: bv8)
    ensures 0 & b == 0
  {
  }

  // ---- what the iterator delivers ----

  datatype Filtering = All | Only(f: Filter)

  /** The options delivered out of `views`: iteration ends at the first number that does not fit the filter. */
  function Delivered(filtering: Filtering, views: seq<View>): seq<View> {
    if filtering.All? || views == [] then views
    else
      var b := GetBit(filtering.f, views[0].number);
      if b > 0 then [views[0]] + Delivered(filtering, views[1..])
      else if b < 0 then []
      else Delivered(filtering, views[1..])
  }

  class OptIterator {
    var length: nat                // bytes left
    var typ: nat                   // number of the current option
    var bad: bool
    var filtering: Filtering
    var nextOption: nat

    /** What is still to come. */
    ghost function Remaining(s: seq<Byte>): seq<View>
      requires bad || nextOption + length <= |s|
      reads this
    {
      if bad then [] else Delivered(filtering, Options(s, nextOption, length, typ))
    }

    ghost predicate Within(s: seq<Byte>)
      reads this
    {
      bad || nextOption + length < |s|
    }

    /** `coap_option_iterator_init` */
    constructor (pdu: Pdu, filtering: Filtering)
      requires pdu.hdr.Length == pdu.maxSize + 1 && 0 < pdu.length <= pdu.maxSize
      ensures Within(pdu.hdr[..]) && 0 < nextOption
      ensures var s := pdu.hdr[..];
              var at := HEADER + TokenLength(s);
              Remaining(s) == if pdu.length <= at then [] else Delivered(filtering, Options(s, at, pdu.length - at, 0))
    {
      hide Options, Delivered;
      this.filtering := All;
      typ, length, bad := 0, 0, false;
      nextOption := HEADER + pdu.hdr[0] % 16;
      if pdu.length <= HEADER + pdu.hdr[0] % 16 {
        bad := true;
      } else {
        length := pdu.length - (HEADER + pdu.hdr[0] % 16);
        this.filtering := filtering;
      }
    }

    /** `coap_option_next`; the result is where the option begins, 0 for NULL. */
    method Next(hdr: array<Byte>) returns (current: nat)
      requires Within(hdr[..]) && (!bad ==> 0 < nextOption)
      modifies this
      ensures Within(hdr[..]) && (!bad ==> 0 < nextOption)
      ensures current == 0 ==> old(Remaining(hdr[..])) == [] && bad
      ensures current != 0 ==> exists v: View :: v.number == typ && v.at == current
                                 && old(Remaining(hdr[..])) == [v] + Remaining(hdr[..])
    {
      hide ParseOption, Options, GetBit;
      ghost var s := hdr[..];
      if bad || length == 0 || hdr[nextOption] == PAYLOAD_START {
        if !bad {
          OptionsEnd(s, nextOption, length, typ);
        }
        bad := true;
        return 0;
      }
      while true
        invariant !bad && 0 < nextOption && nextOption + length < hdr.Length && filtering == old(filtering)
        invariant old(Remaining(s)) == Delivered(filtering, Options(s, nextOption, length, typ))
        decreases length
      {
        current := nextOption;
        StopsAtMarker(s, nextOption, length, typ);
        var optsize, delta, _, _ := OptParse(hdr, nextOption, length);
        if optsize == 0 {
          bad := true;
          return 0;
        }
        ghost var views := Options(s, nextOption, length, typ);
        nextOption := nextOption + optsize;
        length := length - optsize;
        typ := (typ + delta) % 0x10000;
        assert views[1..] == Options(s, nextOption, length, typ) && views == [views[0]] + views[1..];
        if filtering.All? {
          break;
        }
        var b := GetBit(filtering.f, typ);
        if b > 0 {
          break;
        } else if b < 0 {
          bad := true;
          return 0;
        }
      }
    }
  }

  lemma OptionsEnd(s: seq<Byte>, at: nat, length: nat, number: nat)
    requires at + length <= |s|
    ensures length == 0 || s[at] == PAYLOAD_START ==> Options(s, at, length, number) == []
  {
  }

  /** An end of the options is also what the option parser itself reports as malformed. */
  lemma StopsAtMarker(s: seq<Byte>, at: nat, length: nat, number: nat)
    requires at + length <= |s|
    ensures var p := ParseOption(s, at, length);
            if p.Malformed? then Options(s, at, length, number) == []
            else 1 <= p.size <= length && p.delta < 0x10000 && p.value + p.length <= |s|
                 && var n := (number + p.delta) % 0x10000;
                    Options(s, at, length, number)
                      == [View(n, at, s[p.value..p.value + p.length])] + Options(s, at + p.size, length - p.size, n)
  {
    ParsedSize(s, at, length);
  }

  // ---- filtered iteration is the subsequence of the unfiltered one ----

  ghost function Matching(f: Filter, views: seq<View>): seq<View> {
    if views == [] then []
    else (if views[0].number < 64 && GetBit(f, views[0].number) == 1 then [views[0]] else []) + Matching(f, views[1..])
  }

  /** An option of 256 or more is delivered, because only 8 bits of its number reach the filter. */
  ghost predicate Leaks(f: Filter, views: seq<View>) {
    && views != [] && views[0].number % 256 < 64
    && ((256 <= views[0].number && GetBit(f, views[0].number) == 1) || Leaks(f, views[1..]))
  }

  /** There is a matching option behind the first one at which iteration gives up. */
  ghost predicate Misses(f: Filter, views: seq<View>) {
    views != [] && if views[0].number % 256 < 64 then Misses(f, views[1..]) else Matching(f, views[1..]) != []
  }

  /** Numbers do not decrease: the 16-bit sum of the deltas does not wrap. */
  ghost predicate Rising(views: seq<View>, prev: nat) {
    views == [] || (prev <= views[0].number && Rising(views[1..], views[0].number))
  }

  lemma BitRange(f: Filter, number: nat)
    ensures GetBit(f, number) < 0 <==> 64 <= number % 256
    ensures GetBit(f, number) == -1 || GetBit(f, number) == 0 || GetBit(f, number) == 1
  {
  }

  lemma {:induction false} MatchingFits(f: Filter, views: seq<View>)
    ensures forall v :: v in Matching(f, views) ==> v.number < 64
  {
    hide GetBit;
    if views != [] {
      MatchingFits(f, views[1..]);
    }
  }

  /** What is delivered is what matches, except in two cases. */
  lemma {:induction false} FilteredExactly(f: Filter, views: seq<View>)
    ensures Delivered(Only(f), views) == Matching(f, views) <==> !Leaks(f, views) && !Misses(f, views)
  {
    hide GetBit;
    if views != [] {
      var v, d, m := views[0], Delivered(Only(f), views[1..]), Matching(f, views[1..]);
      BitRange(f, v.number);
      FilteredExactly(f, views[1..]);
      MatchingFits(f, views);
      if v.number < 64 && GetBit(f, v.number) == 1 {
        assert ([v] + d)[1..] == d && ([v] + m)[1..] == m;
      } else {
        assert [] + m == m;
        assert 256 <= v.number && GetBit(f, v.number) == 1 ==> v in Delivered(Only(f), views);
      }
    }
  }

  lemma {:induction false} NothingBeyond(f: Filter, views: seq<View>, prev: nat)
    requires Rising(views, prev) && 64 <= prev
    ensures Matching(f, views) == []
  {
    if views != [] {
      NothingBeyond(f, views[1..], views[0].number);
    }
  }

  lemma {:induction false} RisingMissesNothing(f: Filter, views: seq<View>, prev: nat)
    requires Rising(views, prev)
    ensures !Misses(f, views)
  {
    hide Matching;
    if views != [] {
      RisingMissesNothing(f, views[1..], views[0].number);
      if 64 <= views[0].number % 256 {
        NothingBeyond(f, views[1..], views[0].number);
      }
    }
  }

  /** Although iteration gives up at the first number beyond the filter, nothing that matches is lost; and
      nothing else is delivered exactly if no number of 256 or more passes the filter before that. */
  lemma FilteredIsSubsequence(f: Filter, views: seq<View>, prev: nat)
    requires Rising(views, prev)
    ensures Delivered(Only(f), views) == Matching(f, views) <==> !Leaks(f, views)
  {
    FilteredExactly(f, views);
    RisingMissesNothing(f, views, prev);
  }

  /** With numbers of 256 and more the filter is consulted modulo 256: option 257 passes for option 1. */
  lemma AliasedNumber(at: nat, value: seq<Byte>)
    ensures var v := View(257, at, value);
            Delivered(Only(SetBit(NO_BITS, 1)), [v]) == [v] && Matching(SetBit(NO_BITS, 1), [v]) == []
  {
    SetThenGet(NO_BITS, 1, 257);
  }

  // ---- coap_check_option ----

  ghost function OptionsOf(s: seq<Byte>, n: nat): seq<View>
    requires 0 < |s| && n <= |s|
  {
    var at := HEADER + TokenLength(s);
    if n <= at then [] else Options(s, at, n - at, 0)
  }

  /** The first option with this number: its index, or the length of the list if there is none. */
  ghost function FirstWith(number: nat, views: seq<View>): (k: nat)
    ensures k <= |views| && (k < |views| ==> views[k].number == number)
    ensures forall j :: 0 <= j < k ==> views[j].number != number
  {
    if views == [] || views[0].number == number then 0 else 1 + FirstWith(number, views[1..])
  }

  /** Where iteration for one type ends: at the first number that is the type or beyond the filter, modulo 256. */
  ghost function StopsAt(typ: Byte, views: seq<View>): (m: nat)
    ensures m <= |views| && (m < |views| ==> Stops(typ, views[m].number))
    ensures forall j :: 0 <= j < m ==> !Stops(typ, views[j].number)
  {
    if views == [] || Stops(typ, views[0].number) then 0 else 1 + StopsAt(typ, views[1..])
  }

  predicate Stops(typ: Byte, number: nat) {
    number % 256 == typ as int || 64 <= number % 256
  }

  /** Iteration does not end too early: it ends at the type itself, or the type does not occur. */
  ghost predicate Reaches(typ: Byte, views: seq<View>) {
    var m := StopsAt(typ, views);
    m == |views| || views[m].number == typ as int || (64 <= views[m].number % 256 && FirstWith(typ, views) == |views|)
  }

  /** Then it ends at the first option of the type. */
  lemma ReachesFirst(typ: Byte, views: seq<View>)
    requires typ < 64 && Reaches(typ, views)
    ensures var m, k := StopsAt(typ, views), FirstWith(typ, views);
            if k == |views| then m == |views| || views[m].number % 256 != typ as int else m == k
  {
    var m, k := StopsAt(typ, views), FirstWith(typ, views);
    if k < |views| {
      assert Stops(typ, views[k].number);
    }
  }

  /** What iteration for one type delivers first. */
  lemma {:induction false} DeliveredFirst(typ: Byte, views: seq<View>)
    requires typ < 64
    ensures var d, m := Delivered(Only(SetBit(NO_BITS, typ)), views), StopsAt(typ, views);
            if m == |views| || views[m].number % 256 != typ as int then d == [] else d != [] && d[0] == views[m]
  {
    hide GetBit, SetBit;
    if views != [] {
      SetThenGet(NO_BITS, typ, views[0].number);
      NoBits(views[0].number);
      DeliveredFirst(typ, views[1..]);
    }
  }

  lemma {:induction false} TameAt(views: seq<View>, prev: nat, i: nat, j: nat)
    requires Tame(views, prev) && i <= j < |views|
    ensures prev <= views[i].number <= views[j].number < 256
    decreases j
  {
    if i > 0 {
      TameAt(views[1..], views[0].number, i - 1, j - 1);
    } else if j > 0 {
      TameAt(views[1..], views[0].number, 0, j - 1);
    }
  }

  /** Numbers below 256 in rising order never mislead the search for one type. */
  lemma TameReaches(typ: Byte, views: seq<View>, prev: nat)
    requires Tame(views, prev) && typ < 64
    ensures Reaches(typ, views)
  {
    hide Tame, StopsAt, FirstWith;
    var m, k := StopsAt(typ, views), FirstWith(typ, views);
    if m < |views| {
      TameAt(views, prev, m, m);
      if k < |views| {
        assert Stops(typ, views[k].number);
        TameAt(views, prev, m, k);
      }
    }
  }

  /** A filter for a number of 64 or more stays empty. */
  lemma {:induction false} NoMatch(typ: Byte, views: seq<View>)
    requires 64 <= typ
    ensures Delivered(Only(SetBit(NO_BITS, typ)), views) == []
  {
    hide GetBit;
    if views != [] {
      NoBits(views[0].number);
      NoMatch(typ, views[1..]);
    }
  }

  /** The first option of the type is at `current`, as the iterator's number confirms; 0 if there is none. */
  ghost predicate FoundFirst(typ: Byte, views: seq<View>, current: nat, number: nat) {
    var k := FirstWith(typ, views);
    if k == |views| then current == 0 else current != 0 && current == views[k].at && number == typ as int
  }

  /** What is found is the option at which iteration for the type ends, if its number is the type modulo 256. */
  ghost predicate StoppedAt(typ: Byte, views: seq<View>, current: nat, number: nat) {
    var m := StopsAt(typ, views);
    if m == |views| || views[m].number % 256 != typ as int then current == 0
    else current != 0 && current == views[m].at && number == views[m].number
  }

  /** `coap_check_option`: only types below 64 fit the filter; for these it finds the first option of the type
      exactly if iteration does not end before it at a number that is the same modulo 256 or beyond the filter. */
  method CheckOption(pdu: Pdu, typ: Byte) returns (oi: OptIterator, current: nat)
    requires pdu.hdr.Length == pdu.maxSize + 1 && 0 < pdu.length <= pdu.maxSize
    ensures fresh(oi)
    ensures 64 <= typ ==> current == 0
    ensures typ < 64 ==> StoppedAt(typ, OptionsOf(pdu.hdr[..], pdu.length), current, oi.typ)
    ensures current != 0 ==> exists v :: v in OptionsOf(pdu.hdr[..], pdu.length) && v.at == current
    ensures var views := OptionsOf(pdu.hdr[..], pdu.length);
            typ < 64 ==> (FoundFirst(typ, views, current, oi.typ) <==> Reaches(typ, views))
    ensures var views := OptionsOf(pdu.hdr[..], pdu.length);
            typ < 64 && Tame(views, 0) ==> FoundFirst(typ, views, current, oi.typ)
  {
    hide GetBit, SetBit, Options, Delivered, FirstWith, StopsAt, FoundFirst, Reaches, Tame;
    var f := SetBit(NO_BITS, typ);
    oi := new OptIterator(pdu, Only(f));
    ghost var views := OptionsOf(pdu.hdr[..], pdu.length);
    assert oi.Remaining(pdu.hdr[..]) == Delivered(Only(f), views) by { DeliveredNone(Only(f)); }
    current := oi.Next(pdu.hdr);
    DeliveredIn(Only(f), views);
    if current != 0 {
      ghost var v: View :|
        v.number == oi.typ && v.at == current && Delivered(Only(f), views) == [v] + oi.Remaining(pdu.hdr[..]);
      assert v == Delivered(Only(f), views)[0];
      assert v in views;
    }
    if 64 <= typ {
      NoMatch(typ, views);
    } else {
      DeliveredFirst(typ, views);
      FoundIfReached(typ, views, current, oi.typ);
      if Tame(views, 0) {
        TameReaches(typ, views, 0);
      }
    }
  }

  lemma FoundIfReached(typ: Byte, views: seq<View>, current: nat, number: nat)
    requires typ < 64 && StoppedAt(typ, views, current, number)
    ensures FoundFirst(typ, views, current, number) <==> Reaches(typ, views)
  {
    var m, k := StopsAt(typ, views), FirstWith(typ, views);
    if k < |views| {
      assert Stops(typ, views[k].number);
      assert m <= k;
    }
  }

  lemma {:induction false} DeliveredIn(filtering: Filtering, views: seq<View>)
    ensures forall v :: v in Delivered(filtering, views) ==> v in views
  {
    hide GetBit;
    if views != [] {
      DeliveredIn(filtering, views[1..]);
    }
  }

  lemma DeliveredNone(filtering: Filtering)
    ensures Delivered(filtering, []) == []
  {
  }

  // ---- coap_option_check_critical ----

  predicate Critical(number: nat) {
    number % 2 == 1
  }

  /** What the lowest bit says about the registered options: RFC 7252, section 5.10, RFC 7641 and RFC 7959. */
  lemma CriticalNumbers(number: nat)
    requires number < 0x10000
    ensures Critical(number) <==> (number as bv16) & 1 == 1
    ensures forall n :: n in {1, 3, 5, 7, 11, 15, 17, 23, 27, 35, 39} ==> Critical(n)
    ensures forall n :: n in {4, 6, 8, 12, 14, 20, 60} ==> !Critical(n)
  {
  }

  /** Every critical option is registered; only numbers below 64 can be. */
  ghost predicate Registered(known: Filter, views: seq<View>) {
    forall v :: v in views && Critical(v.number) ==> v.number < 64 && GetBit(known, v.number) == 1
  }

  /** All critical options pass the test modulo 256, but one of them only because of that. */
  ghost predicate Mistaken(known: Filter, views: seq<View>) {
    Known(known, views) && exists v :: v in views && Critical(v.number) && 256 <= v.number
  }

  /** Asking with 8 bits of the number is right exactly if no option of 256 or more is let through. */
  lemma KnownIsRegistered(known: Filter, views: seq<View>)
    ensures (Known(known, views) <==> Registered(known, views)) <==> !Mistaken(known, views)
  {
    hide GetBit;
    forall v | v in views
      ensures GetBit(known, v.number) == 1 ==> v.number < 64 || 256 <= v.number
    {
      BitRange(known, v.number);
    }
  }

  /** The unknown critical option 257 is accepted once option 1 is registered. */
  lemma AliasedCritical(at: nat, value: seq<Byte>)
    ensures var known, views := SetBit(NO_BITS, 1), [View(257, at, value)];
            Known(known, views) && !Registered(known, views)
  {
    SetThenGet(NO_BITS, 1, 257);
    assert View(257, at, value) in [View(257, at, value)] && Critical(257);
  }

  /** `coap_option_check_critical`: succeeds exactly when every critical (odd-numbered) option is registered,
      unless one of 256 or more is mistaken for a registered one; otherwise it reports the unknown ones that
      fit the filter. */
  method CheckCritical(known: Filter, pdu: Pdu, unknown: Filter) returns (ok: bool, unknown': Filter)
    requires pdu.hdr.Length == pdu.maxSize + 1 && 0 < pdu.length <= pdu.maxSize
    ensures var views := OptionsOf(pdu.hdr[..], pdu.length);
            && ((ok <==> Registered(known, views)) <==> !Mistaken(known, views))
            && (Registered(known, views) ==> ok)
            && (Tame(views, 0) ==> Reported(known, unknown, unknown', views))
  {
    hide GetBit, SetBit, Options, Delivered, Tame, Known, Registered, Mistaken, Reported;
    ok, unknown' := true, unknown;
    var oi := new OptIterator(pdu, All);
    ghost var s := pdu.hdr[..];
    ghost var views := OptionsOf(s, pdu.length);
    ghost var k := 0;
    assert oi.Remaining(s) == views by { DeliveredAll(views); DeliveredAll([]); }
    NothingReported(known, unknown);
    KnownIsRegistered(known, views);
    RegisteredIsKnown(known, views);
    while true
      invariant fresh(oi) && pdu.hdr[..] == s && oi.Within(s) && (!oi.bad ==> 0 < oi.nextOption)
      invariant 0 <= k <= |views| && oi.Remaining(s) == views[k..]
      invariant Known(known, views[..k]) == ok
      invariant Tame(views, 0) ==> Reported(known, unknown, unknown', views[..k])
      decreases |views| - k
    {
      var current := oi.Next(pdu.hdr);
      if current == 0 {
        assert views[..k] == views;
        break;
      }
      ghost var v: View :| v.number == oi.typ && views[k..] == [v] + oi.Remaining(s);
      OneFurther(views, k, v, oi.Remaining(s));
      KnownSnoc(known, views[..k], v);
      if Tame(views, 0) {
        TameSplit(views[..k], v, views[k + 1..], 0);
        ReportedSnoc(known, unknown, unknown', views[..k], v);
        ReportedAll(known, unknown, unknown', views[..k], v, views[k + 1..]);
      }
      BitRange(known, oi.typ);
      if oi.typ % 2 == 1 && GetBit(known, oi.typ) < 1 {
        ok := false;
        KnownSuffix(known, views[..k], v, views[k + 1..]);
        unknown' := SetBit(unknown', oi.typ);
        if 8 <= oi.typ % 256 / 8 {
          return;
        }
      }
      k := k + 1;
    }
  }

  lemma RegisteredIsKnown(known: Filter, views: seq<View>)
    ensures Registered(known, views) ==> Known(known, views)
  {
    hide GetBit;
  }

  ghost predicate Reported(known: Filter, unknown: Filter, unknown': Filter, views: seq<View>) {
    forall n :: 0 <= n < 64 ==> (GetBit(unknown', n) == 1 <==> GetBit(unknown, n) == 1 || Missing(known, views, n))
  }

  lemma NothingReported(known: Filter, unknown: Filter)
    ensures Known(known, []) && Reported(known, unknown, unknown, [])
  {
    hide GetBit;
  }

  /** One more option: an unknown critical one is reported if it fits the filter. */
  lemma ReportedSnoc(known: Filter, unknown: Filter, u: Filter, done: seq<View>, v: View)
    requires Reported(known, unknown, u, done) && v.number < 256
    ensures Critical(v.number) && GetBit(known, v.number) != 1 ==>
              Reported(known, unknown, SetBit(u, v.number), done + [v])
    ensures !(Critical(v.number) && GetBit(known, v.number) != 1) ==> Reported(known, unknown, u, done + [v])
  {
    hide GetBit, SetBit, Missing;
    MissingSnoc(known, done, v);
    forall n | 0 <= n < 64
      ensures GetBit(SetBit(u, v.number), n) == if n == v.number then 1 else GetBit(u, n)
    {
      SetThenGet(u, v.number, n);
    }
  }

  /** Beyond the filter nothing more can be reported. */
  lemma ReportedAll(known: Filter, unknown: Filter, u: Filter, done: seq<View>, v: View, rest: seq<View>)
    requires Reported(known, unknown, u, done) && forall x :: x in rest ==> v.number <= x.number
    ensures 64 <= v.number < 256 ==> Reported(known, unknown, SetBit(u, v.number), done + [v] + rest)
  {
    hide GetBit, Missing;
    MissingSnoc(known, done, v);
    if 64 <= v.number < 256 {
      MissingSuffix(known, done + [v], rest);
    }
  }

  lemma OneFurther(views: seq<View>, k: nat, v: View, rest: seq<View>)
    requires k <= |views| && views[k..] == [v] + rest
    ensures k < |views| && views[k] == v && rest == views[k + 1..]
    ensures views[..k + 1] == views[..k] + [v] && views == views[..k] + [v] + views[k + 1..]
  {
    assert views[k] == views[k..][0];
    assert views[k..][1..] == views[k + 1..];
  }

  ghost predicate Known(known: Filter, views: seq<View>) {
    forall v :: v in views && Critical(v.number) ==> GetBit(known, v.number) == 1
  }

  lemma KnownSnoc(known: Filter, views: seq<View>, v: View)
    ensures Known(known, views + [v]) <==> Known(known, views) && (Critical(v.number) ==> GetBit(known, v.number) == 1)
  {
    hide GetBit;
    assert forall x :: x in views + [v] <==> x in views || x == v;
  }

  lemma KnownSuffix(known: Filter, views: seq<View>, v: View, rest: seq<View>)
    requires Critical(v.number) && GetBit(known, v.number) != 1
    ensures !Known(known, views + [v] + rest)
  {
    hide GetBit;
    assert v in views + [v] + rest;
  }

  lemma MissingSnoc(known: Filter, views: seq<View>, v: View)
    ensures forall n :: Missing(known, views + [v], n) <==>
                          Missing(known, views, n) || (n == v.number && Critical(n) && GetBit(known, n) != 1)
  {
    hide GetBit;
    assert forall x :: x in views + [v] <==> x in views || x == v;
  }

  lemma MissingSuffix(known: Filter, views: seq<View>, rest: seq<View>)
    requires forall v :: v in rest ==> 64 <= v.number
    ensures forall n :: 0 <= n < 64 ==> (Missing(known, views + rest, n) <==> Missing(known, views, n))
  {
    hide GetBit;
    assert forall x :: x in views + rest <==> x in views || x in rest;
  }

  /** Numbers do not decrease and stay below 256. */
  ghost predicate Tame(views: seq<View>, prev: nat) {
    views == [] || (prev <= views[0].number < 256 && Tame(views[1..], views[0].number))
  }

  lemma {:induction false} TameSplit(views: seq<View>, v: View, rest: seq<View>, prev: nat)
    requires Tame(views + [v] + rest, prev)
    ensures prev <= v.number < 256 && forall x :: x in rest ==> v.number <= x.number
  {
    var all := views + [v] + rest;
    if views == [] {
      assert all == [v] + rest && all[1..] == rest;
      TameBound(rest, v.number);
    } else {
      assert all[1..] == views[1..] + [v] + rest;
      TameSplit(views[1..], v, rest, views[0].number);
    }
  }

  lemma {:induction false} TameBound(views: seq<View>, prev: nat)
    requires Tame(views, prev)
    ensures forall x :: x in views ==> prev <= x.number
  {
    if views != [] {
      TameBound(views[1..], views[0].number);
      assert forall x :: x in views ==> x == views[0] || x in views[1..];
    }
  }

  ghost predicate Missing(known: Filter, views: seq<View>, n: nat) {
    Critical(n) && GetBit(known, n) != 1 && exists v :: v in views && v.number == n
  }

  lemma DeliveredAll(views: seq<View>)
    ensures Delivered(All, views) == views
  {
  }
}
