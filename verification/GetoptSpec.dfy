/** What the short options of an argument list mean, independently of how `ya_getopt` walks over it. */
module GetoptSpec {

  datatype OptArg = NoArg | OptArg(text: string)
  datatype Result = Result(option: char, arg: OptArg)

  predicate IsOption(a: string) {
    a != "" && a[0] == '-'
  }

  /** `strchr`: the first position of `c`, or the length if it does not occur. */
  function Find(os: string, c: char): (p: nat)
    ensures p <= |os| && (p < |os| ==> os[p] == c) && forall k :: 0 <= k < p ==> os[k] != c
  {
    if os == "" || os[0] == c then 0 else 1 + Find(os[1..], c)
  }

  predicate Known(os: string, c: char) {
    Find(os, c) < |os|
  }

  predicate TakesArg(os: string, c: char) {
    var p := Find(os, c);
    p + 1 < |os| && os[p + 1] == ':'
  }

  predicate ArgOptional(os: string, c: char) {
    var p := Find(os, c);
    TakesArg(os, c) && p + 2 < |os| && os[p + 2] == ':'
  }

  /** What is returned for an option whose required argument is missing. */
  function MissingChar(os: string): char {
    if os != "" && os[0] == ':' then ':' else '?'
  }

  /** How a scan ends: everything has been scanned, "--" has been met, or a required argument is missing. */
  datatype Ending = AllScanned | Dashes | MissingArg

  /** The options with their arguments, the option elements (with separate arguments) and the other
      elements, each in order; and what is left unscanned. */
  datatype Parsed = Parsed(results: seq<Result>, opts: seq<string>, nons: seq<string>, ending: Ending,
                           left: seq<string>)

  ghost function Measure(rest: seq<string>, j: nat): nat {
    if rest == [] || j > |rest[0]| then 0 else |rest[0]| + 1 - j
  }

  /** How many elements the option character at `j` uses up: none when more characters follow it, its own
      when it is the last or its argument is attached, and two when its argument is the next element. */
  ghost function Width(os: string, rest: seq<string>, j: nat): nat
    requires rest != [] && j < |rest[0]|
  {
    var c, last := rest[0][j], j + 1 == |rest[0]|;
    if TakesArg(os, c) then (if last && !ArgOptional(os, c) then 2 else 1) else if last then 1 else 0
  }

  /** What is returned for the option character at `j`. */
  ghost function ResultAt(os: string, rest: seq<string>, j: nat): Result
    requires rest != [] && j < |rest[0]| && Width(os, rest, j) <= |rest|
  {
    var c, last := rest[0][j], j + 1 == |rest[0]|;
    if !Known(os, c) then Result('?', NoArg)
    else if !TakesArg(os, c) then Result(c, NoArg)
    else if !last then Result(c, OptArg(rest[0][j + 1..]))
    else if ArgOptional(os, c) then Result(c, NoArg)
    else Result(c, OptArg(rest[1]))
  }

  /** No lone "-" is met where an option could stand, and `j` is a position inside the first element. */
  ghost predicate Scannable(os: string, rest: seq<string>, j: nat)
    decreases |rest|, Measure(rest, j)
  {
    if rest == [] then j == 0
    else if j == 0 then
      if !IsOption(rest[0]) then Scannable(os, rest[1..], 0)
      else |rest[0]| > 1 && (rest[0] == "--" || Scannable(os, rest, 1))
    else
      && j < |rest[0]|
      && var w := Width(os, rest, j);
         if w == 0 then Scannable(os, rest, j + 1)
         else w <= |rest| ==> Scannable(os, rest[w..], 0)
  }

  /** The meaning of `rest`, of which the first element is an option that has been read up to character `j`
      (0 if it has not been looked at). */
  ghost function Parse(os: string, rest: seq<string>, j: nat): Parsed
    requires Scannable(os, rest, j)
    decreases |rest|, Measure(rest, j)
  {
    if rest == [] then Parsed([], [], [], AllScanned, [])
    else if j == 0 then
      if !IsOption(rest[0]) then AddNon(rest[0], Parse(os, rest[1..], 0))
      else if rest[0] == "--" then Parsed([], [], [], Dashes, rest)
      else Parse(os, rest, 1)
    else
      var w := Width(os, rest, j);
      if w > |rest| then Parsed([Result(MissingChar(os), NoArg)], [], [], MissingArg, rest)
      else if w == 0 then AddOption(ResultAt(os, rest, j), [], Parse(os, rest, j + 1))
      else AddOption(ResultAt(os, rest, j), rest[..w], Parse(os, rest[w..], 0))
  }

  ghost function AddOption(r: Result, elements: seq<string>, p: Parsed): Parsed {
    p.(results := [r] + p.results, opts := elements + p.opts)
  }

  ghost function AddNon(element: string, p: Parsed): Parsed {
    p.(nons := [element] + p.nons)
  }

  /** `s` is made of `a` and `b`, each in its own order. */
  ghost predicate Interleaved(a: seq<string>, b: seq<string>, s: seq<string>)
    decreases |s|
  {
    if s == [] then a == [] && b == []
    else
      || (a != [] && a[0] == s[0] && Interleaved(a[1..], b, s[1..]))
      || (b != [] && b[0] == s[0] && Interleaved(a, b[1..], s[1..]))
  }

  lemma {:induction false} InterleavedIsPermutation(a: seq<string>, b: seq<string>, s: seq<string>)
    requires Interleaved(a, b, s)
    ensures multiset(a + b) == multiset(s)
    decreases |s|
  {
    if s == [] {
      assert a + b == [];
    } else if a != [] && a[0] == s[0] && Interleaved(a[1..], b, s[1..]) {
      InterleavedIsPermutation(a[1..], b, s[1..]);
      assert a + b == [a[0]] + (a[1..] + b) && s == [s[0]] + s[1..];
    } else {
      InterleavedIsPermutation(a, b[1..], s[1..]);
      assert b == [b[0]] + b[1..] && s == [s[0]] + s[1..];
    }
  }

  lemma {:induction false} Prepended(x: seq<string>, a: seq<string>, b: seq<string>, s: seq<string>)
    requires Interleaved(a, b, s)
    ensures Interleaved(x + a, b, x + s)
    decreases |x|
  {
    if x == [] {
      assert x + a == a && x + s == s;
    } else {
      Prepended(x[1..], a, b, s);
      assert (x + a)[1..] == x[1..] + a && (x + s)[1..] == x[1..] + s;
    }
  }

  /** The argument list is the options and the other elements, both in their original order, and what is
      left; no other element is an option; and something is left only behind "--" or at an option without
      its argument. */
  ghost predicate Rearranged(p: Parsed, rest: seq<string>) {
    && |p.left| <= |rest| && rest[|rest| - |p.left|..] == p.left
    && Interleaved(p.opts, p.nons, rest[..|rest| - |p.left|])
    && (forall a :: a in p.nons ==> !IsOption(a))
    && (p.ending.AllScanned? ==> p.left == [])
    && (p.ending.Dashes? ==> p.left != [] && p.left[0] == "--")
    && (p.ending.MissingArg? ==> |p.left| == 1)
  }

  lemma OptionRearranged(p: Parsed, rest: seq<string>, w: nat, r: Result)
    requires w <= |rest| && Rearranged(p, rest[w..])
    ensures Rearranged(AddOption(r, rest[..w], p), rest)
  {
    var n := |rest| - |p.left|;
    assert rest[n..] == rest[w..][n - w..];
    assert rest[..n] == rest[..w] + rest[w..][..n - w];
    Prepended(rest[..w], p.opts, p.nons, rest[w..][..n - w]);
  }

  lemma NonRearranged(p: Parsed, rest: seq<string>)
    requires rest != [] && !IsOption(rest[0]) && Rearranged(p, rest[1..])
    ensures Rearranged(AddNon(rest[0], p), rest)
  {
    var n := |rest| - |p.left|;
    assert rest[n..] == rest[1..][n - 1..];
    assert rest[..n][1..] == rest[1..][..n - 1];
    assert ([rest[0]] + p.nons)[1..] == p.nons;
  }

  lemma {:induction false} ParsedIsRearrangement(os: string, rest: seq<string>, j: nat)
    requires Scannable(os, rest, j)
    ensures Rearranged(Parse(os, rest, j), rest)
    decreases |rest|, Measure(rest, j)
  {
    hide Width, ResultAt, Rearranged, AddOption, AddNon, IsOption, MissingChar;
    if rest == [] || (j == 0 && rest[0] == "--") || (j > 0 && Width(os, rest, j) > |rest|) {
      LeftAlone(os, rest, j);
    } else if j == 0 {
      if IsOption(rest[0]) {
        ParsedIsRearrangement(os, rest, 1);
      } else {
        ParsedIsRearrangement(os, rest[1..], 0);
        NonRearranged(Parse(os, rest[1..], 0), rest);
      }
    } else {
      var w := Width(os, rest, j);
      if w == 0 {
        assert rest[0..] == rest && rest[..0] == [];
        ParsedIsRearrangement(os, rest, j + 1);
        OptionRearranged(Parse(os, rest, j + 1), rest, 0, ResultAt(os, rest, j));
      } else {
        ParsedIsRearrangement(os, rest[w..], 0);
        OptionRearranged(Parse(os, rest[w..], 0), rest, w, ResultAt(os, rest, j));
      }
    }
  }

  /** The three ends of a scan. */
  lemma LeftAlone(os: string, rest: seq<string>, j: nat)
    requires Scannable(os, rest, j)
    requires rest == [] || (j == 0 && rest[0] == "--") || (j > 0 && Width(os, rest, j) > |rest|)
    ensures Rearranged(Parse(os, rest, j), rest)
  {
    assert rest[|rest|..] == [] && rest[0..] == rest && rest[..0] == [];
  }

  lemma FirstNon(os: string, rest: seq<string>)
    requires rest != [] && !IsOption(rest[0])
    ensures Scannable(os, rest, 0) <==> Scannable(os, rest[1..], 0)
    ensures Scannable(os, rest, 0) ==> Parse(os, rest, 0) == AddNon(rest[0], Parse(os, rest[1..], 0))
  {
    hide Width, ResultAt, AddOption, IsOption, MissingChar, AddNon;
  }

  /** Elements in front that are no options only join the other elements. */
  lemma {:induction false} NonsInFront(os: string, nons: seq<string>, rest: seq<string>)
    requires forall a :: a in nons ==> !IsOption(a)
    ensures Scannable(os, nons + rest, 0) <==> Scannable(os, rest, 0)
    ensures Scannable(os, rest, 0) ==>
              var q := Parse(os, rest, 0);
              Parse(os, nons + rest, 0) == q.(nons := nons + q.nons)
    decreases nons
  {
    hide Scannable, Parse, IsOption;
    if nons == [] {
      assert nons + rest == rest;
    } else {
      var s := nons + rest;
      assert s[1..] == nons[1..] + rest && s[0] == nons[0] && nons[0] in nons;
      FirstNon(os, s);
      NonsInFront(os, nons[1..], rest);
      if Scannable(os, rest, 0) {
        var q := Parse(os, rest, 0);
        assert [nons[0]] + (nons[1..] + q.nons) == nons + q.nons;
      }
    }
  }
}
