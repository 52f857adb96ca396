/** What the variables of the scanner mean between two calls, and how each step carries the meaning on. */
module GetoptProgress {
  import opened GetoptRotation
  import opened GetoptSpec

  /** How far a scan has come: the option elements `opts` and the other elements `nons` seen so far, the
      elements `rest` still to be scanned, an option `left` without its argument, and what was returned. */
  datatype Progress =
    Progress(opts: seq<string>, nons: seq<string>, rest: seq<string>, left: seq<string>, results: seq<Result>)

  /** Where these elements are among the arguments behind the program name. While an option is being read,
      the other elements stand in front of it, from `start` to `end`; they are still there when the option
      has been completed (`next` == 0), and the next call moves them behind it. */
  ghost predicate Laid(v: Progress, args: seq<string>, optind: int, next: nat, start: int, end: int) {
    && optind == 1 + |v.opts| + |v.nons| + |v.left|
    && (v.left != [] ==> v.rest == [] && next != 0)
    && (next != 0 ==> v.rest + v.left != [])
    && (forall a :: a in v.nons ==> !IsOption(a))
    && (if start == 0 then v.nons == [] else end == start + |v.nons|)
    && (if next == 0 && start != 0
        then 1 <= start <= 1 + |v.opts| && args == v.opts[..start - 1] + v.nons + v.opts[start - 1..] + v.rest
        else (start != 0 ==> start == 1 + |v.opts|) && args == v.opts + v.nons + v.left + v.rest)
  }

  ghost function Extended(v: Progress, p: Parsed): Parsed {
    Parsed(v.results + p.results, v.opts + p.opts, v.nons + p.nons, p.ending, p.left)
  }

  /** What has been seen, continued by the meaning of the rest, is the meaning `all` of the whole list. */
  ghost predicate Continues(all: Parsed, os: string, v: Progress, next: nat) {
    if v.left != [] then all == Parsed(v.results, v.opts, v.nons, MissingArg, v.left)
    else Scannable(os, v.rest, next) && all == Extended(v, Parse(os, v.rest, next))
  }

  /** How a scan may leave the arguments: the options, then the other elements, with `optind` at the first
      of these. Behind "--", however, `optind` is behind the other elements seen before it as well, and a
      missing argument leaves it at the end of the list. */
  ghost predicate Complete(all: Parsed, args: seq<string>, optind: int, results: seq<Result>) {
    && results == all.results && args == all.opts + all.nons + all.left
    && (all.ending.AllScanned? ==> optind == 1 + |all.opts| && all.left == [])
    && (all.ending.Dashes? ==> optind == 1 + |all.opts| + |all.nons| + 1 && all.left != [] && all.left[0] == "--")
    && (all.ending.MissingArg? ==> optind == 1 + |args|)
  }

  /** The arguments have only been permuted. */
  lemma CompleteIsPermutation(all: Parsed, args: seq<string>, optind: int, results: seq<Result>, rest: seq<string>)
    requires Complete(all, args, optind, results) && Rearranged(all, rest)
    ensures multiset(args) == multiset(rest)
  {
    hide IsOption;
    var n := |rest| - |all.left|;
    InterleavedIsPermutation(all.opts, all.nons, rest[..n]);
    assert rest == rest[..n] + all.left;
    assert multiset(args) == multiset(all.opts + all.nons) + multiset(all.left);
  }

  /** The operands: the other elements, and everything behind "--". */
  ghost function Operands(all: Parsed): seq<string>
    requires all.ending.Dashes? ==> all.left != []
  {
    all.nons + (if all.ending.Dashes? then all.left[1..] else [])
  }

  /** A caller that goes on at `optind` sees all operands exactly when the whole list was scanned or no
      other element was met before the scan stopped. */
  lemma OperandsFromOptind(all: Parsed, args: seq<string>, optind: int, results: seq<Result>)
    requires Complete(all, args, optind, results)
    ensures 1 <= optind <= |args| + 1
    ensures args[optind - 1..] == Operands(all) <==> all.ending.AllScanned? || all.nons == []
  {
    assert |args| == |all.opts| + |all.nons| + |all.left|;
    if all.ending.Dashes? {
      assert args[optind - 1..] == all.left[1..];
      assert all.nons == [] ==> all.nons + all.left[1..] == all.left[1..];
    }
  }

  /** It does not for `x -- y`: `x` stays in front of "--", and `ya_optind` is behind both. */
  lemma OperandBeforeDashes(args: seq<string>, optind: int, results: seq<Result>)
    ensures Scannable("", ["x", "--", "y"], 0)
    ensures Complete(Parse("", ["x", "--", "y"], 0), args, optind, results) ==> args == ["x", "--", "y"] && optind == 3
  {
    var rest := ["x", "--", "y"];
    assert rest[1..] == ["--", "y"];
    assert Scannable("", ["--", "y"], 0);
    assert Parse("", ["--", "y"], 0) == Parsed([], [], [], Dashes, ["--", "y"]);
    assert Parse("", rest, 0) == Parsed([], [], ["x"], Dashes, ["--", "y"]);
  }

  lemma Begins(os: string, args: seq<string>)
    requires Scannable(os, args, 0)
    ensures var v := Progress([], [], args, [], []);
            Laid(v, args, 1, 0, 0, 0) && Continues(Parse(os, args, 0), os, v, 0)
  {
    hide Scannable, Parse;
    var p := Parse(os, args, 0);
    assert [] + p.results == p.results && [] + p.opts == p.opts && [] + p.nons == p.nons;
  }

  /** The other elements move behind the option, and will be scanned again. */
  ghost function PutBack(v: Progress): Progress {
    v.(nons := [], rest := v.nons + v.rest)
  }

  lemma LaidAgain(v: Progress, argv: seq<string>, optind: int, start: int, end: int)
    requires argv != [] && start != 0 && Laid(v, argv[1..], optind, 0, start, end)
    ensures 0 < start <= end <= optind <= |argv|
    ensures var s := Swapped(argv, start, end, optind);
            |s| == |argv| && s[0] == argv[0] && Laid(PutBack(v), s[1..], optind - (end - start), 0, 0, 0)
  {
    hide Swapped, IsOption;
    var k := start - 1;
    Pieces(argv, v.opts[..k], v.nons, v.opts[k..], v.rest);
    SwappedPieces([argv[0]] + v.opts[..k], v.nons, v.opts[k..], v.rest);
    Joined(argv[0], v.opts, k, v.nons, v.rest);
  }

  lemma Pieces(argv: seq<string>, A: seq<string>, X: seq<string>, Y: seq<string>, Z: seq<string>)
    requires argv != [] && argv[1..] == A + X + Y + Z
    ensures argv == ([argv[0]] + A) + X + Y + Z
  {
    assert argv == [argv[0]] + argv[1..];
    assert [argv[0]] + (A + X + Y + Z) == ([argv[0]] + A) + X + Y + Z;
  }

  lemma Joined(name: string, opts: seq<string>, k: nat, nons: seq<string>, rest: seq<string>)
    requires k <= |opts|
    ensures var s := ([name] + opts[..k]) + opts[k..] + nons + rest;
            s[0] == name && s[1..] == opts + [] + [] + (nons + rest)
  {
    assert opts[..k] + opts[k..] == opts;
    assert ([name] + opts[..k]) + opts[k..] + nons + rest == [name] + (opts[..k] + opts[k..] + nons + rest);
    assert opts[..k] + opts[k..] + nons + rest == opts + [] + [] + (nons + rest);
  }

  lemma ContinuesAgain(all: Parsed, os: string, v: Progress)
    requires Continues(all, os, v, 0) && v.left == [] && forall a :: a in v.nons ==> !IsOption(a)
    ensures Continues(all, os, PutBack(v), 0)
  {
    hide Scannable, Parse, IsOption;
    NonsInFront(os, v.nons, v.rest);
    var p := Parse(os, v.rest, 0);
    assert [] + (v.nons + p.nons) == v.nons + p.nons;
  }

  /** The first `m` elements that are no options are skipped. */
  ghost function Skipped(v: Progress, m: nat): Progress
    requires m <= |v.rest|
  {
    v.(nons := v.rest[..m], rest := v.rest[m..])
  }

  lemma ContinuesSkipped(all: Parsed, os: string, v: Progress, m: nat)
    requires Continues(all, os, v, 0) && v.left == [] && v.nons == [] && m <= |v.rest|
    requires forall k :: 0 <= k < m ==> !IsOption(v.rest[k])
    ensures Continues(all, os, Skipped(v, m), 0)
    ensures m == |v.rest| ==> all == Parsed(v.results, v.opts, v.rest, AllScanned, [])
  {
    var p := Parse(os, v.rest, 0);
    hide Scannable, IsOption;
    NonsInFront(os, v.rest[..m], v.rest[m..]);
    assert v.rest[..m] + v.rest[m..] == v.rest;
    var q := Parse(os, v.rest[m..], 0);
    assert [] + (v.rest[..m] + q.nons) == v.rest[..m] + q.nons;
    if m == |v.rest| {
      assert v.rest[m..] == [] && v.rest[..m] + [] == v.rest && v.opts + [] == v.opts && v.results + [] == v.results;
    }
  }

  lemma LaidSkipped(v: Progress, args: seq<string>, optind: int, end: int, m: nat, newEnd: int)
    requires Laid(v, args, optind, 0, 0, end) && m < |v.rest| && (m != 0 ==> newEnd == optind + m)
    requires forall k :: 0 <= k < m ==> !IsOption(v.rest[k])
    ensures Laid(Skipped(v, m), args, optind + m, 1, if m == 0 then 0 else optind, newEnd)
  {
    assert v.rest[..m] + v.rest[m..] == v.rest;
    assert v.opts + [] + [] + v.rest == v.opts + v.rest[..m] + [] + v.rest[m..];
  }

  lemma Scanned(all: Parsed, v: Progress, args: seq<string>, optind: int, end: int)
    requires Laid(v, args, optind, 0, 0, end) && all == Parsed(v.results, v.opts, v.rest, AllScanned, [])
    ensures Complete(all, args, optind, v.results)
  {
    assert args == v.opts + [] + [] + v.rest;
  }

  /** Everything has been scanned, or an argument was missing. */
  lemma Finishes(all: Parsed, os: string, v: Progress, args: seq<string>, optind: int, next: nat, start: int, end: int)
    requires Laid(v, args, optind, next, start, end) && (next == 0 ==> start == 0)
    requires Continues(all, os, v, next) && optind > |args|
    ensures Complete(all, args, optind, v.results) && !all.ending.Dashes? && (all.ending.AllScanned? ==> all.nons == [])
  {
    if v.left == [] {
      assert v.rest == [] && v.nons == [];
      assert v.opts + [] == v.opts && v.results + [] == v.results;
    }
  }

  lemma Dashed(all: Parsed, os: string, v: Progress, args: seq<string>, optind: int)
    requires v.left == [] && v.rest != [] && v.rest[0] == "--" && Continues(all, os, v, 0)
    requires args == v.opts + v.nons + v.rest && optind == 1 + |v.opts| + |v.nons|
    ensures Complete(all, args, optind + 1, v.results) && all.ending.Dashes?
  {
    assert v.opts + [] == v.opts && v.nons + [] == v.nons && v.results + [] == v.results;
  }

  /** What a call returns for the option character at `next`. */
  ghost function Returned(os: string, rest: seq<string>, next: nat): Result
    requires rest != [] && next < |rest[0]|
  {
    if Width(os, rest, next) > |rest| then Result(MissingChar(os), NoArg) else ResultAt(os, rest, next)
  }

  /** The option character at `next` has been handled. */
  ghost function Took(os: string, v: Progress, next: nat): (t: Progress)
    requires v.rest != [] && next < |v.rest[0]|
    ensures t.results == v.results + [Returned(os, v.rest, next)]
    ensures t.left == [] <==> Width(os, v.rest, next) <= |v.rest|
  {
    var w, results := Width(os, v.rest, next), v.results + [Returned(os, v.rest, next)];
    if w > |v.rest| then v.(left := v.rest, rest := [], results := results)
    else Progress(v.opts + v.rest[..w], v.nons, v.rest[w..], [], results)
  }

  ghost function NextAfter(os: string, v: Progress, next: nat): nat
    requires v.rest != [] && next < |v.rest[0]|
  {
    var w := Width(os, v.rest, next);
    if w > |v.rest| then next else if w == 0 then next + 1 else 0
  }

  lemma ContinuesTook(all: Parsed, os: string, v: Progress, next: nat)
    requires Continues(all, os, v, next) && v.left == [] && v.rest != [] && next != 0
    ensures next < |v.rest[0]|
    ensures Continues(all, os, Took(os, v, next), NextAfter(os, v, next))
  {
    hide Width, ResultAt, MissingChar;
    var w := Width(os, v.rest, next);
    if w > |v.rest| {
      assert v.opts + [] == v.opts && v.nons + [] == v.nons;
    } else {
      TookExtends(v, w, ResultAt(os, v.rest, next), Parse(os, v.rest[w..], if w == 0 then next + 1 else 0));
    }
  }

  lemma TookExtends(v: Progress, w: nat, r: Result, p: Parsed)
    requires w <= |v.rest|
    ensures Extended(v, AddOption(r, v.rest[..w], p)) ==
            Extended(Progress(v.opts + v.rest[..w], v.nons, v.rest[w..], [], v.results + [r]), p)
    ensures w == 0 ==> v.rest[..w] == [] && v.rest[w..] == v.rest
  {
    assert v.results + ([r] + p.results) == v.results + [r] + p.results;
    assert v.opts + (v.rest[..w] + p.opts) == v.opts + v.rest[..w] + p.opts;
  }

  lemma LaidTook(os: string, v: Progress, args: seq<string>, optind: int, next: nat, start: int, end: int)
    requires Laid(v, args, optind, next, start, end) && v.rest != [] && next != 0 && next < |v.rest[0]|
    requires Width(os, v.rest, next) > |v.rest| ==> |v.rest| == 1
    ensures var w := Width(os, v.rest, next);
            Laid(Took(os, v, next), args, optind + (if w > |v.rest| then 1 else w), NextAfter(os, v, next), start, end)
  {
    hide Width, ResultAt, MissingChar, IsOption;
    var w := Width(os, v.rest, next);
    assert args == v.opts + v.nons + [] + v.rest;
    if w > |v.rest| {
    } else if w == 0 {
      assert v.rest[..0] == [] && v.rest[0..] == v.rest && v.opts + [] == v.opts;
    } else {
      var o := v.opts + v.rest[..w];
      assert v.rest == v.rest[..w] + v.rest[w..];
      if start != 0 {
        assert o[..start - 1] == v.opts && o[start - 1..] == v.rest[..w];
      } else {
        assert v.opts + [] + [] + v.rest == o + [] + [] + v.rest[w..];
      }
    }
  }

  lemma NothingLeft(v: Progress, args: seq<string>, optind: int, start: int, end: int)
    requires Laid(v, args, optind, 0, start, end)
    ensures v.left == [] && forall a :: a in v.nons ==> !IsOption(a)
  {
  }

  lemma InFront(v: Progress, args: seq<string>, optind: int, next: nat, start: nat, end: int)
    requires Laid(v, args, optind, next, start, end)
    ensures 0 < optind && if start == 0 then v.nons == [] else start <= end
  {
  }

  /** Without other elements, `end` does not matter. */
  lemma AnyEnd(v: Progress, args: seq<string>, optind: int, next: nat, end: int, newEnd: int)
    requires Laid(v, args, optind, next, 0, end)
    ensures Laid(v, args, optind, next, 0, newEnd)
  {
  }

  /** The element at `ya_optind` is the first of the rest. */
  lemma RestOfArguments(v: Progress, argv: seq<string>, optind: int, next: nat, start: int, end: int)
    requires argv != [] && v.left == [] && Laid(v, argv[1..], optind, next, start, end)
    requires next == 0 ==> start == 0
    ensures |argv| - optind == |v.rest|
    ensures forall k :: optind <= k < |argv| ==> v.rest[k - optind] == argv[k]
  {
    var args := argv[1..];
    forall k | optind <= k < |argv|
      ensures v.rest[k - optind] == argv[k]
    {
      assert argv[k] == args[k - 1];
    }
  }

  /** What was returned so far is the beginning of what there is to return. */
  lemma ResultsSoFar(all: Parsed, os: string, v: Progress, next: nat)
    requires Continues(all, os, v, next)
    ensures v.results <= all.results
  {
  }

  /** Reading the first option starts behind its '-'. */
  lemma ContinuesInside(all: Parsed, os: string, v: Progress)
    requires Continues(all, os, v, 0) && v.left == [] && v.rest != [] && IsOption(v.rest[0]) && v.rest[0] != "--"
    ensures Continues(all, os, v, 1)
  {
  }

  /** The arguments while an option is being looked at. */
  lemma Looking(v: Progress, args: seq<string>, optind: int, next: nat, start: int, end: int)
    requires Laid(v, args, optind, next, start, end) && next != 0 && v.left == []
    ensures args == v.opts + v.nons + v.rest && optind == 1 + |v.opts| + |v.nons| && v.rest != []
  {
    assert v.opts + v.nons + [] + v.rest == v.opts + v.nons + v.rest;
  }

  lemma StillScanning(v: Progress, args: seq<string>, optind: int, next: nat, start: int, end: int)
    requires Laid(v, args, optind, next, start, end) && optind <= |args|
    ensures v.left == []
  {
  }

  /** The elements from `optind` to `i` are no options, and have been passed over. */
  lemma AfterSkip(all: Parsed, os: string, v: Progress, argv: seq<string>, optind: int, end: int, i: int)
    requires argv != [] && Laid(v, argv[1..], optind, 0, 0, end) && Continues(all, os, v, 0)
    requires optind <= i <= |argv| && optind < |argv| && forall k :: optind <= k < i ==> !IsOption(argv[k])
    ensures i == |argv| ==>
              Complete(all, argv[1..], optind, v.results) && all.ending.AllScanned? && all.nons != []
    ensures i < |argv| ==>
              var m := i - optind;
              && m < |v.rest| && v.left == [] && v.rest[m] == argv[i]
              && Laid(Skipped(v, m), argv[1..], i, 1, if m == 0 then 0 else optind, if m == 0 then end else i)
              && Continues(all, os, Skipped(v, m), 0)
  {
    hide Laid, Continues, Complete, IsOption;
    StillScanning(v, argv[1..], optind, 0, 0, end);
    InFront(v, argv[1..], optind, 0, 0, end);
    RestOfArguments(v, argv, optind, 0, 0, end);
    var m := i - optind;
    assert forall k :: 0 <= k < m ==> v.rest[k] == argv[optind + k];
    ContinuesSkipped(all, os, v, m);
    if i == |argv| {
      Scanned(all, v, argv[1..], optind, end);
    } else {
      LaidSkipped(v, argv[1..], optind, end, m, if m == 0 then end else i);
    }
  }

  /** An option has been found: it is read from behind its '-', unless it ends the scan. */
  lemma AtOption(all: Parsed, os: string, v: Progress, args: seq<string>, optind: int, start: int, end: int)
    requires Laid(v, args, optind, 1, start, end) && Continues(all, os, v, 0)
    requires v.left == [] && v.rest != [] && IsOption(v.rest[0])
    ensures v.rest[0] == "--" ==> Complete(all, args, optind + 1, v.results) && all.ending.Dashes?
    ensures v.rest[0] != "--" ==> Continues(all, os, v, 1)
  {
    hide Laid, Continues, Complete, IsOption;
    Looking(v, args, optind, 1, start, end);
    if v.rest[0] == "--" {
      Dashed(all, os, v, args, optind);
    } else {
      ContinuesInside(all, os, v);
    }
  }
}
