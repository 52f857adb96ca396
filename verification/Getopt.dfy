/** `ya_getopt` for short options in its permuting mode (`posixly_correct` == 0, `handle_nonopt_argv` == 0):
    a scanner that keeps its state between calls and rearranges the argument vector as it goes. */
module Getopt {
  import opened GetoptProgress
  import opened GetoptReading
  import opened GetoptRotation
  import opened GetoptSpec

  datatype Return = Done | Found(option: char)

  /** The option string without a leading '+' or '-'. */
  function Stripped(optstring: string): (os: string) {
    if optstring != "" && (optstring[0] == '+' || optstring[0] == '-') then optstring[1..] else optstring
  }

  class Scanner {
    var optind: int
    var optarg: OptArg
    var optopt: char
    var next: nat                  // `ya_optnext`: an offset into argv[optind], 0 for NULL
    var start: nat
    var end: int
    ghost var view: Progress

    constructor (ghost os: string, ghost args: seq<string>)
      requires Scannable(os, args, 0)
      ensures view.results == [] && Valid(args) && Faithful(Parse(os, args, 0), os)
      ensures optind == 1 && next == 0 && start == 0 && end == 0
    {
      optind, optarg, optopt, next, start, end := 1, NoArg, '?', 0, 0, 0;
      view := Progress([], [], args, [], []);
      Begins(os, args);
    }

    /** The arguments behind the program name are laid out as `view` says. */
    ghost predicate Valid(args: seq<string>)
      reads this
    {
      Laid(view, args, optind, next, start, end) && (start == 0 ==> end < optind)
    }

    /** What has been seen, continued by the meaning of the rest, is `all`. */
    ghost predicate Faithful(all: Parsed, os: string)
      reads this
    {
      Continues(all, os, view, next)
    }

    /** Between two calls of a scan whose meaning is `all`. */
    ghost predicate Scanning(argv: array<string>, all: Parsed, os: string)
      requires argv.Length > 0
      reads this, argv
    {
      Valid(argv[1..]) && Faithful(all, os)
    }

    /** The scan has ended and nothing is left to be moved. */
    ghost predicate Finished(argv: array<string>)
      reads this
    {
      optind >= argv.Length && (next != 0 || start == 0)
    }

    /** The scan has ended at the elements that are no options, which are still noted for a rotation although no
        option follows; `end` is stale. */
    ghost predicate Pending(argv: array<string>)
      reads this, argv
    {
      0 < start == optind < argv.Length && end < start && NoOption(argv)
    }

    /** From `ya_optind` on there is no option. */
    ghost predicate NoOption(argv: array<string>)
      reads this, argv
    {
      next == 0 && 0 < optind && forall k :: optind <= k < argv.Length ==> !IsOption(argv[k])
    }

    /** Something is left to be moved exactly if the whole list was scanned and there were other elements. */
    ghost predicate Ended(argv: array<string>, all: Parsed)
      reads this, argv
    {
      if all.ending.AllScanned? && all.nons != [] then Pending(argv) else Finished(argv)
    }

    /** The rotation at the head of `ya_getopt_internal`: one by one, from the last, the elements from
        `start` to `end` are moved behind the options that follow them. With a stale `end` nothing is moved, but
        `ya_optind` is. (Its clamping to 1 cannot apply here, as `start` is positive.) */
    method Rotate(argv: array<string>)
      requires 0 < start <= optind <= argv.Length && end <= optind
      modifies this`optind, this`start, this`end, argv
      ensures start == 0 && optind == old(optind) - (old(end) - old(start))
      ensures end == (if old(start) <= old(end) then old(start) else old(end)) - 1
      ensures argv[..] ==
              if old(start) <= old(end) then Swapped(old(argv[..]), old(start), old(end), old(optind))
              else old(argv[..])
    {
      hide Moved, Rotation;
      ghost var s := argv[..];
      ghost var m := if start <= end then end else start;
      ghost var A, X, Y, Z := s[..start], s[start..m], s[m..optind], s[optind..];
      var last: int := optind - 1;
      optind := optind - (end - start);
      RotationStarts(s, start, m, old(optind));
      while start < end
        invariant start == old(start) && optind == old(optind) - (old(end) - old(start)) && end <= old(end)
        invariant last < argv.Length && if m == old(end) then start <= end && last - end + 1 == |Y| else end == old(end)
        invariant argv[..] == Rotation(A, X, Y, Z, if start <= end then end - start else 0)
        decreases end
      {
        end := end - 1;
        RotationStep(A, X, Y, Z, end - start);
        MoveBehind(argv, end, last);
        last := last - 1;
      }
      RotationEnds(A, X, Y, Z);
      end := end - 1;
      start := 0;
    }

    /** The inner loop: the element at `i` goes to `last`, the ones between move down. */
    static method MoveBehind(argv: array<string>, i: int, last: int)
      requires 0 <= i <= last < argv.Length
      modifies argv
      ensures argv[..] == Moved(old(argv[..]), i, last)
    {
      ghost var s := argv[..];
      var arg := argv[i];
      var k := i;
      while k < last
        invariant i <= k <= last
        invariant forall m :: i < m <= k ==> argv[m - 1] == s[m]
        invariant forall m :: 0 <= m < argv.Length && !(i <= m < k) ==> argv[m] == s[m]
      {
        argv[k] := argv[k + 1];
        k := k + 1;
      }
      argv[k] := arg;
      Shifted(s, argv[..], i, last);
    }

    /** The rotation, if the other elements in front of the last options are still to be moved. */
    method Resume(argv: array<string>, ghost all: Parsed, ghost os: string)
      requires argv.Length > 0 && (Scanning(argv, all, os) || Finished(argv) || Pending(argv))
      modifies this`optind, this`start, this`end, this`view, argv
      ensures argv[0] == old(argv[0])
      ensures old(Scanning(argv, all, os)) ==> Scanning(argv, all, os) && view.results == old(view.results)
      ensures next == 0 ==> start == 0
      ensures old(start) == 0 ==> end == old(end)
      ensures old(Finished(argv)) ==> argv[..] == old(argv[..]) && unchanged(this`optind, this`start, this`end)
      ensures old(Pending(argv)) ==>
                argv[..] == old(argv[..]) && optind == old(optind + (start - end)) && end == old(end) - 1
                && NoOption(argv)
    {
      hide Laid, Continues, Swapped, IsOption;
      if next == 0 && start != 0 {
        ghost var scanning := Scanning(argv, all, os);
        if scanning {
          assert argv[..][1..] == argv[1..];
          NothingLeft(view, argv[1..], optind, start, end);
          LaidAgain(view, argv[..], optind, start, end);
          ContinuesAgain(all, os, view);
          view := PutBack(view);
        }
        Rotate(argv);
        assert argv[..][1..] == argv[1..] && argv[0] == argv[..][0];
        if scanning {
          AnyEnd(view, argv[1..], optind, 0, 0, end);
        }
      }
    }

    /** The elements that are no options are passed over: `end` and `ya_optind` are set at the first option
        behind them, unless there is none. */
    method Skip(argv: array<string>, ghost all: Parsed, ghost os: string) returns (found: bool)
      requires argv.Length > 0 && next == 0 && start == 0 && 0 < optind < argv.Length && end < optind
      requires Scanning(argv, all, os) || NoOption(argv)
      modifies this`optind, this`start, this`end, this`view
      ensures view.results == old(view.results)
      ensures !found ==> Pending(argv) && optind == old(optind) && end == old(end)
      ensures !found && old(Scanning(argv, all, os)) ==>
                Complete(all, argv[1..], optind, view.results) && all.ending.AllScanned? && all.nons != []
      ensures found ==> old(Scanning(argv, all, os)) && old(optind) <= optind < argv.Length && IsOption(argv[optind])
      ensures found ==> view.left == [] && view.rest != [] && view.rest[0] == argv[optind]
      ensures found ==> Laid(view, argv[1..], optind, 1, start, end) && Continues(all, os, view, 0)
      ensures found && start == 0 ==> end < optind
    {
      hide IsOption, Continues, Complete, Laid;
      ghost var v, first, scanning := view, optind, Scanning(argv, all, os);
      var i := optind;
      if !IsOption(argv[optind]) {
        start := optind;
        i := i + 1;
        while i < argv.Length && !IsOption(argv[i])
          invariant first < i <= argv.Length
          invariant forall k :: first <= k < i ==> !IsOption(argv[k])
        {
          i := i + 1;
        }
        if i < argv.Length {
          end := i;
        }
      }
      if scanning {
        assert argv[..][1..] == argv[1..];
        AfterSkip(all, os, v, argv[..], first, old(end), i);
      }
      if i == argv.Length {
        return false;
      }
      optind := i;
      view := Skipped(v, i - first);
      found := true;
    }

    /** `ya_getopt_shortopts`: the option character at `next`. */
    method ShortOpts(argv: array<string>, os: string, ghost all: Parsed) returns (option: char)
      requires argv.Length > 0 && Valid(argv[1..]) && Faithful(all, os)
      requires next != 0 && view.rest != [] && view.left == []
      requires 0 < optind < argv.Length && view.rest[0] == argv[optind]
      modifies this
      ensures Valid(argv[1..]) && Faithful(all, os)
      ensures view == Took(os, old(view), old(next)) && view.results == old(view.results) + [Result(option, optarg)]
      ensures var c := old(argv[optind][next]);
              if Known(os, c) && view.left == [] then optopt == old(optopt) else optopt == c
    {
      hide Laid, Continues, Took;
      ghost var v, j := view, next;
      ContinuesTook(all, os, v, j);
      assert argv[..][1..] == argv[1..];
      RestOfArguments(v, argv[..], optind, next, start, end);
      var arg := argv[optind];
      var opt := arg[next];
      var p := Find(os, opt);
      if p == |os| {
        optarg := NoArg;
        optopt := opt;
        next := next + 1;
        option := '?';
        if next == |arg| {
          optind := optind + 1;
          next := 0;
        }
      } else {
        option := opt;
        if p + 1 < |os| && os[p + 1] == ':' {
          optind := optind + 1;
          if next + 1 == |arg| {
            if p + 2 < |os| && os[p + 2] == ':' {
              optarg := NoArg;
              next := 0;
            } else if optind == argv.Length {
              optarg := NoArg;
              optopt := opt;
              option := if os != "" && os[0] == ':' then ':' else '?';
            } else {
              optarg := OptArg(argv[optind]);
              optind := optind + 1;
              next := 0;
            }
          } else {
            optarg := OptArg(arg[next + 1..]);
            next := 0;
          }
        } else {
          optarg := NoArg;
          if next + 1 == |arg| {
            next := 0;
            optind := optind + 1;
          } else {
            next := next + 1;
          }
        }
      }
      LaidTook(os, v, argv[1..], old(optind), j, start, end);
      view := Took(os, v, j);
    }

    /** The part of `ya_getopt_internal` that looks at the element at `ya_optind`. */
    method Element(argv: array<string>, os: string, ghost all: Parsed) returns (r: Return)
      requires argv.Length > 0 && 0 < optind < argv.Length && (next == 0 ==> start == 0 && end < optind)
      requires Scanning(argv, all, os) || NoOption(argv)
      modifies this
      ensures r.Found? ==> old(Scanning(argv, all, os)) && Scanning(argv, all, os)
      ensures r.Found? ==> view.results == old(view.results) + [Result(r.option, optarg)]
      ensures r.Done? && old(Scanning(argv, all, os)) ==>
                Complete(all, argv[1..], optind, old(view.results)) && (all.ending.Dashes? || all.ending.AllScanned?)
      ensures r.Done? && old(Scanning(argv, all, os)) && all.ending.AllScanned? ==> all.nons != []
      ensures old(NoOption(argv)) ==> r.Done?
      ensures r.Done? && (old(NoOption(argv)) || all.ending.AllScanned?) ==>
                Pending(argv) && optind == old(optind) && end == old(end)
    {
      hide Laid, Continues, Took, Complete, Scannable, Parse, IsOption;
      ghost var scanning := Scanning(argv, all, os);
      if scanning {
        StillScanning(view, argv[1..], optind, next, start, end);
      }
      if next == 0 {
        var found := Skip(argv, all, os);
        if !found {
          optarg := NoArg;
          return Done;
        }
        AtOption(all, os, view, argv[1..], optind, start, end);
        if argv[optind] == "--" {
          optind := optind + 1;
          return Done;
        }
        next := 1;
      }
      assert argv[..][1..] == argv[1..];
      Looking(view, argv[1..], optind, next, start, end);
      RestOfArguments(view, argv[..], optind, next, start, end);
      var option := ShortOpts(argv, os, all);
      r := Found(option);
    }

    /** `ya_getopt_internal` without long options: one call. `all` is the meaning of the whole list. Calls after the
        scan has ended return -1 as well; `ya_optind` stays where it is if nothing is left to be moved, and runs away
        otherwise. */
    method GetOpt(argv: array<string>, optstring: string, ghost all: Parsed) returns (r: Return)
      requires argv.Length > 0
      requires Scanning(argv, all, Stripped(optstring)) || Finished(argv) || Pending(argv)
      modifies this, argv
      ensures argv[0] == old(argv[0])
      ensures r.Found? ==> Scanning(argv, all, Stripped(optstring))
      ensures r.Found? ==> view.results == old(view.results) + [Result(r.option, optarg)]
      ensures r.Done? && old(Scanning(argv, all, Stripped(optstring))) ==>
                Complete(all, argv[1..], optind, old(view.results)) && (all.ending.Dashes? || Ended(argv, all))
      ensures old(Finished(argv)) ==>
                r.Done? && Finished(argv) && argv[..] == old(argv[..]) && optind == old(optind)
      ensures old(Pending(argv)) ==>
                r.Done? && (Pending(argv) || Finished(argv)) && argv[..] == old(argv[..])
                && optind == old(optind + (start - end)) && end == old(end) - 1
      ensures r.Done? && old(Scanning(argv, all, Stripped(optstring))) && old(start) == 0 && !all.ending.Dashes? ==>
                end == old(end)
    {
      hide Laid, Continues, Took, Complete, Scannable, Parse, IsOption;
      if optopt == '?' {
        optopt := '\0';
      }
      var os := Stripped(optstring);
      ghost var scanning := Scanning(argv, all, os);
      if scanning {
        InFront(view, argv[1..], optind, next, start, end);
      }
      Resume(argv, all, os);
      if scanning {
        InFront(view, argv[1..], optind, next, start, end);
      }
      if optind >= argv.Length {
        if scanning {
          ScanEnds(argv, all, os);
        }
        optarg := NoArg;
        return Done;
      }
      r := Element(argv, os, all);
    }

    lemma ScanEnds(argv: array<string>, all: Parsed, os: string)
      requires argv.Length > 0 && Scanning(argv, all, os) && optind >= argv.Length && (next == 0 ==> start == 0)
      ensures Complete(all, argv[1..], optind, view.results) && !all.ending.Dashes? && Ended(argv, all)
    {
      hide Laid, Continues, Complete;
      Finishes(all, os, view, argv[1..], optind, next, start, end);
    }
  }

  /** A whole run, from the first call to the one that returns -1. The results are those that the list means;
      and unless "--" was met or an argument was missing, the arguments are now the options with their
      arguments, up to `optind`, and the other elements, from `optind` on. */
  method Run(argv: array<string>, optstring: string) returns (results: seq<Result>, optind: int, ghost all: Parsed)
    requires argv.Length > 0 && Scannable(Stripped(optstring), argv[1..], 0)
    modifies argv
    ensures argv[0] == old(argv[0]) && all == Parse(Stripped(optstring), old(argv[1..]), 0)
    ensures Complete(all, argv[1..], optind, results) && Rearranged(all, old(argv[1..]))
    ensures multiset(argv[1..]) == multiset(old(argv[1..]))
  {
    hide Complete, Scannable, Parse, Rearranged;
    ghost var os := Stripped(optstring);
    all := Parse(os, argv[1..], 0);
    ParsedIsRearrangement(os, argv[1..], 0);
    var scanner := new Scanner(os, argv[1..]);
    results := [];
    while true
      invariant fresh(scanner) && argv[0] == old(argv[0])
      invariant scanner.Scanning(argv, all, os) && scanner.view.results == results
      decreases |all.results| - |results|
    {
      var r := scanner.GetOpt(argv, optstring, all);
      if r.Done? {
        optind := scanner.optind;
        CompleteIsPermutation(all, argv[1..], optind, results, old(argv[1..]));
        return;
      }
      results := results + [Result(r.option, scanner.optarg)];
      ResultsSoFar(all, os, scanner.view, scanner.next);
    }
  }

  /** A whole run over arguments that have been written from options and operands, in any order: exactly these
      options with their arguments are returned, and the operands stand behind them, from `optind` on. */
  method RunReadsBack(argv: array<string>, ghost quiet: bool, ghost decls: seq<Declaration>, optstring: string,
                      ghost items: seq<Item>)
    returns (results: seq<Result>, optind: int)
    requires WellDeclared(decls) && forall item :: item in items ==> Fits(decls, item)
    requires Stripped(optstring) == OptString(quiet, decls)
    requires argv.Length > 0 && argv[1..] == AllElements(items)
    modifies argv
    ensures results == AllAnswers(decls, items)
    ensures argv[0] == old(argv[0]) && argv[1..] == OptionElements(items) + OperandTexts(items)
    ensures optind == 1 + |OptionElements(items)|
  {
    hide Fits, OptString, Parse, Scannable, Rearranged, Stripped;
    ReadsBack(quiet, decls, items);
    ghost var all;
    results, optind, all := Run(argv, optstring);
    assert OptionElements(items) + OperandTexts(items) + [] == OptionElements(items) + OperandTexts(items);
  }

  /** For two operands and no option `ya_optind` runs away: it is right after the first call, and behind the end of
      the list after two more. */
  method OptindRunsAway(argv: array<string>) returns (first: int, second: int, third: int)
    requires argv.Length == 3 && !IsOption(argv[1]) && !IsOption(argv[2])
    modifies argv
    ensures argv[..] == old(argv[..]) && (first, second, third) == (1, 2, 5)
  {
    hide Complete, Laid, IsOption, Parse, Scannable, Continues;
    ghost var s, all := argv[..], Parsed([], [], argv[1..], AllScanned, []);
    assert argv[..][1..] == argv[1..];
    TwoOperands(s, all);
    var scanner := new Scanner("", argv[1..]);
    var r := scanner.GetOpt(argv, "", all);
    if r.Found? {
      ResultsSoFar(all, "", scanner.view, scanner.next);
      assert false;
    }
    OperandsInPlace(all, argv[1..], scanner.optind, []);
    assert argv[..] == [argv[0]] + argv[1..];
    first := scanner.optind;
    r := scanner.GetOpt(argv, "", all);
    second := scanner.optind;
    r := scanner.GetOpt(argv, "", all);
    third := scanner.optind;
  }

  lemma TwoOperands(argv: seq<string>, all: Parsed)
    requires |argv| == 3 && !IsOption(argv[1]) && !IsOption(argv[2])
    requires all == Parsed([], [], argv[1..], AllScanned, [])
    ensures Scannable("", argv[1..], 0) && Parse("", argv[1..], 0) == all
  {
    hide IsOption;
    assert argv[1..] == argv[1..] + [];
    NonsInFront("", argv[1..], []);
  }

  lemma OperandsInPlace(all: Parsed, args: seq<string>, optind: int, results: seq<Result>)
    requires Complete(all, args, optind, results) && all.opts == [] && all.ending.AllScanned?
    ensures args == all.nons && optind == 1
  {
  }
}
