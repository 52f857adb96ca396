/** What options are: an option string is written from declarations, argument elements from options, arguments and
    operands, and scanning reads back what was written. */
module GetoptReading {
  import opened GetoptSpec

  // ---- writing an option string ----

  datatype Kind = Plain | Required | Optional
  datatype Declaration = Declaration(option: char, kind: Kind)

  function Colons(kind: Kind): string {
    match kind
    case Plain => ""
    case Required => ":"
    case Optional => "::"
  }

  function Declared(decls: seq<Declaration>): string {
    if decls == [] then "" else [decls[0].option] + Colons(decls[0].kind) + Declared(decls[1..])
  }

  /** A leading ':' makes a missing argument return ':'. */
  function OptString(quiet: bool, decls: seq<Declaration>): string {
    (if quiet then ":" else "") + Declared(decls)
  }

  ghost predicate WellDeclared(decls: seq<Declaration>) {
    && (forall i :: 0 <= i < |decls| ==> decls[i].option != ':')
    && (forall i, j :: 0 <= i < j < |decls| ==> decls[i].option != decls[j].option)
  }

  // ---- writing elements ----

  /** Options that take no argument may stand together, and an option with an argument may follow them. The
      argument is attached, or the next element, or an optional one is not given. */
  datatype Item =
    | Cluster(flags: string)
    | Attached(flags: string, option: char, arg: string)
    | Separate(flags: string, option: char, arg: string)
    | Omitted(flags: string, option: char)
    | Operand(text: string)

  function Elements(item: Item): seq<string> {
    match item
    case Cluster(flags) => ["-" + flags]
    case Attached(flags, option, arg) => ["-" + flags + [option] + arg]
    case Separate(flags, option, arg) => ["-" + flags + [option], arg]
    case Omitted(flags, option) => ["-" + flags + [option]]
    case Operand(text) => [text]
  }

  /** Declared without argument, or not declared at all. */
  ghost predicate IsFlag(decls: seq<Declaration>, c: char) {
    c != ':' && forall i :: 0 <= i < |decls| && decls[i].option == c ==> decls[i].kind == Plain
  }

  ghost predicate Fits(decls: seq<Declaration>, item: Item) {
    match item
    case Cluster(flags) => flags != "" && flags != "-" && forall c :: c in flags ==> IsFlag(decls, c)
    case Attached(flags, option, arg) =>
      && arg != "" && (forall c :: c in flags ==> IsFlag(decls, c))
      && (Declaration(option, Required) in decls || Declaration(option, Optional) in decls)
    case Separate(flags, option, arg) =>
      && Declaration(option, Required) in decls && flags + [option] != "-"
      && (forall c :: c in flags ==> IsFlag(decls, c))
    case Omitted(flags, option) =>
      && Declaration(option, Optional) in decls && flags + [option] != "-"
      && (forall c :: c in flags ==> IsFlag(decls, c))
    case Operand(text) => !IsOption(text)
  }

  /** An option that is not declared gives '?'. */
  ghost function FlagAnswer(decls: seq<Declaration>, c: char): Result {
    Result(if Declaration(c, Plain) in decls then c else '?', NoArg)
  }

  ghost function FlagAnswers(decls: seq<Declaration>, flags: string): seq<Result> {
    if flags == "" then [] else [FlagAnswer(decls, flags[0])] + FlagAnswers(decls, flags[1..])
  }

  ghost function Answers(decls: seq<Declaration>, item: Item): seq<Result> {
    match item
    case Cluster(flags) => FlagAnswers(decls, flags)
    case Attached(flags, option, arg) => FlagAnswers(decls, flags) + [Result(option, OptArg(arg))]
    case Separate(flags, option, arg) => FlagAnswers(decls, flags) + [Result(option, OptArg(arg))]
    case Omitted(flags, option) => FlagAnswers(decls, flags) + [Result(option, NoArg)]
    case Operand(_) => []
  }

  function AllElements(items: seq<Item>): seq<string> {
    if items == [] then [] else Elements(items[0]) + AllElements(items[1..])
  }

  ghost function AllAnswers(decls: seq<Declaration>, items: seq<Item>): seq<Result> {
    if items == [] then [] else Answers(decls, items[0]) + AllAnswers(decls, items[1..])
  }

  function OptionElements(items: seq<Item>): seq<string> {
    if items == [] then []
    else (if items[0].Operand? then [] else Elements(items[0])) + OptionElements(items[1..])
  }

  function OperandTexts(items: seq<Item>): seq<string> {
    if items == [] then [] else (if items[0].Operand? then [items[0].text] else []) + OperandTexts(items[1..])
  }

  // ---- what the option string says ----

  lemma FindSkips(x: char, kind: Kind, s: string, c: char)
    requires c != x && c != ':'
    ensures Find([x] + Colons(kind) + s, c) == 1 + |Colons(kind)| + Find(s, c)
  {
    var t := [x] + Colons(kind) + s;
    match kind {
      case Plain => assert t[1..] == s;
      case Required => assert t[1..] == ":" + s && t[1..][1..] == s;
      case Optional => assert t[1..] == "::" + s && t[1..][1..] == ":" + s && t[1..][1..][1..] == s;
    }
  }

  /** What stands in front of the part of the option string where the option is found does not matter. */
  lemma FoundBehind(pre: string, s: string, c: char)
    requires Find(pre + s, c) == |pre| + Find(s, c)
    ensures Known(pre + s, c) <==> Known(s, c)
    ensures TakesArg(pre + s, c) <==> TakesArg(s, c)
    ensures ArgOptional(pre + s, c) <==> ArgOptional(s, c)
  {
    hide Find;
  }

  lemma FoundHere(d: Declaration, s: string)
    requires s == "" || s[0] != ':'
    ensures var os := [d.option] + Colons(d.kind) + s;
            && Known(os, d.option) && (TakesArg(os, d.option) <==> d.kind != Plain)
            && (ArgOptional(os, d.option) <==> d.kind == Optional)
  {
  }

  lemma DeclaredStart(decls: seq<Declaration>)
    requires WellDeclared(decls)
    ensures Declared(decls) == "" || Declared(decls)[0] != ':'
  {
  }

  lemma {:induction false} FindDeclared(decls: seq<Declaration>, d: Declaration)
    requires WellDeclared(decls) && d in decls
    ensures var os := Declared(decls);
            && Known(os, d.option) && (TakesArg(os, d.option) <==> d.kind != Plain)
            && (ArgOptional(os, d.option) <==> d.kind == Optional)
  {
    hide Find, Known, TakesArg, ArgOptional, Colons;
    DeclaredStart(decls[1..]);
    if decls[0] == d {
      FoundHere(d, Declared(decls[1..]));
    } else {
      var x := decls[0];
      FindDeclared(decls[1..], d);
      FindSkips(x.option, x.kind, Declared(decls[1..]), d.option);
      FoundBehind([x.option] + Colons(x.kind), Declared(decls[1..]), d.option);
    }
  }

  lemma {:induction false} FindUndeclared(decls: seq<Declaration>, c: char)
    requires c != ':' && forall i :: 0 <= i < |decls| ==> decls[i].option != c
    ensures !Known(Declared(decls), c)
  {
    hide Colons;
    if decls != [] {
      FindUndeclared(decls[1..], c);
      FindSkips(decls[0].option, decls[0].kind, Declared(decls[1..]), c);
    }
  }

  lemma FindQuiet(quiet: bool, decls: seq<Declaration>, c: char)
    requires c != ':'
    ensures var os, s := OptString(quiet, decls), Declared(decls);
            && (Known(os, c) <==> Known(s, c)) && (TakesArg(os, c) <==> TakesArg(s, c))
            && (ArgOptional(os, c) <==> ArgOptional(s, c))
  {
    var pre := if quiet then ":" else "";
    if quiet {
      assert (":" + Declared(decls))[1..] == Declared(decls);
    } else {
      assert "" + Declared(decls) == Declared(decls);
    }
    FoundBehind(pre, Declared(decls), c);
  }

  lemma OptionIs(quiet: bool, decls: seq<Declaration>, d: Declaration)
    requires WellDeclared(decls) && d in decls
    ensures var os := OptString(quiet, decls);
            && Known(os, d.option) && (TakesArg(os, d.option) <==> d.kind != Plain)
            && (ArgOptional(os, d.option) <==> d.kind == Optional)
  {
    hide Known, TakesArg, ArgOptional;
    FindDeclared(decls, d);
    FindQuiet(quiet, decls, d.option);
  }

  lemma FlagIs(quiet: bool, decls: seq<Declaration>, c: char)
    requires WellDeclared(decls) && IsFlag(decls, c)
    ensures var os := OptString(quiet, decls);
            !TakesArg(os, c) && (Known(os, c) <==> Declaration(c, Plain) in decls)
  {
    hide OptString, Find;
    if i :| 0 <= i < |decls| && decls[i].option == c {
      assert decls[i] == Declaration(c, Plain);
      OptionIs(quiet, decls, decls[i]);
    } else {
      FindUndeclared(decls, c);
      FindQuiet(quiet, decls, c);
    }
  }

  lemma QuietIs(quiet: bool, decls: seq<Declaration>)
    requires WellDeclared(decls)
    ensures MissingChar(OptString(quiet, decls)) == if quiet then ':' else '?'
  {
    DeclaredStart(decls);
  }

  // ---- scanning what was written ----

  /** `p` continued in front by `results`, `opts` and `nons`. */
  ghost function Behind(results: seq<Result>, opts: seq<string>, nons: seq<string>, p: Parsed): Parsed {
    Parsed(results + p.results, opts + p.opts, nons + p.nons, p.ending, p.left)
  }

  lemma BehindBoth(r: seq<Result>, o: seq<string>, n: seq<string>, r': seq<Result>, o': seq<string>, n': seq<string>,
                   p: Parsed)
    ensures Behind(r, o, n, Behind(r', o', n', p)) == Behind(r + r', o + o', n + n', p)
  {
    assert r + (r' + p.results) == r + r' + p.results;
    assert o + (o' + p.opts) == o + o' + p.opts;
    assert n + (n' + p.nons) == n + n' + p.nons;
  }

  lemma BehindFlags(r: seq<Result>, r': seq<Result>, o: seq<string>, p: Parsed)
    ensures Behind(r, [], [], Behind(r', o, [], p)) == Behind(r + r', o, [], p)
  {
    BehindBoth(r, [], [], r', o, [], p);
    var none: seq<string> := [];
    assert none + o == o && none + none == none;
  }

  /** A flag that is followed by more characters. */
  lemma FlagStep(quiet: bool, decls: seq<Declaration>, e: string, tail: seq<string>, j: nat)
    requires WellDeclared(decls) && 0 < j && j + 1 < |e| && IsFlag(decls, e[j])
    ensures var os := OptString(quiet, decls);
            && (Scannable(os, [e] + tail, j) <==> Scannable(os, [e] + tail, j + 1))
            && (Scannable(os, [e] + tail, j) ==>
                  Parse(os, [e] + tail, j)
                    == Behind([FlagAnswer(decls, e[j])], [], [], Parse(os, [e] + tail, j + 1)))
  {
    hide OptString, Known, TakesArg, IsFlag;
    FlagIs(quiet, decls, e[j]);
    assert ([e] + tail)[0] == e;
  }

  lemma {:induction false} FlagsRead(quiet: bool, decls: seq<Declaration>, e: string, tail: seq<string>, j: nat, n: nat)
    requires WellDeclared(decls) && 0 < j <= n < |e| && forall c :: c in e[j..n] ==> IsFlag(decls, c)
    ensures var os := OptString(quiet, decls);
            && (Scannable(os, [e] + tail, j) <==> Scannable(os, [e] + tail, n))
            && (Scannable(os, [e] + tail, j) ==>
                  Parse(os, [e] + tail, j)
                    == Behind(FlagAnswers(decls, e[j..n]), [], [], Parse(os, [e] + tail, n)))
    decreases n - j
  {
    hide OptString, Scannable, Parse, IsFlag;
    if j < n {
      assert e[j..n] == [e[j]] + e[j + 1..n];
      FlagStep(quiet, decls, e, tail, j);
      FlagsRead(quiet, decls, e, tail, j + 1, n);
      var os := OptString(quiet, decls);
      if Scannable(os, [e] + tail, n) {
        BehindFlags([FlagAnswer(decls, e[j])], FlagAnswers(decls, e[j + 1..n]), [], Parse(os, [e] + tail, n));
      }
    } else if Scannable(OptString(quiet, decls), [e] + tail, n) {
      Nothing(Parse(OptString(quiet, decls), [e] + tail, n));
    }
  }

  lemma Nothing(p: Parsed)
    ensures Behind([], [], [], p) == p
  {
  }

  /** The last flag of a cluster. */
  lemma LastFlag(quiet: bool, decls: seq<Declaration>, e: string, tail: seq<string>)
    requires WellDeclared(decls) && 1 < |e| && IsFlag(decls, e[|e| - 1])
    ensures var os := OptString(quiet, decls);
            Scannable(os, tail, 0) ==>
              && Scannable(os, [e] + tail, |e| - 1)
              && Parse(os, [e] + tail, |e| - 1)
                   == Behind([FlagAnswer(decls, e[|e| - 1])], [e], [], Parse(os, tail, 0))
  {
    hide OptString, Known, TakesArg, IsFlag;
    FlagIs(quiet, decls, e[|e| - 1]);
    var s := [e] + tail;
    assert s[0] == e && s[1..] == tail && s[..1] == [e];
  }

  /** The option at `j` with its argument, attached or not, or without an optional one. */
  lemma OptionRead(quiet: bool, decls: seq<Declaration>, e: string, more: seq<string>, tail: seq<string>, j: nat,
                   d: Declaration, arg: OptArg)
    requires WellDeclared(decls) && d in decls && d.kind != Plain && 0 < j < |e| && e[j] == d.option
    requires || (more == [] && j + 1 < |e| && arg == OptArg(e[j + 1..]))
             || (more == [] && j + 1 == |e| && d.kind == Optional && arg == NoArg)
             || (d.kind == Required && j + 1 == |e| && |more| == 1 && arg == OptArg(more[0]))
    ensures var os := OptString(quiet, decls);
            Scannable(os, tail, 0) ==>
              && Scannable(os, [e] + more + tail, j)
              && Parse(os, [e] + more + tail, j)
                   == Behind([Result(d.option, arg)], [e] + more, [], Parse(os, tail, 0))
  {
    hide OptString, Known, TakesArg, ArgOptional;
    OptionIs(quiet, decls, d);
    OptionRequired(OptString(quiet, decls), d.option);
    var s := [e] + more + tail;
    var w := 1 + |more|;
    assert s[0] == e && s[w..] == tail && s[..w] == [e] + more && (more != [] ==> s[1] == more[0]);
  }

  lemma OptionRequired(os: string, c: char)
    ensures ArgOptional(os, c) ==> TakesArg(os, c)
  {
  }

  /** An option element is scanned from behind its '-'. */
  lemma Enter(os: string, e: string, tail: seq<string>)
    requires IsOption(e) && 1 < |e| && e != "--"
    ensures Scannable(os, [e] + tail, 0) <==> Scannable(os, [e] + tail, 1)
    ensures Scannable(os, [e] + tail, 0) ==> Parse(os, [e] + tail, 0) == Parse(os, [e] + tail, 1)
  {
    hide Width, ResultAt, AddOption, AddNon;
    assert ([e] + tail)[0] == e;
  }

  /** Any one item is read as what it is. */
  lemma ItemRead(quiet: bool, decls: seq<Declaration>, item: Item, tail: seq<string>)
    requires WellDeclared(decls) && Fits(decls, item) && Scannable(OptString(quiet, decls), tail, 0)
    ensures var os, s := OptString(quiet, decls), Elements(item) + tail;
            && Scannable(os, s, 0)
            && Parse(os, s, 0)
                 == Behind(Answers(decls, item), if item.Operand? then [] else Elements(item),
                           if item.Operand? then [item.text] else [], Parse(os, tail, 0))
  {
    hide OptString, Scannable, Parse, IsFlag, FlagAnswers, Behind, IsOption;
    match item {
      case Cluster(flags) =>
        var e := "-" + flags;
        var n := |e| - 1;
        assert e[1..n] == flags[..|flags| - 1] && flags == e[1..n] + [e[n]];
        assert e[1..] == flags && IsOption(e) by { DashFirst(flags); }
        Enter(OptString(quiet, decls), e, tail);
        FlagsRead(quiet, decls, e, tail, 1, n);
        LastFlag(quiet, decls, e, tail);
        AnswersJoin(decls, e[1..n], [e[n]]);
        BehindFlags(FlagAnswers(decls, e[1..n]), [FlagAnswer(decls, e[n])], [e],
                    Parse(OptString(quiet, decls), tail, 0));
      case Attached(flags, option, arg) =>
        var d := if Declaration(option, Required) in decls then Declaration(option, Required)
                 else Declaration(option, Optional);
        OptionElement(quiet, decls, flags, arg, [], tail, d, OptArg(arg));
        assert Elements(item) == ["-" + flags + [option] + arg] + [];
      case Separate(flags, option, arg) =>
        OptionElement(quiet, decls, flags, "", [arg], tail, Declaration(option, Required), OptArg(arg));
        assert "-" + flags + [option] + "" == "-" + flags + [option];
        assert Elements(item) == ["-" + flags + [option]] + [arg];
      case Omitted(flags, option) =>
        OptionElement(quiet, decls, flags, "", [], tail, Declaration(option, Optional), NoArg);
        assert "-" + flags + [option] + "" == "-" + flags + [option];
        assert Elements(item) == ["-" + flags + [option]] + [];
      case Operand(text) =>
        assert [text][1..] == [];
        NonsInFront(OptString(quiet, decls), [text], tail);
        NonIs([text], Parse(OptString(quiet, decls), tail, 0));
    }
  }

  lemma DashFirst(flags: string)
    ensures IsOption("-" + flags) && ("-" + flags)[1..] == flags
  {
  }

  lemma NonIs(nons: seq<string>, p: Parsed)
    ensures Behind([], [], nons, p) == p.(nons := nons + p.nons)
  {
  }

  lemma {:induction false} AnswersJoin(decls: seq<Declaration>, a: string, b: string)
    ensures FlagAnswers(decls, a + b) == FlagAnswers(decls, a) + FlagAnswers(decls, b)
    ensures |b| == 1 ==> FlagAnswers(decls, b) == [FlagAnswer(decls, b[0])]
    decreases a
  {
    hide FlagAnswer;
    if |b| == 1 {
      assert b[1..] == "";
    }
    if a == "" {
      assert a + b == b;
    } else {
      assert (a + b)[1..] == a[1..] + b;
      AnswersJoin(decls, a[1..], b);
    }
  }

  lemma Parts(flags: string, c: char, rest: string)
    ensures var e, j := "-" + flags + [c] + rest, 1 + |flags|;
            && IsOption(e) && e[1..j] == flags && e[j] == c && e[j + 1..] == rest && |e| == j + 1 + |rest|
            && (e == "--" ==> flags + [c] + rest == "-")
  {
    var e := "-" + flags + [c] + rest;
    assert e[1..] == flags + [c] + rest;
  }

  /** An element with flags and an option, what follows it in the element (`rest`) and its next element (`more`). */
  lemma OptionElement(quiet: bool, decls: seq<Declaration>, flags: string, rest: string, more: seq<string>,
                      tail: seq<string>, d: Declaration, arg: OptArg)
    requires WellDeclared(decls) && d in decls && d.kind != Plain && Scannable(OptString(quiet, decls), tail, 0)
    requires flags + [d.option] + rest != "-" && forall c :: c in flags ==> IsFlag(decls, c)
    requires || (more == [] && rest != "" && arg == OptArg(rest))
             || (more == [] && rest == "" && d.kind == Optional && arg == NoArg)
             || (d.kind == Required && rest == "" && |more| == 1 && arg == OptArg(more[0]))
    ensures var os, e := OptString(quiet, decls), "-" + flags + [d.option] + rest;
            && Scannable(os, [e] + more + tail, 0)
            && Parse(os, [e] + more + tail, 0)
                 == Behind(FlagAnswers(decls, flags) + [Result(d.option, arg)], [e] + more, [], Parse(os, tail, 0))
  {
    hide OptString, Scannable, Parse, IsFlag, FlagAnswers, Behind, IsOption;
    var os, e, j := OptString(quiet, decls), "-" + flags + [d.option] + rest, 1 + |flags|;
    Parts(flags, d.option, rest);
    assert [e] + more + tail == [e] + (more + tail);
    Enter(os, e, more + tail);
    FlagsRead(quiet, decls, e, more + tail, 1, j);
    OptionRead(quiet, decls, e, more, tail, j, d, arg);
    BehindFlags(FlagAnswers(decls, flags), [Result(d.option, arg)], [e] + more, Parse(os, tail, 0));
  }

  /** Everything that has been written is read back, in front of whatever follows. */
  lemma {:induction false} ItemsRead(quiet: bool, decls: seq<Declaration>, items: seq<Item>, tail: seq<string>)
    requires WellDeclared(decls) && (forall item :: item in items ==> Fits(decls, item))
    requires Scannable(OptString(quiet, decls), tail, 0)
    ensures var os, s := OptString(quiet, decls), AllElements(items) + tail;
            && Scannable(os, s, 0)
            && Parse(os, s, 0)
                 == Behind(AllAnswers(decls, items), OptionElements(items), OperandTexts(items), Parse(os, tail, 0))
    decreases items
  {
    hide OptString, Scannable, Parse, Fits, Answers, Elements, Behind;
    var os := OptString(quiet, decls);
    if items == [] {
      assert AllElements(items) + tail == tail;
      Nothing(Parse(os, tail, 0));
    } else {
      var x, more := items[0], items[1..];
      ItemsRead(quiet, decls, more, tail);
      ItemRead(quiet, decls, x, AllElements(more) + tail);
      assert AllElements(items) + tail == Elements(x) + (AllElements(more) + tail);
      BehindBoth(Answers(decls, x), if x.Operand? then [] else Elements(x), if x.Operand? then [x.text] else [],
                 AllAnswers(decls, more), OptionElements(more), OperandTexts(more), Parse(os, tail, 0));
    }
  }

  /** Options and operands in any order are read as exactly those options, with the operands apart. */
  lemma ReadsBack(quiet: bool, decls: seq<Declaration>, items: seq<Item>)
    requires WellDeclared(decls) && (forall item :: item in items ==> Fits(decls, item))
    ensures var os := OptString(quiet, decls);
            && Scannable(os, AllElements(items), 0)
            && Parse(os, AllElements(items), 0)
                 == Parsed(AllAnswers(decls, items), OptionElements(items), OperandTexts(items), AllScanned, [])
  {
    hide OptString, Fits;
    ItemsRead(quiet, decls, items, []);
    assert AllElements(items) + [] == AllElements(items);
    NothingMore(AllAnswers(decls, items), OptionElements(items), OperandTexts(items), AllScanned, []);
  }

  lemma NothingMore(r: seq<Result>, o: seq<string>, n: seq<string>, ending: Ending, left: seq<string>)
    ensures Behind(r, o, n, Parsed([], [], [], ending, left)) == Parsed(r, o, n, ending, left)
  {
    assert r + [] == r && o + [] == o && n + [] == n;
  }

  /** Behind "--" nothing is an option. */
  lemma ReadsUpToDashes(quiet: bool, decls: seq<Declaration>, items: seq<Item>, operands: seq<string>)
    requires WellDeclared(decls) && (forall item :: item in items ==> Fits(decls, item))
    ensures var os, s := OptString(quiet, decls), AllElements(items) + (["--"] + operands);
            && Scannable(os, s, 0)
            && Parse(os, s, 0) == Parsed(AllAnswers(decls, items), OptionElements(items), OperandTexts(items), Dashes,
                                         ["--"] + operands)
  {
    hide OptString, Fits;
    var tail := ["--"] + operands;
    assert tail[0] == "--" && IsOption("--");
    ItemsRead(quiet, decls, items, tail);
    NothingMore(AllAnswers(decls, items), OptionElements(items), OperandTexts(items), Dashes, tail);
  }

  /** An option at the end of the list, without the argument that it requires: ':' if the option string begins with
      ':', and '?' otherwise. */
  lemma ReadsMissing(quiet: bool, decls: seq<Declaration>, items: seq<Item>, flags: string, option: char)
    requires WellDeclared(decls) && (forall item :: item in items ==> Fits(decls, item))
    requires Declaration(option, Required) in decls && flags + [option] != "-"
    requires forall c :: c in flags ==> IsFlag(decls, c)
    ensures var os, e := OptString(quiet, decls), "-" + flags + [option];
            && Scannable(os, AllElements(items) + [e], 0)
            && Parse(os, AllElements(items) + [e], 0)
                 == Parsed(AllAnswers(decls, items) + FlagAnswers(decls, flags)
                           + [Result(if quiet then ':' else '?', NoArg)],
                           OptionElements(items), OperandTexts(items), MissingArg, [e])
  {
    hide OptString, Fits, Scannable, Parse, IsFlag, FlagAnswers, IsOption, Behind;
    var os, e, j := OptString(quiet, decls), "-" + flags + [option], 1 + |flags|;
    var last := [Result(if quiet then ':' else '?', NoArg)];
    Parts(flags, option, "");
    assert "-" + flags + [option] + "" == e && flags + [option] + "" == flags + [option];
    MissingRead(quiet, decls, e, j, option);
    Enter(os, e, []);
    assert [e] + [] == [e];
    FlagsRead(quiet, decls, e, [], 1, j);
    ItemsRead(quiet, decls, items, [e]);
    var a, f := AllAnswers(decls, items), FlagAnswers(decls, flags);
    BehindFlags(f, last, [], Parsed([], [], [], MissingArg, [e]));
    BehindBoth(a, OptionElements(items), OperandTexts(items), f + last, [], [], Parsed([], [], [], MissingArg, [e]));
    NothingMore(a + (f + last), OptionElements(items) + [], OperandTexts(items) + [], MissingArg, [e]);
    NothingMore(last, [], [], MissingArg, [e]);
    assert a + (f + last) == a + f + last && OptionElements(items) + [] == OptionElements(items);
    assert OperandTexts(items) + [] == OperandTexts(items);
  }

  lemma MissingRead(quiet: bool, decls: seq<Declaration>, e: string, j: nat, option: char)
    requires WellDeclared(decls) && Declaration(option, Required) in decls && 0 < j && j + 1 == |e| && e[j] == option
    ensures var os := OptString(quiet, decls);
            && Scannable(os, [e], j)
            && Parse(os, [e], j) == Parsed([Result(if quiet then ':' else '?', NoArg)], [], [], MissingArg, [e])
  {
    hide OptString, Known, TakesArg, ArgOptional, MissingChar;
    OptionIs(quiet, decls, Declaration(option, Required));
    QuietIs(quiet, decls);
  }
}
