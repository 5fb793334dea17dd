/** The command-line option parser: a table of option descriptors, matchers
    for `--long[=value]` and `-short [value]` arguments, a driver that makes
    every argument be claimed by the first matching descriptor, and the
    actions that decode option values into the options record.

    The process-wide options singleton is modelled as a `Settings` record that
    is passed in and returned; every call that prints usage or the version and
    then ends the process is modelled as an `Exit` outcome carrying the exit
    status the process would have. */
module Options {
  import opened Strings

  // Data model

  datatype OptionKind = HELP | VERSION | SEED | STD | ASSERTS | INP_AS_ARGS

  /** Language standard of the generated test. */
  datatype LangStd = CXX | ISPC | SYCL

  /** Level for the "use asserts" and "input as arguments" options. */
  datatype OptionLevel = NONE | SOME | ALL

  /** The fields of the options record that the parser writes. `seed` is a
      `size_t` in the source; every seed the parser stores comes from
      `SeedValue`, which keeps it at most `SizeMax`. */
  datatype Settings = Settings(seed: nat, langStd: LangStd, useAsserts: OptionLevel, inpAsArgs: OptionLevel)

  /** One row of the option table. The action of a row is determined by its
      kind (see `Act`). An empty `shortArg` means the option has no short
      spelling; it still takes part in the exact comparison of `MatchShort`. */
  datatype OptionDescr = OptionDescr(
    kind: OptionKind,
    shortArg: string,
    longArg: string,
    hasValue: bool,
    helpMsg: string,
    errMsg: string,
    defaultVal: string,
    availVals: seq<string>)

  const SizeMax: nat := 0xFFFF_FFFF_FFFF_FFFF

  /** The option table, in the order in which `Parse` tries its rows. */
  const OptionsSet: seq<OptionDescr> := [
    OptionDescr(HELP, "-h", "--help", false, "Display help message",
                "Unreachable Error", "", []),
    OptionDescr(VERSION, "-v", "--version", false, "Print YARPGen version",
                "Unreachable Error", "", []),
    OptionDescr(SEED, "-s", "--seed", true, "Pass a predefined seed (0 is reserved for random)",
                "Unreachable Error", "0", []),
    OptionDescr(STD, "", "--std", true, "Language standard of the test",
                "Can't recognize standard", "cpp", ["cpp", "ispc", "sycl"]),
    OptionDescr(ASSERTS, "", "--asserts", true, "Use asserts in check function",
                "Can't parse asserts", "some", ["none", "some", "all"]),
    OptionDescr(INP_AS_ARGS, "", "--inp-as-args", true, "Pass input data as a parameters",
                "Can't parse input as args", "some", ["none", "some", "all"])
  ]

  /** What running an action leaves behind: either the parser carries on with
      updated settings, or the process ends. `message` is the string whose
      emptiness decides the status (the error message for usage exits, the
      argument of the version printer otherwise); `usage` tells whether the
      usage text is printed before exiting. */
  datatype Outcome =
    | Continue(settings: Settings)
    | Exit(status: int, message: string, usage: bool)

  // Exit paths

  /** Exit status of the version printer, which every exit path ends in:
      0 for an empty message, -1 otherwise. */
  function ExitStatus(message: string): int
  {
    if message == "" then 0 else -1
  }

  /** The version printer called directly: print the version, then exit. */
  function VersionAndExit(arg: string): (r: Outcome)
    ensures r.Exit? && !r.usage
    ensures r.status == 0 <==> arg == ""
    ensures r.status == 0 || r.status == -1
  {
    Exit(ExitStatus(arg), arg, false)
  }

  /** Print usage (after the error message, if any), then the version, then
      exit with the status the version printer picks for that message. */
  function HelpAndExit(errorMsg: string): (r: Outcome)
    ensures r.Exit? && r.usage && r.message == errorMsg
    ensures r.status == 0 <==> errorMsg == ""
    ensures r.status == 0 || r.status == -1
  {
    Exit(ExitStatus(errorMsg), errorMsg, true)
  }

  // Value decoders

  /** The value `std::stringstream >> size_t` extracts from `text`: the
      longest leading run of decimal digits, saturated at `SizeMax`, and 0
      when `text` does not begin with a digit. */
  function SeedValue(text: string): (seed: nat)
    ensures seed <= SizeMax
  {
    var n := LeadingDigits(text);
    var v := DigitsValue(text[..n]);
    if v > SizeMax then SizeMax else v
  }

  /** Decodes a `--std` value. */
  function ParseStandard(text: string): (r: Option<LangStd>)
    ensures r == Some(CXX) <==> text == "cpp"
    ensures r == Some(ISPC) <==> text == "ispc"
    ensures r == Some(SYCL) <==> text == "sycl"
    ensures r == None <==> text !in {"cpp", "ispc", "sycl"}
  {
    if text == "cpp" then Some(CXX)
    else if text == "ispc" then Some(ISPC)
    else if text == "sycl" then Some(SYCL)
    else None
  }

  /** Decodes an `--asserts` or `--inp-as-args` value. */
  function ParseLevel(text: string): (r: Option<OptionLevel>)
    ensures r == Some(NONE) <==> text == "none"
    ensures r == Some(SOME) <==> text == "some"
    ensures r == Some(ALL) <==> text == "all"
    ensures r == None <==> text !in {"none", "some", "all"}
  {
    if text == "none" then Some(NONE)
    else if text == "some" then Some(SOME)
    else if text == "all" then Some(ALL)
    else None
  }

  /** The spelling of a standard on the command line. */
  function StandardName(std: LangStd): string
  {
    match std
    case CXX => "cpp"
    case ISPC => "ispc"
    case SYCL => "sycl"
  }

  /** The spelling of a level on the command line. */
  function LevelName(level: OptionLevel): string
  {
    match level
    case NONE => "none"
    case SOME => "some"
    case ALL => "all"
  }

  /** Each standard's spelling decodes back to it, the spellings are exactly
      the possible values the `--std` row lists, and any other string is
      refused. */
  lemma StandardRoundTrip(std: LangStd, text: string)
    ensures ParseStandard(StandardName(std)) == Some(std)
    ensures ParseStandard(text).Some? ==> StandardName(ParseStandard(text).value) == text
    ensures ParseStandard(text).Some? <==> text in OptionsSet[3].availVals
  {
  }

  /** Each level's spelling decodes back to it, the spellings are exactly the
      possible values the `--asserts` and `--inp-as-args` rows list, and any
      other string is refused. */
  lemma LevelRoundTrip(level: OptionLevel, text: string)
    ensures ParseLevel(LevelName(level)) == Some(level)
    ensures ParseLevel(text).Some? ==> LevelName(ParseLevel(text).value) == text
    ensures ParseLevel(text).Some? <==> text in OptionsSet[4].availVals
    ensures OptionsSet[5].availVals == OptionsSet[4].availVals
  {
  }

  /** Any run of decimal digits followed by a non-digit or the end of the
      text is read as its value, leading zeros included, saturated at
      `SizeMax`. */
  lemma SeedOfDigits(digits: string, rest: string)
    requires AllDigits(digits)
    requires |rest| == 0 || !IsDigit(rest[0])
    ensures DigitsValue(digits) <= SizeMax ==> SeedValue(digits + rest) == DigitsValue(digits)
    ensures DigitsValue(digits) > SizeMax ==> SeedValue(digits + rest) == SizeMax
  {
    var text := digits + rest;
    assert text[..|digits|] == digits;
    assert |rest| > 0 ==> text[|digits|] == rest[0];
    LeadingDigitsOf(text, |digits|);
  }

  /** The seed read back from the decimal spelling of any `size_t` value is
      that value; what follows the digits is ignored. */
  lemma SeedOfDecimal(n: nat, rest: string)
    requires n <= SizeMax
    requires |rest| == 0 || !IsDigit(rest[0])
    ensures SeedValue(Decimal(n) + rest) == n
  {
    DecimalRoundTrip(n);
    SeedOfDigits(Decimal(n), rest);
  }

  // Actions

  /** The action of the table row of kind `kind`, applied to `value`. */
  function Act(kind: OptionKind, value: string, st: Settings): (r: Outcome)
    ensures kind == SEED ==> r == Continue(st.(seed := SeedValue(value)))
    ensures kind == STD && ParseStandard(value).Some? ==>
              r == Continue(st.(langStd := ParseStandard(value).value))
    ensures kind == STD && ParseStandard(value).None? ==> r == Exit(-1, "Bad language standard", true)
    ensures kind == ASSERTS && ParseLevel(value).Some? ==>
              r == Continue(st.(useAsserts := ParseLevel(value).value))
    ensures kind == ASSERTS && ParseLevel(value).None? ==>
              r == Exit(-1, "Can't recognize asserts use level", true)
    ensures kind == INP_AS_ARGS && ParseLevel(value).Some? ==>
              r == Continue(st.(inpAsArgs := ParseLevel(value).value))
    ensures kind == INP_AS_ARGS && ParseLevel(value).None? ==>
              r == Exit(-1, "Can't recognize asserts use level", true)
    ensures r.Exit? <==> kind in {HELP, VERSION} || (kind == STD && ParseStandard(value).None?)
                         || (kind in {ASSERTS, INP_AS_ARGS} && ParseLevel(value).None?)
    ensures kind == HELP ==> r == HelpAndExit(value)
    ensures kind == VERSION ==> r == VersionAndExit(value)
  {
    match kind
    case HELP => HelpAndExit(value)
    case VERSION => VersionAndExit(value)
    case SEED => Continue(st.(seed := SeedValue(value)))
    case STD =>
      (match ParseStandard(value)
       case Some(std) => Continue(st.(langStd := std))
       case None => HelpAndExit("Bad language standard"))
    case ASSERTS =>
      (match ParseLevel(value)
       case Some(level) => Continue(st.(useAsserts := level))
       case None => HelpAndExit("Can't recognize asserts use level"))
    case INP_AS_ARGS =>
      (match ParseLevel(value)
       case Some(level) => Continue(st.(inpAsArgs := level))
       case None => HelpAndExit("Can't recognize asserts use level"))
  }

  // Default initialisation

  /** One step of the default-initialisation loop: only the seed and the
      standard rows apply their default value. */
  function InitStep(item: OptionDescr, st: Settings): Outcome
  {
    if item.kind == SEED || item.kind == STD then Act(item.kind, item.defaultVal, st)
    else Continue(st)
  }

  /** The default-initialisation loop over the rows of `table`, in order. */
  function InitFrom(table: seq<OptionDescr>, st: Settings): Outcome
  {
    if |table| == 0 then Continue(st)
    else
      match InitStep(table[0], st)
      case Continue(st') => InitFrom(table[1..], st')
      case Exit(status, message, usage) => Exit(status, message, usage)
  }

  /** Default initialisation over any table never touches the asserts level
      or the input-passing level. */
  lemma {:induction false} InitFromKeepsLevels(table: seq<OptionDescr>, st: Settings)
    ensures InitFrom(table, st).Continue? ==>
              InitFrom(table, st).settings.useAsserts == st.useAsserts &&
              InitFrom(table, st).settings.inpAsArgs == st.inpAsArgs
  {
    if |table| > 0 {
      match InitStep(table[0], st)
      case Continue(st') =>
        assert st'.useAsserts == st.useAsserts && st'.inpAsArgs == st.inpAsArgs;
        InitFromKeepsLevels(table[1..], st');
      case Exit(_, _, _) =>
    }
  }

  /** Default initialisation over the option table: the seed row stores 0,
      the standard row stores C++, and no row ends the process. */
  lemma InitOverOptionsSet(st: Settings)
    ensures InitFrom(OptionsSet, st) == Continue(st.(seed := 0, langStd := CXX))
  {
    var t := OptionsSet;
    assert InitStep(t[0], st) == Continue(st);
    assert InitFrom(t, st) == InitFrom(t[1..], st);
    assert InitStep(t[1..][0], st) == Continue(st);
    assert InitFrom(t[1..], st) == InitFrom(t[2..], st) by { assert t[1..][1..] == t[2..]; }
    var st2 := st.(seed := 0);
    assert "0"[..LeadingDigits("0")] == "0";
    assert InitStep(t[2..][0], st) == Continue(st2);
    assert InitFrom(t[2..], st) == InitFrom(t[3..], st2) by { assert t[2..][1..] == t[3..]; }
    var st3 := st2.(langStd := CXX);
    assert InitStep(t[3..][0], st2) == Continue(st3);
    assert InitFrom(t[3..], st2) == InitFrom(t[4..], st3) by { assert t[3..][1..] == t[4..]; }
    assert InitStep(t[4..][0], st3) == Continue(st3);
    assert InitFrom(t[4..], st3) == InitFrom(t[5..], st3) by { assert t[4..][1..] == t[5..]; }
    assert InitStep(t[5..][0], st3) == Continue(st3);
    assert InitFrom(t[5..], st3) == InitFrom(t[6..], st3) by { assert t[5..][1..] == t[6..]; }
    assert t[6..] == [];
  }

  /** `initOptions`: the default loop over the option table, which sets seed
      0 and the C++ standard; every other field keeps whatever it held. */
  function InitOptions(st: Settings): (r: Settings)
    ensures InitFrom(OptionsSet, st) == Continue(r)
    ensures r.seed == 0 && r.langStd == CXX
    ensures r.useAsserts == st.useAsserts && r.inpAsArgs == st.inpAsArgs
  {
    InitOverOptionsSet(st);
    InitFrom(OptionsSet, st).settings
  }

  // Matching one argument against one row

  /** Outcome of matching the argument at one position against one row:
      no match; a claim of the argument (and maybe the next one) with the
      option's value, `last` being the position of the last argument used;
      or a rejection that ends the process with `message`. */
  datatype Match =
    | NoMatch
    | Claimed(value: string, last: nat)
    | Rejected(message: string)

  /** The `--long` / `--long=value` spelling of `option`. */
  function MatchLong(argv: seq<string>, i: nat, option: OptionDescr): (r: Match)
    requires i < |argv|
    // valued: matches exactly the arguments that begin with "--long="
    ensures option.hasValue ==> (r.NoMatch? <==> !StartsWith(argv[i], option.longArg + "="))
    ensures option.hasValue ==> (r.Rejected? <==> argv[i] == option.longArg + "=")
    ensures option.hasValue && r.Claimed? ==>
              r.value != "" && argv[i] == option.longArg + "=" + r.value && r.last == i
    // non-valued: the exact name is claimed, a longer argument is an error
    ensures !option.hasValue ==> (r.Claimed? <==> argv[i] == option.longArg)
    ensures !option.hasValue && r.Claimed? ==> r.value == "" && r.last == i
    ensures !option.hasValue ==>
              (r.Rejected? <==> StartsWith(argv[i], option.longArg) && argv[i] != option.longArg)
    ensures r.Rejected? ==> r.message == option.errMsg
  {
    var key := if option.hasValue then option.longArg + "=" else option.longArg;
    var arg := argv[i];
    if !StartsWith(arg, key) then NoMatch
    else if option.hasValue then
      if |arg| == |key| then Rejected(option.errMsg)
      else
        assert arg == key + arg[|key|..];
        Claimed(arg[|key|..], i)
    else if |arg| == |key| then Claimed("", i)
    else Rejected(option.errMsg)
  }

  /** The `-s` / `-s value` spelling of `option`: the argument must equal the
      short name exactly; a valued option takes the next argument as its
      value and fails when there is none. */
  function MatchShort(argv: seq<string>, i: nat, option: OptionDescr): (r: Match)
    requires i < |argv|
    ensures r.NoMatch? <==> argv[i] != option.shortArg
    ensures option.hasValue && r.Claimed? ==> r.last == i + 1 < |argv| && r.value == argv[i + 1]
    ensures option.hasValue ==> (r.Rejected? <==> argv[i] == option.shortArg && i + 1 == |argv|)
    ensures !option.hasValue ==> !r.Rejected?
    ensures !option.hasValue && r.Claimed? ==> r.last == i && r.value == ""
    ensures r.Rejected? ==> r.message == option.errMsg
  {
    if argv[i] != option.shortArg then NoMatch
    else if option.hasValue then
      if i + 1 == |argv| then Rejected(option.errMsg) else Claimed(argv[i + 1], i + 1)
    else Claimed("", i)
  }

  /** One row against one argument: the long spelling is tried first, and
      the short spelling only when the long one does not match at all. */
  function MatchOption(argv: seq<string>, i: nat, option: OptionDescr): (r: Match)
    requires i < |argv|
    ensures r.Claimed? ==> i <= r.last < |argv|
    ensures !option.hasValue && r.Claimed? ==> r.value == "" && r.last == i
    ensures r.Rejected? ==> r.message == option.errMsg
  {
    var long := MatchLong(argv, i, option);
    if !long.NoMatch? then long else MatchShort(argv, i, option)
  }

  /** The short spelling is consulted only when the long spelling does not
      match at all, and the row matches iff one of the two does. */
  lemma LongBeforeShort(argv: seq<string>, i: nat, option: OptionDescr)
    requires i < |argv|
    ensures MatchOption(argv, i, option).NoMatch? <==>
              MatchLong(argv, i, option).NoMatch? && MatchShort(argv, i, option).NoMatch?
    ensures !MatchLong(argv, i, option).NoMatch? ==> MatchOption(argv, i, option) == MatchLong(argv, i, option)
    ensures MatchLong(argv, i, option).NoMatch? ==> MatchOption(argv, i, option) == MatchShort(argv, i, option)
  {
  }

  // Claiming every argument

  /** Which row, if any, claims the argument at position `i`. */
  datatype Selection = Unclaimed | Selected(index: nat, m: Match)

  /** Scans the rows of `table` from `from` on, in order, and stops at the
      first one that matches the argument at position `i`. */
  function Select(table: seq<OptionDescr>, argv: seq<string>, i: nat, from: nat): (r: Selection)
    requires i < |argv| && from <= |table|
    ensures r.Selected? ==> from <= r.index < |table| && !r.m.NoMatch? && r.m == MatchOption(argv, i, table[r.index])
    decreases |table| - from
  {
    if from == |table| then Unclaimed
    else
      var m := MatchOption(argv, i, table[from]);
      if !m.NoMatch? then Selected(from, m) else Select(table, argv, i, from + 1)
  }

  /** The row `Select` picks matches and every row before it does not; no
      row is picked exactly when none matches. */
  lemma {:induction false} SelectFirstMatch(table: seq<OptionDescr>, argv: seq<string>, i: nat, from: nat)
    requires i < |argv| && from <= |table|
    ensures Select(table, argv, i, from).Selected? ==>
              forall j :: from <= j < Select(table, argv, i, from).index ==> MatchOption(argv, i, table[j]).NoMatch?
    ensures Select(table, argv, i, from).Unclaimed? <==>
              forall j :: from <= j < |table| ==> MatchOption(argv, i, table[j]).NoMatch?
    decreases |table| - from
  {
    if from < |table| && MatchOption(argv, i, table[from]).NoMatch? {
      SelectFirstMatch(table, argv, i, from + 1);
    }
  }

  /** If the rows before `k` do not match and row `k` does, row `k` is the
      one selected. */
  lemma SelectFirst(table: seq<OptionDescr>, argv: seq<string>, i: nat, k: nat)
    requires i < |argv| && k < |table|
    requires forall j :: 0 <= j < k ==> MatchOption(argv, i, table[j]).NoMatch?
    requires !MatchOption(argv, i, table[k]).NoMatch?
    ensures Select(table, argv, i, 0) == Selected(k, MatchOption(argv, i, table[k]))
  {
    SelectFirstMatch(table, argv, i, 0);
  }

  /** A record of one claimed option: row `option` of the table claimed the
      arguments at positions `first..last` with value `value`. */
  datatype Claim = Claim(option: nat, first: nat, last: nat, value: string)

  /** The claim is what the first matching row makes of position `c.first`. */
  predicate IsFirstClaim(table: seq<OptionDescr>, argv: seq<string>, c: Claim)
  {
    && c.first < |argv|
    && Select(table, argv, c.first, 0) == Selected(c.option, Claimed(c.value, c.last))
  }

  /** The claims cover consecutive positions starting at `from`, each one
      using its own argument and at most the following one. */
  predicate Contiguous(claims: seq<Claim>, from: nat)
  {
    |claims| == 0 ||
    (&& claims[0].first == from
     && from <= claims[0].last <= from + 1
     && Contiguous(claims[1..], claims[0].last + 1))
  }

  /** The first position after the claims that start at `from`. */
  function Reach(claims: seq<Claim>, from: nat): nat
  {
    if |claims| == 0 then from else claims[|claims| - 1].last + 1
  }

  /** The settings that running the actions of `claims` in order produces;
      the first action that ends the process ends the run. A claim naming
      no row of the table ends the run where it stands; claims made by
      parsing always name a row (`ParseFromClaims`), so that branch is never
      taken for them. */
  function ApplyClaims(table: seq<OptionDescr>, claims: seq<Claim>, st: Settings): Outcome
  {
    if |claims| == 0 then Continue(st)
    else if claims[0].option >= |table| then Continue(st)
    else
      match Act(table[claims[0].option].kind, claims[0].value, st)
      case Continue(st') => ApplyClaims(table, claims[1..], st')
      case Exit(status, message, usage) => Exit(status, message, usage)
  }

  /** What parsing leaves behind: the arguments claimed, in order, and how
      parsing ended. */
  datatype ParseResult = ParseResult(claims: seq<Claim>, outcome: Outcome)

  /** One turn of the loop of `parse` at position `i`: either the argument
      there is claimed and its action lets parsing carry on (`Next`), or the
      process ends (`Stop`), after claiming the argument when its own action
      is what ends it. */
  datatype Turn =
    | Next(claim: Claim, settings: Settings)
    | Stop(claimed: seq<Claim>, outcome: Outcome)

  function ParseTurn(table: seq<OptionDescr>, argv: seq<string>, i: nat, st: Settings): (r: Turn)
    requires i < |argv|
    ensures r.Next? ==> r.claim.first == i && i <= r.claim.last < |argv|
  {
    var sel := Select(table, argv, i, 0);
    if sel.Unclaimed? then Stop([], HelpAndExit("Unknown option: " + argv[i]))
    else if sel.m.Rejected? then Stop([], HelpAndExit(sel.m.message))
    else
      var c := Claim(sel.index, i, sel.m.last, sel.m.value);
      var act := Act(table[sel.index].kind, sel.m.value, st);
      if act.Exit? then Stop([c], act) else Next(c, act.settings)
  }

  /** What one turn does: a claimed argument is claimed by the first matching
      row and uses at most the next argument too; the process ends either on
      that row's action, or with "Unknown option" when no row matches, or
      with the row's error message when the first matching row rejects the
      argument. Every end has status 0 exactly when its message is empty. */
  lemma TurnFacts(table: seq<OptionDescr>, argv: seq<string>, i: nat, st: Settings, r: Turn)
    requires i < |argv| && r == ParseTurn(table, argv, i, st)
    ensures r.Next? ==> && r.claim.last <= i + 1
                        && IsFirstClaim(table, argv, r.claim)
                        && r.claim.option < |table|
                        && Act(table[r.claim.option].kind, r.claim.value, st) == Continue(r.settings)
    ensures r.Stop? ==> r.outcome.Exit?
    ensures r.Stop? ==> (r.outcome.status == 0 <==> r.outcome.message == "")
    ensures r.Stop? ==> r.outcome.status == 0 || r.outcome.status == -1
    ensures r.Stop? && |r.claimed| > 0 ==>
              && r.claimed == [r.claimed[0]] && r.claimed[0].first == i
              && IsFirstClaim(table, argv, r.claimed[0])
              && r.claimed[0].option < |table|
              && Act(table[r.claimed[0].option].kind, r.claimed[0].value, st) == r.outcome
    ensures r.Stop? && r.claimed == [] ==>
              || (Select(table, argv, i, 0).Unclaimed? && r.outcome == HelpAndExit("Unknown option: " + argv[i]))
              || (Select(table, argv, i, 0).Selected? && Select(table, argv, i, 0).m.Rejected? &&
                  r.outcome == HelpAndExit(Select(table, argv, i, 0).m.message))
  {
    var sel := Select(table, argv, i, 0);
    SelectFirstMatch(table, argv, i, 0);
    if sel.Selected? && sel.m.Claimed? {
      assert sel.m == MatchOption(argv, i, table[sel.index]);
    }
  }

  /** The loop of `parse` from position `i` on: every argument must be
      claimed by the first matching row; an argument no row claims ends the
      process with "Unknown option". */
  function ParseFrom(table: seq<OptionDescr>, argv: seq<string>, i: nat, st: Settings): (r: ParseResult)
    requires i <= |argv|
    ensures |r.claims| <= |argv| - i
    decreases |argv| - i
  {
    if i == |argv| then ParseResult([], Continue(st))
    else
      match ParseTurn(table, argv, i, st)
      case Stop(claimed, outcome) => ParseResult(claimed, outcome)
      case Next(c, st') =>
        var rest := ParseFrom(table, argv, c.last + 1, st');
        ParseResult([c] + rest.claims, rest.outcome)
  }

  /** One unfolding of `ParseFrom` at a position where parsing carries on. */
  lemma ParseFromNext(table: seq<OptionDescr>, argv: seq<string>, i: nat, st: Settings, turn: Turn)
    requires i < |argv| && turn == ParseTurn(table, argv, i, st) && turn.Next?
    ensures var rest := ParseFrom(table, argv, turn.claim.last + 1, turn.settings);
            ParseFrom(table, argv, i, st) == ParseResult([turn.claim] + rest.claims, rest.outcome)
  {
  }

  /** One unfolding of `ParseFrom` at a position where parsing stops. */
  lemma ParseFromStop(table: seq<OptionDescr>, argv: seq<string>, i: nat, st: Settings, turn: Turn)
    requires i < |argv| && turn == ParseTurn(table, argv, i, st) && turn.Stop?
    ensures ParseFrom(table, argv, i, st) == ParseResult(turn.claimed, turn.outcome)
  {
  }

  /** Putting a first-match claim that ends just before `rest` in front of
      `rest` keeps the claims contiguous and first-match. */
  lemma ConsClaims(table: seq<OptionDescr>, argv: seq<string>, c: Claim, rest: seq<Claim>, i: nat)
    requires c.first == i && c.first <= c.last <= c.first + 1 && c.last < |argv|
    requires IsFirstClaim(table, argv, c)
    requires Contiguous(rest, c.last + 1)
    requires forall d :: d in rest ==> d.last < |argv| && IsFirstClaim(table, argv, d)
    ensures Contiguous([c] + rest, i)
    ensures Reach([c] + rest, i) == Reach(rest, c.last + 1)
    ensures forall d :: d in [c] + rest ==> d.last < |argv| && IsFirstClaim(table, argv, d)
  {
    assert ([c] + rest)[1..] == rest;
  }

  /** Contiguous claims leave no gap: every position from `from` up to
      their reach is used by one of them. */
  lemma {:induction false} ContiguousCovers(claims: seq<Claim>, from: nat, p: nat)
    requires Contiguous(claims, from)
    requires from <= p < Reach(claims, from)
    ensures exists k :: 0 <= k < |claims| && claims[k].first <= p <= claims[k].last
  {
    if p > claims[0].last {
      var tail := claims[1..];
      assert Reach(tail, claims[0].last + 1) == Reach(claims, from);
      ContiguousCovers(tail, claims[0].last + 1, p);
      var k :| 0 <= k < |tail| && tail[k].first <= p <= tail[k].last;
      assert claims[k + 1] == tail[k];
    } else {
      assert claims[0].first <= p <= claims[0].last;
    }
  }

  /** The arguments parsing claims form a contiguous run from position `i`,
      each of them claimed by the first row, in table order, that matches
      it; when parsing carries on to the end, the run reaches the last
      argument. */
  lemma {:induction false} ParseFromClaims(table: seq<OptionDescr>, argv: seq<string>, i: nat, st: Settings, r: ParseResult)
    requires i <= |argv|
    requires r == ParseFrom(table, argv, i, st)
    ensures Contiguous(r.claims, i)
    ensures forall c :: c in r.claims ==> c.last < |argv| && IsFirstClaim(table, argv, c)
    ensures r.outcome.Continue? ==> Reach(r.claims, i) == |argv|
    decreases |argv| - i
  {
    if i == |argv| {
      assert r.claims == [];
    } else {
      var turn := ParseTurn(table, argv, i, st);
      TurnFacts(table, argv, i, st, turn);
      if turn.Next? {
        var rest := ParseFrom(table, argv, turn.claim.last + 1, turn.settings);
        ParseFromNext(table, argv, i, st, turn);
        ParseFromClaims(table, argv, turn.claim.last + 1, turn.settings, rest);
        ConsClaims(table, argv, turn.claim, rest.claims, i);
      } else {
        ParseFromStop(table, argv, i, st, turn);
        if |turn.claimed| > 0 {
          assert turn.claimed[1..] == [];
        }
      }
    }
  }

  /** When parsing gets to the end of the arguments, the settings it ends
      with are exactly what the claimed options' actions make of the initial
      settings, applied in command-line order (so a later occurrence of an
      option overrides an earlier one). */
  lemma {:induction false} ParseFromAppliesClaims(table: seq<OptionDescr>, argv: seq<string>, i: nat, st: Settings, r: ParseResult)
    requires i <= |argv|
    requires r == ParseFrom(table, argv, i, st)
    ensures r.outcome.Continue? ==> r.outcome == ApplyClaims(table, r.claims, st)
    decreases |argv| - i
  {
    if i == |argv| {
      assert r == ParseResult([], Continue(st));
    } else {
      var turn := ParseTurn(table, argv, i, st);
      if turn.Next? {
        TurnFacts(table, argv, i, st, turn);
        var rest := ParseFrom(table, argv, turn.claim.last + 1, turn.settings);
        ParseFromNext(table, argv, i, st, turn);
        ParseFromAppliesClaims(table, argv, turn.claim.last + 1, turn.settings, rest);
        ApplyClaimsCons(table, turn.claim, rest.claims, st);
      } else {
        ParseFromStop(table, argv, i, st, turn);
      }
    }
  }

  lemma ApplyClaimsCons(table: seq<OptionDescr>, c: Claim, rest: seq<Claim>, st: Settings)
    requires c.option < |table|
    requires Act(table[c.option].kind, c.value, st).Continue?
    ensures ApplyClaims(table, [c] + rest, st) ==
              ApplyClaims(table, rest, Act(table[c.option].kind, c.value, st).settings)
  {
    assert ([c] + rest)[0] == c && ([c] + rest)[1..] == rest;
  }

  /** Every way parsing ends the process has status 0 exactly when the
      message is empty, and -1 otherwise. */
  lemma {:induction false} ParseFromStatus(table: seq<OptionDescr>, argv: seq<string>, i: nat, st: Settings, r: ParseResult)
    requires i <= |argv|
    requires r == ParseFrom(table, argv, i, st)
    ensures r.outcome.Exit? ==> (r.outcome.status == 0 <==> r.outcome.message == "")
    ensures r.outcome.Exit? ==> r.outcome.status == 0 || r.outcome.status == -1
    decreases |argv| - i
  {
    if i < |argv| {
      var turn := ParseTurn(table, argv, i, st);
      if turn.Next? {
        var rest := ParseFrom(table, argv, turn.claim.last + 1, turn.settings);
        ParseFromNext(table, argv, i, st, turn);
        ParseFromStatus(table, argv, turn.claim.last + 1, turn.settings, rest);
      } else {
        TurnFacts(table, argv, i, st, turn);
        ParseFromStop(table, argv, i, st, turn);
      }
    }
  }

  /** How a failed turn at position `p` ends the process: the argument
      there matches no row and is an unknown option, or the first row that
      matches it rejects it with that row's message. */
  predicate ErrorAt(table: seq<OptionDescr>, argv: seq<string>, p: nat, o: Outcome)
    requires p < |argv|
  {
    var sel := Select(table, argv, p, 0);
    || (sel.Unclaimed? && o == HelpAndExit("Unknown option: " + argv[p]))
    || (sel.Selected? && sel.m.Rejected? && o == HelpAndExit(sel.m.message))
  }

  /** Parsing ends the process either in the action of the last argument it
      claimed, the earlier claims all letting it carry on, or at the first
      argument after the claims, which is an unknown option or is rejected
      by the first row that matches it. */
  lemma {:induction false} ParseFromExit(table: seq<OptionDescr>, argv: seq<string>, i: nat, st: Settings, r: ParseResult)
    requires i <= |argv|
    requires r == ParseFrom(table, argv, i, st)
    ensures r.outcome.Exit? ==>
              || (|r.claims| > 0 && ApplyClaims(table, r.claims, st) == r.outcome)
              || (&& Reach(r.claims, i) < |argv|
                  && ApplyClaims(table, r.claims, st).Continue?
                  && ErrorAt(table, argv, Reach(r.claims, i), r.outcome))
    decreases |argv| - i
  {
    if i < |argv| {
      var turn := ParseTurn(table, argv, i, st);
      TurnFacts(table, argv, i, st, turn);
      if turn.Next? {
        var rest := ParseFrom(table, argv, turn.claim.last + 1, turn.settings);
        ParseFromNext(table, argv, i, st, turn);
        ParseFromExit(table, argv, turn.claim.last + 1, turn.settings, rest);
        ApplyClaimsCons(table, turn.claim, rest.claims, st);
        assert Reach(r.claims, i) == Reach(rest.claims, turn.claim.last + 1);
      } else {
        ParseFromStop(table, argv, i, st, turn);
        if |turn.claimed| > 0 {
          var c := turn.claimed[0];
          assert ApplyClaims(table, [c], st) == turn.outcome by {
            assert [c][1..] == [];
          }
        }
      }
    }
  }

  /** The process ends in the action of the last claim, every earlier
      action letting parsing carry on, unless that last action lets it
      carry on too and the next argument is the one that ends it. */
  predicate ExitsAtLast(table: seq<OptionDescr>, argv: seq<string>, i: nat, claims: seq<Claim>, st: Settings, o: Outcome)
    requires |claims| > 0
  {
    var init := ApplyClaims(table, claims[..|claims| - 1], st);
    var last := claims[|claims| - 1];
    && init.Continue? && last.option < |table|
    && (|| Act(table[last.option].kind, last.value, init.settings) == o
        || (&& Act(table[last.option].kind, last.value, init.settings).Continue?
            && Reach(claims, i) < |argv|
            && ErrorAt(table, argv, Reach(claims, i), o)))
  }

  /** Putting a claim whose action carries on in front of the claims keeps
      `ExitsAtLast`. */
  lemma ExitsAtLastCons(table: seq<OptionDescr>, argv: seq<string>, i: nat, c: Claim, rest: seq<Claim>, st: Settings, o: Outcome)
    requires |rest| > 0 && c.option < |table|
    requires Act(table[c.option].kind, c.value, st).Continue?
    requires ExitsAtLast(table, argv, c.last + 1, rest, Act(table[c.option].kind, c.value, st).settings, o)
    ensures ExitsAtLast(table, argv, i, [c] + rest, st, o)
  {
    var n := |rest|;
    assert ([c] + rest)[..n] == [c] + rest[..n - 1];
    assert ([c] + rest)[n] == rest[n - 1];
    ApplyClaimsCons(table, c, rest[..n - 1], st);
  }

  /** When parsing ends the process after claiming something, the exit is
      the last claim's action, or comes at the argument right after it. */
  lemma {:induction false} ParseFromExitsAtLast(table: seq<OptionDescr>, argv: seq<string>, i: nat, st: Settings, r: ParseResult)
    requires i <= |argv|
    requires r == ParseFrom(table, argv, i, st)
    ensures r.outcome.Exit? && |r.claims| > 0 ==> ExitsAtLast(table, argv, i, r.claims, st, r.outcome)
    decreases |argv| - i
  {
    if i < |argv| {
      var turn := ParseTurn(table, argv, i, st);
      TurnFacts(table, argv, i, st, turn);
      if turn.Next? {
        var c := turn.claim;
        var rest := ParseFrom(table, argv, c.last + 1, turn.settings);
        ParseFromNext(table, argv, i, st, turn);
        if |rest.claims| == 0 {
          ParseFromExit(table, argv, c.last + 1, turn.settings, rest);
          assert r.claims == [c] && r.claims[..0] == [];
        } else {
          ParseFromExitsAtLast(table, argv, c.last + 1, turn.settings, rest);
          if rest.outcome.Exit? {
            ExitsAtLastCons(table, argv, i, c, rest.claims, st, rest.outcome);
          }
        }
      } else {
        ParseFromStop(table, argv, i, st, turn);
        assert turn.claimed[..0] == [];
      }
    }
  }

  /** `parse`: scans the arguments after the program name. */
  function Parse(argv: seq<string>, st: Settings): (r: ParseResult)
    ensures |argv| <= 1 ==> r == ParseResult([], Continue(st))
    ensures |r.claims| < |argv| || |argv| == 0
  {
    if |argv| == 0 then ParseResult([], Continue(st)) else ParseFrom(OptionsSet, argv, 1, st)
  }

  /** When `parse` returns, every argument after the program name was used,
      either as an option or as the value of the option before it, and each
      option was claimed by the first row of the table that matches it. */
  lemma ParseClaimsEveryArgument(argv: seq<string>, st: Settings, p: nat)
    requires |argv| > 0 && Parse(argv, st).outcome.Continue?
    requires 1 <= p < |argv|
    ensures exists k :: 0 <= k < |Parse(argv, st).claims| &&
                        Parse(argv, st).claims[k].first <= p <= Parse(argv, st).claims[k].last &&
                        IsFirstClaim(OptionsSet, argv, Parse(argv, st).claims[k])
  {
    var r := Parse(argv, st);
    ParseFromClaims(OptionsSet, argv, 1, st, r);
    ContiguousCovers(r.claims, 1, p);
    var k :| 0 <= k < |r.claims| && r.claims[k].first <= p <= r.claims[k].last;
    assert r.claims[k] in r.claims;
  }

  /** The last claim is a request for help or for the version. */
  predicate EndsOnRequest(table: seq<OptionDescr>, claims: seq<Claim>)
  {
    && |claims| > 0
    && claims[|claims| - 1].option < |table|
    && table[claims[|claims| - 1].option].kind in {HELP, VERSION}
  }

  lemma EndsOnRequestCons(table: seq<OptionDescr>, c: Claim, claims: seq<Claim>)
    requires EndsOnRequest(table, claims)
    ensures EndsOnRequest(table, [c] + claims)
  {
    assert ([c] + claims)[|claims|] == claims[|claims| - 1];
  }

  /** Every row of the table carries a non-empty error message. */
  predicate ErrorsNamed(table: seq<OptionDescr>)
  {
    forall k :: 0 <= k < |table| ==> table[k].errMsg != ""
  }

  lemma TurnZeroStatus(table: seq<OptionDescr>, argv: seq<string>, i: nat, st: Settings, turn: Turn)
    requires i < |argv| && ErrorsNamed(table)
    requires turn == ParseTurn(table, argv, i, st) && turn.Stop?
    ensures turn.outcome.status == 0 ==> EndsOnRequest(table, turn.claimed)
  {
    TurnFacts(table, argv, i, st, turn);
    if turn.claimed == [] {
      var sel := Select(table, argv, i, 0);
      if sel.Selected? {
        assert sel.m.message == table[sel.index].errMsg;
      }
    }
  }

  /** The process ends with status 0 only when the last argument claimed is
      a help or version request; every error ends it with status -1. */
  lemma {:induction false} ParseFromZeroStatus(table: seq<OptionDescr>, argv: seq<string>, i: nat, st: Settings, r: ParseResult)
    requires i <= |argv| && ErrorsNamed(table)
    requires r == ParseFrom(table, argv, i, st)
    ensures r.outcome.Exit? && r.outcome.status == 0 ==> EndsOnRequest(table, r.claims)
    decreases |argv| - i
  {
    if i < |argv| {
      var turn := ParseTurn(table, argv, i, st);
      if turn.Next? {
        var rest := ParseFrom(table, argv, turn.claim.last + 1, turn.settings);
        ParseFromNext(table, argv, i, st, turn);
        ParseFromZeroStatus(table, argv, turn.claim.last + 1, turn.settings, rest);
        if rest.outcome.Exit? && rest.outcome.status == 0 {
          EndsOnRequestCons(table, turn.claim, rest.claims);
        }
      } else {
        ParseFromStop(table, argv, i, st, turn);
        TurnZeroStatus(table, argv, i, st, turn);
      }
    }
  }

  /** The help and version rows take no value. */
  predicate RequestsBare(table: seq<OptionDescr>)
  {
    forall k :: 0 <= k < |table| && table[k].kind in {HELP, VERSION} ==> !table[k].hasValue
  }

  /** A claim that lets parsing carry on is never a help or version request,
      so requests only ever end a list of claims. */
  lemma EndsOnRequestTail(table: seq<OptionDescr>, c: Claim, claims: seq<Claim>)
    requires c.option < |table| && table[c.option].kind !in {HELP, VERSION}
    requires EndsOnRequest(table, [c] + claims)
    ensures EndsOnRequest(table, claims)
  {
    assert ([c] + claims)[|claims|] == (if |claims| == 0 then c else claims[|claims| - 1]);
  }

  /** A turn that ends on a help or version request exits with status 0:
      such a row claims its argument with the empty value. */
  lemma TurnRequestStatus(table: seq<OptionDescr>, argv: seq<string>, i: nat, st: Settings, turn: Turn)
    requires i < |argv| && RequestsBare(table)
    requires turn == ParseTurn(table, argv, i, st) && turn.Stop?
    ensures EndsOnRequest(table, turn.claimed) ==> turn.outcome == Exit(0, "", table[turn.claimed[0].option].kind == HELP)
  {
    TurnFacts(table, argv, i, st, turn);
    if EndsOnRequest(table, turn.claimed) {
      var c := turn.claimed[0];
      var sel := Select(table, argv, i, 0);
      assert sel == Selected(c.option, Claimed(c.value, c.last));
      assert c.value == "";
    }
  }

  /** Conversely to `ParseFromZeroStatus`: when the last argument claimed is
      a help or version request, the process ends with status 0. */
  lemma {:induction false} ParseFromRequestStatus(table: seq<OptionDescr>, argv: seq<string>, i: nat, st: Settings, r: ParseResult)
    requires i <= |argv| && RequestsBare(table)
    requires r == ParseFrom(table, argv, i, st)
    ensures r.outcome.Exit? && EndsOnRequest(table, r.claims) ==> r.outcome.status == 0
    decreases |argv| - i
  {
    if i < |argv| {
      var turn := ParseTurn(table, argv, i, st);
      if turn.Next? {
        TurnFacts(table, argv, i, st, turn);
        var rest := ParseFrom(table, argv, turn.claim.last + 1, turn.settings);
        ParseFromNext(table, argv, i, st, turn);
        ParseFromRequestStatus(table, argv, turn.claim.last + 1, turn.settings, rest);
        if EndsOnRequest(table, r.claims) {
          EndsOnRequestTail(table, turn.claim, rest.claims);
        }
      } else {
        ParseFromStop(table, argv, i, st, turn);
        TurnRequestStatus(table, argv, i, st, turn);
      }
    }
  }

  /** `parse` ends the process with status 0 exactly when the message is
      empty, with -1 otherwise, and with status 0 exactly when the last
      argument claimed is `-h`, `--help`, `-v` or `--version`. */
  lemma ParseStatus(argv: seq<string>, st: Settings)
    ensures Parse(argv, st).outcome.Exit? ==>
              (Parse(argv, st).outcome.status == 0 <==> Parse(argv, st).outcome.message == "")
    ensures Parse(argv, st).outcome.Exit? ==>
              Parse(argv, st).outcome.status == 0 || Parse(argv, st).outcome.status == -1
    ensures Parse(argv, st).outcome.Exit? ==>
              (Parse(argv, st).outcome.status == 0 <==> EndsOnRequest(OptionsSet, Parse(argv, st).claims))
  {
    if |argv| > 0 {
      assert ErrorsNamed(OptionsSet);
      assert RequestsBare(OptionsSet);
      ParseFromRequestStatus(OptionsSet, argv, 1, st, Parse(argv, st));
      ParseFromStatus(OptionsSet, argv, 1, st, Parse(argv, st));
      ParseFromZeroStatus(OptionsSet, argv, 1, st, Parse(argv, st));
    }
  }

  /** A failed `parse` ends either in the action of its last claimed
      argument (help, version, or a value the decoder refuses), every
      earlier action letting it carry on, or at the first argument after
      the claims: an unknown option, or one the first matching row rejects
      with its message. */
  lemma ParseExit(argv: seq<string>, st: Settings)
    ensures var r := Parse(argv, st);
            r.outcome.Exit? ==>
              || (|r.claims| > 0 && ApplyClaims(OptionsSet, r.claims, st) == r.outcome)
              || (&& Reach(r.claims, 1) < |argv|
                  && ApplyClaims(OptionsSet, r.claims, st).Continue?
                  && ErrorAt(OptionsSet, argv, Reach(r.claims, 1), r.outcome))
    ensures var r := Parse(argv, st);
            r.outcome.Exit? && |r.claims| > 0 ==> ExitsAtLast(OptionsSet, argv, 1, r.claims, st, r.outcome)
  {
    if |argv| > 0 {
      ParseFromExit(OptionsSet, argv, 1, st, Parse(argv, st));
      ParseFromExitsAtLast(OptionsSet, argv, 1, st, Parse(argv, st));
    }
  }

  /** When `parse` returns, the settings are what the claimed options'
      actions make of the initial ones, in command-line order. */
  lemma ParseAppliesClaims(argv: seq<string>, st: Settings)
    ensures Parse(argv, st).outcome.Continue? ==>
              Parse(argv, st).outcome == ApplyClaims(OptionsSet, Parse(argv, st).claims, st)
  {
    if |argv| > 0 {
      ParseFromAppliesClaims(OptionsSet, argv, 1, st, Parse(argv, st));
    }
  }
}
