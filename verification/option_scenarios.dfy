/** Concrete command lines and what the option parser makes of them. */
module OptionScenarios {
  import opened Strings
  import opened Options

  /** An empty argument equals the empty short name of `--std`, so it is
      taken for that option and consumes the next argument as its value. */
  lemma EmptyArgumentIsStd(st: Settings)
    ensures Parse(["yarpgen", "", "ispc"], st).outcome == Continue(st.(langStd := ISPC))
  {
    var argv := ["yarpgen", "", "ispc"];
    var t := OptionsSet;
    assert MatchOption(argv, 1, t[0]).NoMatch?;
    assert MatchOption(argv, 1, t[1]).NoMatch?;
    assert MatchOption(argv, 1, t[2]).NoMatch?;
    assert MatchOption(argv, 1, t[3]) == Claimed("ispc", 2);
    assert Select(t, argv, 1, 0) == Selected(3, Claimed("ispc", 2));
    assert ParseTurn(t, argv, 1, st) == Next(Claim(3, 1, 2, "ispc"), st.(langStd := ISPC));
  }

  /** A help request exits with status 0 after printing usage. */
  lemma HelpExitsZero(st: Settings)
    ensures Parse(["yarpgen", "--help"], st).outcome == Exit(0, "", true)
    ensures Parse(["yarpgen", "-h"], st).outcome == Exit(0, "", true)
  {
  }

  /** A version request exits with status 0 without printing usage. */
  lemma VersionExitsZero(st: Settings)
    ensures Parse(["yarpgen", "--version"], st).outcome == Exit(0, "", false)
    ensures Parse(["yarpgen", "-v"], st).outcome == Exit(0, "", false)
  {
    var t := OptionsSet;
    var long := ["yarpgen", "--version"];
    DiffersAt(long[1], t[0].longArg, 2);
    assert MatchOption(long, 1, t[0]).NoMatch?;
    assert MatchOption(long, 1, t[1]) == Claimed("", 1);
    SelectFirst(t, long, 1, 1);
    var short := ["yarpgen", "-v"];
    assert MatchOption(short, 1, t[0]).NoMatch?;
    assert MatchOption(short, 1, t[1]) == Claimed("", 1);
    SelectFirst(t, short, 1, 1);
  }

  /** A non-valued option's long name followed by more characters is an
      error carrying that row's message, not an unknown option. */
  lemma LongerNameIsError(st: Settings)
    ensures Parse(["yarpgen", "--helpx"], st).outcome == Exit(-1, "Unreachable Error", true)
  {
  }

  /** A valued long option with nothing after `=` is an error. */
  lemma BareValuedOption(st: Settings)
    ensures Parse(["yarpgen", "--std="], st).outcome == Exit(-1, "Can't recognize standard", true)
  {
    var argv := ["yarpgen", "--std="];
    var t := OptionsSet;
    assert MatchOption(argv, 1, t[0]).NoMatch?;
    assert MatchOption(argv, 1, t[1]).NoMatch?;
    assert MatchOption(argv, 1, t[2]).NoMatch?;
    assert MatchOption(argv, 1, t[3]) == Rejected("Can't recognize standard");
    SelectFirst(t, argv, 1, 3);
  }

  /** A valued short option in last position has no value to take. */
  lemma MissingShortValue(st: Settings)
    ensures Parse(["yarpgen", "-s"], st).outcome == Exit(-1, "Unreachable Error", true)
  {
    var argv := ["yarpgen", "-s"];
    var t := OptionsSet;
    assert MatchOption(argv, 1, t[0]).NoMatch?;
    assert MatchOption(argv, 1, t[1]).NoMatch?;
    assert MatchOption(argv, 1, t[2]) == Rejected("Unreachable Error");
    SelectFirst(t, argv, 1, 2);
  }

  /** An argument that no row matches ends parsing with "Unknown option". */
  lemma UnknownOption(st: Settings)
    ensures Parse(["yarpgen", "--foo"], st).outcome == Exit(-1, "Unknown option: --foo", true)
  {
    var argv := ["yarpgen", "--foo"];
    var t := OptionsSet;
    forall j | 0 <= j < |t|
      ensures MatchOption(argv, 1, t[j]).NoMatch?
    {
      DiffersAt(argv[1], t[j].longArg, 2);
      DiffersAt(argv[1], t[j].longArg + "=", 2);
    }
  }

  /** A short option consumes the next argument; the long option after it
      is then read normally. */
  lemma SeedAndStandard(st: Settings)
    ensures Parse(["yarpgen", "-s", "42", "--std=sycl"], st).outcome == Continue(st.(seed := 42, langStd := SYCL))
  {
    var argv := ["yarpgen", "-s", "42", "--std=sycl"];
    SeedTurn(argv, st);
    StdTurn(argv, st.(seed := 42));
    ParseFromNext(OptionsSet, argv, 1, st, ParseTurn(OptionsSet, argv, 1, st));
    ParseFromNext(OptionsSet, argv, 3, st.(seed := 42), ParseTurn(OptionsSet, argv, 3, st.(seed := 42)));
  }

  lemma SeedTurn(argv: seq<string>, st: Settings)
    requires argv == ["yarpgen", "-s", "42", "--std=sycl"]
    ensures ParseTurn(OptionsSet, argv, 1, st) == Next(Claim(2, 1, 2, "42"), st.(seed := 42))
  {
    var t := OptionsSet;
    assert MatchOption(argv, 1, t[0]).NoMatch?;
    assert MatchOption(argv, 1, t[1]).NoMatch?;
    assert MatchOption(argv, 1, t[2]) == Claimed("42", 2);
    SelectFirst(t, argv, 1, 2);
    SeedFortyTwo();
  }

  lemma SeedFortyTwo()
    ensures SeedValue("42") == 42
  {
    SeedOfDecimal(42, "");
    assert Decimal(42) + "" == "42";
  }

  lemma StdTurn(argv: seq<string>, st: Settings)
    requires argv == ["yarpgen", "-s", "42", "--std=sycl"]
    ensures ParseTurn(OptionsSet, argv, 3, st) == Next(Claim(3, 3, 3, "sycl"), st.(langStd := SYCL))
  {
    var t := OptionsSet;
    DiffersAt(argv[3], t[0].longArg, 2);
    DiffersAt(argv[3], t[1].longArg, 2);
    DiffersAt(argv[3], t[2].longArg + "=", 3);
    assert MatchOption(argv, 3, t[0]).NoMatch?;
    assert MatchOption(argv, 3, t[1]).NoMatch?;
    assert MatchOption(argv, 3, t[2]).NoMatch?;
    assert MatchOption(argv, 3, t[3]) == Claimed("sycl", 3);
    SelectFirst(t, argv, 3, 3);
  }

  /** A repeated option: the later occurrence wins. */
  lemma LaterOverrides(st: Settings)
    ensures Parse(["yarpgen", "--asserts=none", "--asserts=all"], st).outcome == Continue(st.(useAsserts := ALL))
  {
    var argv := ["yarpgen", "--asserts=none", "--asserts=all"];
    assert argv[1] == "--asserts=" + "none" && argv[2] == "--asserts=" + "all";
    AssertsTurn(argv, 1, "none", st);
    AssertsTurn(argv, 2, "all", st.(useAsserts := NONE));
    ParseFromNext(OptionsSet, argv, 1, st, ParseTurn(OptionsSet, argv, 1, st));
    ParseFromNext(OptionsSet, argv, 2, st.(useAsserts := NONE), ParseTurn(OptionsSet, argv, 2, st.(useAsserts := NONE)));
  }

  lemma AssertsTurn(argv: seq<string>, i: nat, value: string, st: Settings)
    requires i < |argv| && argv[i] == "--asserts=" + value && ParseLevel(value).Some?
    ensures ParseTurn(OptionsSet, argv, i, st) == Next(Claim(4, i, i, value), st.(useAsserts := ParseLevel(value).value))
  {
    var t := OptionsSet;
    DiffersAt(argv[i], t[0].longArg, 2);
    DiffersAt(argv[i], t[1].longArg, 2);
    DiffersAt(argv[i], t[2].longArg + "=", 2);
    DiffersAt(argv[i], t[3].longArg + "=", 2);
    assert MatchOption(argv, i, t[0]).NoMatch?;
    assert MatchOption(argv, i, t[1]).NoMatch?;
    assert MatchOption(argv, i, t[2]).NoMatch?;
    assert MatchOption(argv, i, t[3]).NoMatch?;
    StartsWithAppend("--asserts=", value);
    assert MatchOption(argv, i, t[4]) == Claimed(value, i);
    SelectFirst(t, argv, i, 4);
  }

  /** A seed too large for `size_t` is read as `SIZE_MAX`. */
  lemma SeedSaturates()
    ensures SeedValue("99999999999999999999") == SizeMax
  {
    var d := "99999999999999999999";
    TwentyNines(d);
    SeedOfDigits(d, "");
    assert d + "" == d;
  }

  lemma TwentyNines(d: string)
    requires d == "99999999999999999999"
    ensures AllDigits(d) && DigitsValue(d) > SizeMax
  {
    Pow10Add(10, 9);
    assert Pow10(10) == 10000000000 && Pow10(9) == 1000000000;
    assert AllDigits(d) && DigitValue(d[0]) == 9;
    DigitsAtLeast(d);
  }

  /** Leading zeros do not change the seed. */
  lemma SeedLeadingZeros()
    ensures SeedValue("007") == 7
  {
    var d := "007";
    assert d[..2] == "00" && "00"[..1] == "0";
    assert DigitsValue(d) == 7;
    SeedOfDigits(d, "");
    assert d + "" == d;
  }
}
