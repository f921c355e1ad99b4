/**
 * The option scanner at the top of `main` in main.cpp: a loop over the arguments
 * that follow the program name. It stops at the first argument that is empty or does
 * not begin with '-', and ends in one of the outcomes of `Outcome`.
 *
 * The argument vector is modelled without the program name: `args` is argv[1..], so
 * the command starts at `commandStart` in `args` (argv index commandStart + 1).
 * `std::stod` is the parameter `parse`: `None` stands for the exception it throws on
 * text that is not a number.
 */
module Options {
  import opened Wrappers

  const PreciseOptions: seq<string> := ["-p", "--precise"]
  const IntervalOptions: seq<string> := ["-n", "--interval"]
  const BeepOptions: seq<string> := ["-b", "--beep"]
  const HelpOptions: seq<string> := ["-h", "--help"]
  const VersionOptions: seq<string> := ["-v", "--version"]

  /** The interval, in milliseconds, used when no interval option is given. */
  const DefaultInterval: int := 2000
  /** The smallest interval, in milliseconds, that is accepted. */
  const MinInterval: int := 100

  /** The three settings the scanner keeps. `interval` is in milliseconds. */
  datatype Config = Config(enableBeep: bool, isPrecise: bool, interval: int)

  const DefaultConfig: Config := Config(false, false, DefaultInterval)

  /** The exceptions thrown inside the scanning loop. */
  datatype ScanError =
    | UnknownOption(option: string)
    | UnparsableInterval(text: string)
    | NonPositiveInterval(seconds: real)
    | IntervalTooSmall(millis: int)

  datatype Outcome =
    | Help                  // -h / --help: usage text, exit 0
    | Version               // -v / --version: version line, exit 0
    | MissingIntervalValue  // interval option is the last argument: message and usage, exit 0
    | Failed(error: ScanError)  // error message and usage, exit 1
    | NoCommand             // nothing left after the options: usage, exit 0
    | Run(config: Config, commandStart: nat)

  /** The status the process exits with when scanning does not lead to a run. */
  function ExitStatus(o: Outcome): (code: int)
    requires !o.Run?
    ensures code == 0 || code == 1
    ensures code == 1 <==> o.Failed?
  {
    if o.Failed? then 1 else 0
  }

  /** `argv[index][0] != '-'`: an empty argument also stops scanning (its first char is NUL). */
  predicate IsCommandStart(arg: string)
  {
    arg == "" || arg[0] != '-'
  }

  /** The ten option spellings the scanner recognises. */
  predicate IsKnownOption(arg: string)
  {
    arg in HelpOptions || arg in VersionOptions || arg in PreciseOptions ||
    arg in IntervalOptions || arg in BeepOptions
  }

  /**
   * `static_cast<int>(seconds * 1000)` with its two checks: a value that is not
   * positive is refused, then the millisecond count is truncated and refused below 100.
   */
  function IntervalMillis(seconds: real): (r: Result<int, ScanError>)
    ensures r.Ok? <==> seconds * 1000.0 >= MinInterval as real
    ensures r.Ok? ==> MinInterval <= r.value &&
                      r.value as real <= seconds * 1000.0 < r.value as real + 1.0
    ensures seconds <= 0.0 ==> r == Err(NonPositiveInterval(seconds))
    ensures 0.0 < seconds && r.Err? ==> r.error.IntervalTooSmall? && r.error.millis < MinInterval
  {
    if seconds <= 0.0 then Err(NonPositiveInterval(seconds))
    else
      var millis := (seconds * 1000.0).Floor;
      if millis < MinInterval then Err(IntervalTooSmall(millis)) else Ok(millis)
  }

  /** The value of an interval option: `std::stod` followed by `IntervalMillis`. */
  function IntervalValue(text: string, parse: string -> Option<real>): Result<int, ScanError>
  {
    match parse(text)
    case None => Err(UnparsableInterval(text))
    case Some(seconds) => IntervalMillis(seconds)
  }

  /** What an argument is to the scanner, checked in the order main.cpp checks it. */
  datatype ArgKind =
    CommandWord | HelpSwitch | VersionSwitch | PreciseSwitch | IntervalSwitch | BeepSwitch | UnknownSwitch

  function Classify(arg: string): ArgKind
  {
    if IsCommandStart(arg) then CommandWord
    else if arg in HelpOptions then HelpSwitch
    else if arg in VersionOptions then VersionSwitch
    else if arg in PreciseOptions then PreciseSwitch
    else if arg in IntervalOptions then IntervalSwitch
    else if arg in BeepOptions then BeepSwitch
    else UnknownSwitch
  }

  /** What scanning from position `i` with settings `cfg` ends in. */
  function ScanFrom(args: seq<string>, parse: string -> Option<real>, i: nat, cfg: Config): Outcome
    requires i <= |args|
    decreases |args| - i
  {
    if i == |args| then NoCommand
    else
      match Classify(args[i])
      case CommandWord => Run(cfg, i)
      case HelpSwitch => Help
      case VersionSwitch => Version
      case PreciseSwitch => ScanFrom(args, parse, i + 1, cfg.(isPrecise := true))
      case IntervalSwitch =>
        if i + 1 == |args| then MissingIntervalValue
        else
          (match IntervalValue(args[i + 1], parse)
           case Err(e) => Failed(e)
           case Ok(millis) => ScanFrom(args, parse, i + 2, cfg.(interval := millis)))
      case BeepSwitch => ScanFrom(args, parse, i + 1, cfg.(enableBeep := true))
      case UnknownSwitch => Failed(UnknownOption(args[i]))
  }

  /** What scanning the whole argument vector ends in. */
  function Scan(args: seq<string>, parse: string -> Option<real>): Outcome
  {
    ScanFrom(args, parse, 0, DefaultConfig)
  }

  /** Position `j` holds the value of an interval option. */
  predicate IsIntervalValueAt(args: seq<string>, j: nat)
    requires j < |args|
  {
    0 < j && args[j - 1] in IntervalOptions
  }

  /**
   * The scanning loop of `main`. The outcome is that of `Scan`; on a run, the command
   * starts at an argument that is empty or does not begin with '-', every argument
   * before it is an option or the value of an interval option, and the interval is at
   * least 100 ms.
   */
  method ScanOptions(args: seq<string>, parse: string -> Option<real>) returns (outcome: Outcome)
    ensures outcome == Scan(args, parse)
    ensures outcome.Run? ==>
              outcome.commandStart < |args| && IsCommandStart(args[outcome.commandStart]) &&
              outcome.config.interval >= MinInterval
    ensures outcome.Run? ==>
              forall j :: 0 <= j < outcome.commandStart ==> !IsCommandStart(args[j]) || IsIntervalValueAt(args, j)
  {
    var enableBeep, isPrecise, interval := false, false, DefaultInterval;
    var index := 0;
    while index < |args|
      invariant index <= |args|
      invariant ScanFrom(args, parse, index, Config(enableBeep, isPrecise, interval)) == Scan(args, parse)
      invariant interval >= MinInterval
      invariant forall j :: 0 <= j < index ==> !IsCommandStart(args[j]) || IsIntervalValueAt(args, j)
    {
      var arg := args[index];
      if IsCommandStart(arg) {
        break;
      }
      if arg in HelpOptions {
        return Help;
      } else if arg in VersionOptions {
        return Version;
      } else if arg in PreciseOptions {
        isPrecise := true;
      } else if arg in IntervalOptions {
        index := index + 1;
        if index >= |args| {
          return MissingIntervalValue;
        }
        var parsed := parse(args[index]);
        if parsed.None? {
          return Failed(UnparsableInterval(args[index]));
        }
        var seconds := parsed.value;
        if seconds <= 0.0 {
          return Failed(NonPositiveInterval(seconds));
        }
        var millis := (seconds * 1000.0).Floor;
        if millis < MinInterval {
          return Failed(IntervalTooSmall(millis));
        }
        interval := millis;
      } else if arg in BeepOptions {
        enableBeep := true;
      } else {
        return Failed(UnknownOption(arg));
      }
      index := index + 1;
    }
    if index == |args| {
      return NoCommand;
    }
    return Run(Config(enableBeep, isPrecise, interval), index);
  }

  // ---------------------------------------------------------------------------
  // Properties of the scan, stated over argument vectors built from options.

  /** One option as it is written on the command line. */
  datatype ParsedOption =
    | Switch(spelling: string)
    | IntervalSetting(spelling: string, text: string)

  /** The arguments an option list occupies. */
  function Render(opts: seq<ParsedOption>): seq<string>
  {
    if opts == [] then [] else RenderOne(opts[0]) + Render(opts[1..])
  }

  /** A precise or beep switch, or an interval option with a value that is accepted. */
  predicate WellFormed(o: ParsedOption, parse: string -> Option<real>)
  {
    match o
    case Switch(spelling) => spelling in PreciseOptions || spelling in BeepOptions
    case IntervalSetting(spelling, text) => spelling in IntervalOptions && IntervalValue(text, parse).Ok?
  }

  predicate AllWellFormed(opts: seq<ParsedOption>, parse: string -> Option<real>)
  {
    forall i :: 0 <= i < |opts| ==> WellFormed(opts[i], parse)
  }

  /** Some switch of the list is spelled as one of `spellings`. */
  predicate HasSwitch(opts: seq<ParsedOption>, spellings: seq<string>)
  {
    exists i :: 0 <= i < |opts| && opts[i].Switch? && opts[i].spelling in spellings
  }

  /** The interval of the last accepted interval option of the list, read from the end. */
  function LastInterval(opts: seq<ParsedOption>, parse: string -> Option<real>): Option<int>
  {
    if opts == [] then None
    else
      var o := opts[|opts| - 1];
      if o.IntervalSetting? && IntervalValue(o.text, parse).Ok?
      then Some(IntervalValue(o.text, parse).value)
      else LastInterval(opts[..|opts| - 1], parse)
  }

  /** The settings in force after an option list: its options applied one by one from `cfg`. */
  function Settle(cfg: Config, opts: seq<ParsedOption>, parse: string -> Option<real>): Config
    decreases |opts|
  {
    if opts == [] then cfg else Settle(ApplyOption(cfg, opts[0], parse), opts[1..], parse)
  }

  /** A well-formed option list sets no interval exactly when it has no interval option. */
  lemma {:induction false} NoIntervalOption(opts: seq<ParsedOption>, parse: string -> Option<real>)
    requires AllWellFormed(opts, parse)
    ensures LastInterval(opts, parse).None? <==> forall i :: 0 <= i < |opts| ==> !opts[i].IntervalSetting?
    decreases |opts|
  {
    if opts != [] {
      var n := |opts| - 1;
      var front := opts[..n];
      assert AllWellFormed(front, parse) by {
        forall i | 0 <= i < |front| ensures WellFormed(front[i], parse) { assert front[i] == opts[i]; }
      }
      NoIntervalOption(front, parse);
      if opts[n].IntervalSetting? {
        assert WellFormed(opts[n], parse);
      } else {
        forall i | 0 <= i < n ensures opts[i] == front[i] { }
      }
    }
  }

  /**
   * The last interval option wins: the interval of an option list is that of an interval
   * option with no interval option after it.
   */
  lemma {:induction false} LastIntervalWins(opts: seq<ParsedOption>, parse: string -> Option<real>)
    requires AllWellFormed(opts, parse)
    ensures LastInterval(opts, parse).Some? ==>
              exists j :: 0 <= j < |opts| && opts[j].IntervalSetting? &&
                          LastInterval(opts, parse) == Some(IntervalValue(opts[j].text, parse).value) &&
                          forall i :: j < i < |opts| ==> !opts[i].IntervalSetting?
    decreases |opts|
  {
    if opts != [] {
      var n := |opts| - 1;
      var front := opts[..n];
      assert AllWellFormed(front, parse) by {
        forall i | 0 <= i < |front| ensures WellFormed(front[i], parse) { assert front[i] == opts[i]; }
      }
      LastIntervalWins(front, parse);
      if opts[n].IntervalSetting? {
        assert WellFormed(opts[n], parse);
      } else {
        forall i | 0 <= i < n ensures opts[i] == front[i] { }
      }
    }
  }

  /** `LastInterval` of a list with one more option in front. */
  lemma {:induction false} LastIntervalCons(o: ParsedOption, os: seq<ParsedOption>, parse: string -> Option<real>)
    ensures LastInterval([o] + os, parse) ==
              if LastInterval(os, parse).Some? then LastInterval(os, parse) else LastInterval([o], parse)
    decreases |os|
  {
    if os != [] {
      var all := [o] + os;
      assert all[..|all| - 1] == [o] + os[..|os| - 1];
      assert all[|all| - 1] == os[|os| - 1];
      LastIntervalCons(o, os[..|os| - 1], parse);
    } else {
      assert [o] + os == [o];
    }
  }

  /** The arguments one option occupies. */
  function RenderOne(o: ParsedOption): seq<string>
  {
    match o
    case Switch(spelling) => [spelling]
    case IntervalSetting(spelling, text) => [spelling, text]
  }

  /** The settings after one option. */
  function ApplyOption(cfg: Config, o: ParsedOption, parse: string -> Option<real>): Config
  {
    match o
    case Switch(spelling) =>
      if spelling in PreciseOptions then cfg.(isPrecise := true) else cfg.(enableBeep := true)
    case IntervalSetting(_, text) =>
      match IntervalValue(text, parse)
      case Ok(millis) => cfg.(interval := millis)
      case Err(_) => cfg
  }

  lemma HasSwitchCons(o: ParsedOption, os: seq<ParsedOption>, spellings: seq<string>)
    ensures HasSwitch([o] + os, spellings) == ((o.Switch? && o.spelling in spellings) || HasSwitch(os, spellings))
  {
    var all := [o] + os;
    assert all[0] == o;
    if HasSwitch(os, spellings) {
      var k :| 0 <= k < |os| && os[k].Switch? && os[k].spelling in spellings;
      assert all[k + 1] == os[k];
    }
    if HasSwitch(all, spellings) && !(o.Switch? && o.spelling in spellings) {
      var k :| 0 <= k < |all| && all[k].Switch? && all[k].spelling in spellings;
      assert os[k - 1] == all[k];
    }
  }

  /**
   * What an option list establishes: beep and precise mode are on when they were on
   * before or one of their switches is in the list, and the interval is that of the
   * last interval option, or the one before the list when it has none.
   */
  lemma {:induction false} SettleMeaning(cfg: Config, opts: seq<ParsedOption>, parse: string -> Option<real>)
    requires AllWellFormed(opts, parse)
    ensures Settle(cfg, opts, parse) ==
              Config(cfg.enableBeep || HasSwitch(opts, BeepOptions),
                     cfg.isPrecise || HasSwitch(opts, PreciseOptions),
                     match LastInterval(opts, parse)
                     case Some(millis) => millis
                     case None => cfg.interval)
    decreases |opts|
  {
    if opts != [] {
      var o, os := opts[0], opts[1..];
      WellFormedSplit(opts, parse);
      SettleMeaning(ApplyOption(cfg, o, parse), os, parse);
      HasSwitchCons(o, os, BeepOptions);
      HasSwitchCons(o, os, PreciseOptions);
      LastIntervalCons(o, os, parse);
      assert [o][..0] == [];
    }
  }

  /** Each spelling is classified as its own option; no spelling can start the command. */
  lemma SpellingKinds(arg: string)
    ensures arg in HelpOptions ==> Classify(arg) == HelpSwitch
    ensures arg in VersionOptions ==> Classify(arg) == VersionSwitch
    ensures arg in PreciseOptions ==> Classify(arg) == PreciseSwitch
    ensures arg in IntervalOptions ==> Classify(arg) == IntervalSwitch
    ensures arg in BeepOptions ==> Classify(arg) == BeepSwitch
    ensures !IsCommandStart(arg) && !IsKnownOption(arg) ==> Classify(arg) == UnknownSwitch
  {
  }

  lemma WellFormedSplit(opts: seq<ParsedOption>, parse: string -> Option<real>)
    requires opts != [] && AllWellFormed(opts, parse)
    ensures WellFormed(opts[0], parse) && AllWellFormed(opts[1..], parse) && opts == [opts[0]] + opts[1..]
  {
    assert WellFormed(opts[0], parse);
    forall i | 0 <= i < |opts[1..]| ensures WellFormed(opts[1..][i], parse) {
      assert opts[1..][i] == opts[i + 1];
    }
  }

  /** `args` holds option `o` at position `i`. */
  predicate OptionAt(args: seq<string>, i: nat, o: ParsedOption)
  {
    i + |RenderOne(o)| <= |args| && args[i] == o.spelling &&
    (o.IntervalSetting? ==> args[i + 1] == o.text)
  }

  /** `args` holds the options of `opts` one after the other, from position `i`. */
  predicate OptionsAt(args: seq<string>, i: nat, opts: seq<ParsedOption>)
    decreases |opts|
  {
    if opts == [] then i <= |args|
    else OptionAt(args, i, opts[0]) && OptionsAt(args, i + |RenderOne(opts[0])|, opts[1..])
  }

  /** A rendered option list sits in any argument vector built around it. */
  lemma {:induction false} RenderedOptionsAt(pre: seq<string>, opts: seq<ParsedOption>, rest: seq<string>)
    ensures OptionsAt(pre + Render(opts) + rest, |pre|, opts)
    decreases |opts|
  {
    if opts == [] {
      assert Render(opts) == [];
    } else {
      var o, os := opts[0], opts[1..];
      var args := pre + Render(opts) + rest;
      assert args == (pre + RenderOne(o)) + Render(os) + rest;
      assert args[|pre|] == RenderOne(o)[0];
      if o.IntervalSetting? {
        assert args[|pre| + 1] == RenderOne(o)[1];
      }
      RenderedOptionsAt(pre + RenderOne(o), os, rest);
    }
  }

  /** The scan passes over one well-formed option found at position `i`. */
  lemma ScanOneOption(args: seq<string>, i: nat, o: ParsedOption, parse: string -> Option<real>, cfg: Config)
    requires WellFormed(o, parse) && OptionAt(args, i, o)
    ensures ScanFrom(args, parse, i, cfg) ==
              ScanFrom(args, parse, i + |RenderOne(o)|, ApplyOption(cfg, o, parse))
  {
    SpellingKinds(o.spelling);
  }

  /**
   * Scanning over an option list found at position `i`: the scan passes over every
   * option of the list and continues after it with the settings the list establishes.
   */
  lemma {:induction false} SkipOptions(args: seq<string>, i: nat, opts: seq<ParsedOption>, end: nat,
                                       parse: string -> Option<real>, cfg: Config)
    requires AllWellFormed(opts, parse) && OptionsAt(args, i, opts) && end == i + |Render(opts)|
    ensures end <= |args|
    ensures ScanFrom(args, parse, i, cfg) == ScanFrom(args, parse, end, Settle(cfg, opts, parse))
    decreases |opts|
  {
    if opts != [] {
      var o, os := opts[0], opts[1..];
      WellFormedSplit(opts, parse);
      ScanOneOption(args, i, o, parse, cfg);
      SkipOptions(args, i + |RenderOne(o)|, os, end, parse, ApplyOption(cfg, o, parse));
    }
  }

  /** What the scan meets right after an option list that opens the arguments. */
  lemma ScanAfterOptions(opts: seq<ParsedOption>, rest: seq<string>, parse: string -> Option<real>)
    requires AllWellFormed(opts, parse)
    ensures Scan(Render(opts) + rest, parse) ==
              ScanFrom(Render(opts) + rest, parse, |Render(opts)|, Settle(DefaultConfig, opts, parse))
  {
    RenderedOptionsAt([], opts, rest);
    assert [] + Render(opts) + rest == Render(opts) + rest;
    SkipOptions(Render(opts) + rest, 0, opts, |Render(opts)|, parse, DefaultConfig);
  }

  /**
   * A run: after well-formed options, an argument that is empty or does not begin
   * with '-' starts the command. Beep and precise mode are on exactly when one of their
   * switches was given, and the interval is that of the last interval option, or
   * 2000 ms when there is none.
   */
  lemma ScanRunsCommand(opts: seq<ParsedOption>, command: seq<string>, parse: string -> Option<real>)
    requires AllWellFormed(opts, parse)
    requires |command| > 0 && IsCommandStart(command[0])
    ensures Scan(Render(opts) + command, parse) ==
              Run(Config(HasSwitch(opts, BeepOptions), HasSwitch(opts, PreciseOptions),
                         match LastInterval(opts, parse)
                         case Some(millis) => millis
                         case None => DefaultInterval),
                  |Render(opts)|)
  {
    ScanAfterOptions(opts, command, parse);
    assert (Render(opts) + command)[|Render(opts)|] == command[0];
    SettleMeaning(DefaultConfig, opts, parse);
  }

  /**
   * The first help or version option seen ends the scan with exit status 0, whatever
   * follows it.
   */
  lemma ScanStopsAtHelpOrVersion(opts: seq<ParsedOption>, arg: string, rest: seq<string>,
                                 parse: string -> Option<real>)
    requires AllWellFormed(opts, parse)
    requires arg in HelpOptions || arg in VersionOptions
    ensures var o := Scan(Render(opts) + [arg] + rest, parse);
            o == (if arg in HelpOptions then Help else Version) && ExitStatus(o) == 0
  {
    assert Render(opts) + [arg] + rest == Render(opts) + ([arg] + rest);
    ScanAfterOptions(opts, [arg] + rest, parse);
    assert (Render(opts) + ([arg] + rest))[|Render(opts)|] == arg;
    SpellingKinds(arg);
  }

  /**
   * An argument that begins with '-' and is none of the ten option spellings is an
   * error with exit status 1; no command is started.
   */
  lemma ScanRejectsUnknownOption(opts: seq<ParsedOption>, arg: string, rest: seq<string>,
                                 parse: string -> Option<real>)
    requires AllWellFormed(opts, parse)
    requires !IsCommandStart(arg) && !IsKnownOption(arg)
    ensures var o := Scan(Render(opts) + [arg] + rest, parse);
            o == Failed(UnknownOption(arg)) && ExitStatus(o) == 1
  {
    assert Render(opts) + [arg] + rest == Render(opts) + ([arg] + rest);
    ScanAfterOptions(opts, [arg] + rest, parse);
    assert (Render(opts) + ([arg] + rest))[|Render(opts)|] == arg;
    SpellingKinds(arg);
  }

  /**
   * An interval option whose value `std::stod` refuses, or that is not positive, or
   * that truncates to fewer than 100 ms, is an error with exit status 1.
   */
  lemma ScanRejectsIntervalValue(opts: seq<ParsedOption>, option: string, text: string, rest: seq<string>,
                                 parse: string -> Option<real>)
    requires AllWellFormed(opts, parse)
    requires option in IntervalOptions && IntervalValue(text, parse).Err?
    ensures var o := Scan(Render(opts) + [option, text] + rest, parse);
            o == Failed(match parse(text)
                        case None => UnparsableInterval(text)
                        case Some(seconds) =>
                          if seconds <= 0.0 then NonPositiveInterval(seconds)
                          else IntervalTooSmall((seconds * 1000.0).Floor)) &&
            ExitStatus(o) == 1
  {
    var args := Render(opts) + ([option, text] + rest);
    assert Render(opts) + [option, text] + rest == args;
    ScanAfterOptions(opts, [option, text] + rest, parse);
    assert args[|Render(opts)|] == option && args[|Render(opts)| + 1] == text;
    SpellingKinds(option);
  }

  /** An interval option with nothing after it prints usage and exits with status 0, not 1. */
  lemma ScanMissingIntervalValue(opts: seq<ParsedOption>, option: string, parse: string -> Option<real>)
    requires AllWellFormed(opts, parse)
    requires option in IntervalOptions
    ensures var o := Scan(Render(opts) + [option], parse);
            o == MissingIntervalValue && ExitStatus(o) == 0
  {
    ScanAfterOptions(opts, [option], parse);
    assert (Render(opts) + [option])[|Render(opts)|] == option;
    SpellingKinds(option);
  }

  /** Options with no command after them print usage and exit with status 0. */
  lemma ScanWithoutCommand(opts: seq<ParsedOption>, parse: string -> Option<real>)
    requires AllWellFormed(opts, parse)
    ensures var o := Scan(Render(opts), parse);
            o == NoCommand && ExitStatus(o) == 0
  {
    ScanAfterOptions(opts, [], parse);
    assert Render(opts) + [] == Render(opts);
  }

  /**
   * Arguments after the point where the scan stops are never examined: every outcome
   * other than "no command" and "missing interval value" stays the same when more
   * arguments are appended.
   */
  lemma {:induction false} ScanIgnoresLaterArguments(args: seq<string>, more: seq<string>,
                                                     parse: string -> Option<real>, i: nat, cfg: Config)
    requires i <= |args|
    requires !ScanFrom(args, parse, i, cfg).NoCommand? && !ScanFrom(args, parse, i, cfg).MissingIntervalValue?
    ensures ScanFrom(args + more, parse, i, cfg) == ScanFrom(args, parse, i, cfg)
    decreases |args| - i
  {
    var all := args + more;
    assert all[i] == args[i];
    match Classify(args[i])
    case PreciseSwitch =>
      ScanIgnoresLaterArguments(args, more, parse, i + 1, cfg.(isPrecise := true));
    case IntervalSwitch =>
      assert all[i + 1] == args[i + 1];
      if IntervalValue(args[i + 1], parse).Ok? {
        var millis := IntervalValue(args[i + 1], parse).value;
        ScanIgnoresLaterArguments(args, more, parse, i + 2, cfg.(interval := millis));
      }
    case BeepSwitch =>
      ScanIgnoresLaterArguments(args, more, parse, i + 1, cfg.(enableBeep := true));
    case _ =>
  }

  /**
   * A run names an argument inside the vector, at or after where the scan began, that
   * is empty or does not begin with '-': the command is never empty.
   */
  lemma {:induction false} ScanRunStartsInside(args: seq<string>, parse: string -> Option<real>, i: nat, cfg: Config)
    requires i <= |args|
    ensures var o := ScanFrom(args, parse, i, cfg);
            o.Run? ==> i <= o.commandStart < |args| && IsCommandStart(args[o.commandStart])
    decreases |args| - i
  {
    if i < |args| {
      match Classify(args[i])
      case PreciseSwitch =>
        ScanRunStartsInside(args, parse, i + 1, cfg.(isPrecise := true));
      case IntervalSwitch =>
        if i + 1 < |args| && IntervalValue(args[i + 1], parse).Ok? {
          ScanRunStartsInside(args, parse, i + 2, cfg.(interval := IntervalValue(args[i + 1], parse).value));
        }
      case BeepSwitch =>
        ScanRunStartsInside(args, parse, i + 1, cfg.(enableBeep := true));
      case _ =>
    }
  }

  /** The interval is truncated, not rounded: 1.9999 s is 1999 ms and 0.0999 s is refused. */
  lemma IntervalTruncates()
    ensures IntervalMillis(1.9999) == Ok(1999)
    ensures IntervalMillis(0.0999) == Err(IntervalTooSmall(99))
    ensures IntervalMillis(0.1) == Ok(100)
  {
    assert (1.9999 * 1000.0).Floor == 1999;
    assert (0.0999 * 1000.0).Floor == 99;
    assert (0.1 * 1000.0).Floor == 100;
  }
}
