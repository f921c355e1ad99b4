/**
 * The body of the endless `for` loop at the end of `main` in main.cpp: each pass
 * prints the banner, runs the command through `execute` (beeping on a non-zero exit
 * when beep is enabled) and then sleeps, either until `start + interval * count`
 * (precise mode) or for `interval` (accumulating mode).
 *
 * Time is a plain integer count of milliseconds on a monotonic clock; the time each
 * pass takes and the status `std::system` reports for each pass are inputs. The loop
 * is modelled for a finite number of passes.
 */
module Watch {
  import opened Wrappers
  import opened CommandLine
  import opened Options

  /** What `execute` returns, and whether it started a process to get it. */
  datatype Execution = Execution(exitCode: int, spawned: bool)

  /**
   * `execute`: the literal command text "false" yields status 1 without starting a
   * process; any other text is handed to `std::system`, whose status is `systemStatus`.
   */
  function Execute(command: string, systemStatus: int): (r: Execution)
    ensures !r.spawned <==> command == "false"
    ensures !r.spawned ==> r.exitCode == 1
    ensures r.spawned ==> r.exitCode == systemStatus
  {
    if command == "false" then Execution(1, false) else Execution(systemStatus, true)
  }

  /** The command text is "false" for exactly one argument vector: the single word false. */
  lemma {:induction false} JoinIsFalseOnlyForFalse(args: seq<string>)
    requires |args| > 0
    ensures JoinArguments(args) == "false" <==> args == ["false"]
  {
    var q := QuoteArgument(args[0]);
    if |args| >= 2 {
      JoinArgumentsCons(args);
      var s := JoinArguments(args);
      assert s[|q|] == Space;
      assert forall k :: 0 <= k < |"false"| ==> "false"[k] != Space;
      assert s != "false";
    } else {
      QuoteAllTail(args);
      assert JoinArguments(args) == q;
      if Space in args[0] {
        assert q[0] == DoubleQuote;
      } else {
        assert q == args[0];
        assert args == [args[0]];
      }
    }
  }

  /** `execute` on the command text skips the process exactly for the command `false`. */
  lemma ExecuteSkipsProcessOnlyForFalse(args: seq<string>, systemStatus: int)
    requires |args| > 0
    ensures var e := Execute(JoinArguments(args), systemStatus);
            (!e.spawned <==> args == ["false"]) && (args == ["false"] ==> e.exitCode == 1)
  {
    JoinIsFalseOnlyForFalse(args);
  }

  /** What one pass did: the execution, if the command was executed, and whether it beeped. */
  datatype PassResult = PassResult(execution: Option<Execution>, beeped: bool)

  /**
   * The pass as main.cpp writes it: `enableBeep && execute(command) != 0`. The `&&`
   * short-circuits, so without beep the command is not executed at all.
   */
  function RunPassAsWritten(cfg: Config, command: string, systemStatus: int): (r: PassResult)
    ensures r.execution.Some? <==> cfg.enableBeep
    ensures r.execution.Some? ==> r.execution.value == Execute(command, systemStatus)
    ensures r.beeped <==> cfg.enableBeep && Execute(command, systemStatus).exitCode != 0
  {
    if cfg.enableBeep then
      var e := Execute(command, systemStatus);
      PassResult(Some(e), e.exitCode != 0)
    else PassResult(None, false)
  }

  /**
   * The pass as the usage text of main.cpp:39-41 describes it (`145watch [options]
   * (<command> | false)`, with `-b` to "beep if command has a non-zero exit"): the
   * command is executed on every pass, and a beep follows exactly when beep is enabled
   * and the exit status is non-zero.
   */
  function RunPass(cfg: Config, command: string, systemStatus: int): (r: PassResult)
    ensures r.execution == Some(Execute(command, systemStatus))
    ensures r.beeped <==> cfg.enableBeep && r.execution.value.exitCode != 0
  {
    var e := Execute(command, systemStatus);
    PassResult(Some(e), cfg.enableBeep && e.exitCode != 0)
  }

  /** As written, the command is never executed when beep is off, while it should be. */
  lemma NoCommandRunsWithoutBeep(cfg: Config, command: string, systemStatus: int)
    requires !cfg.enableBeep
    ensures RunPassAsWritten(cfg, command, systemStatus).execution.None?
    ensures RunPass(cfg, command, systemStatus).execution.Some?
  {
  }

  /** The correction changes no beep: both rules beep on exactly the same passes. */
  lemma BeepUnchangedByCorrection(cfg: Config, command: string, systemStatus: int)
    ensures RunPassAsWritten(cfg, command, systemStatus).beeped == RunPass(cfg, command, systemStatus).beeped
    ensures cfg.enableBeep ==> RunPassAsWritten(cfg, command, systemStatus) == RunPass(cfg, command, systemStatus)
  {
  }

  /** Which reading of the pass the loop follows: the code as written, or the corrected one. */
  datatype PassRule = AsWritten | Corrected

  /**
   * One pass under `rule`. Both rules beep alike; they differ only in that the code as
   * written executes nothing when beep is off.
   */
  function RunPassBy(rule: PassRule, cfg: Config, command: string, systemStatus: int): (r: PassResult)
    ensures r.execution.None? <==> rule == AsWritten && !cfg.enableBeep
    ensures r.execution.Some? ==> r.execution.value == Execute(command, systemStatus)
    ensures r.beeped <==> cfg.enableBeep && Execute(command, systemStatus).exitCode != 0
  {
    match rule
    case AsWritten => RunPassAsWritten(cfg, command, systemStatus)
    case Corrected => RunPass(cfg, command, systemStatus)
  }

  function Max(a: int, b: int): int
  {
    if a >= b then a else b
  }

  /** The k-th precise deadline: `start + interval * count`. */
  function Deadline(cfg: Config, begin: int, count: nat): int
  {
    begin + cfg.interval * count
  }

  /**
   * When pass `count`, finished at `finishedAt`, wakes up: `sleep_until` the deadline
   * (at once when it has passed) in precise mode, `sleep_for` the interval otherwise.
   */
  function WakeTime(cfg: Config, begin: int, count: nat, finishedAt: int): int
  {
    if cfg.isPrecise then Max(finishedAt, Deadline(cfg, begin, count)) else finishedAt + cfg.interval
  }

  /** One pass of the loop: its count, when it started, what it did, when it ended and woke. */
  datatype PassRecord = PassRecord(count: nat, startedAt: int, result: PassResult, finishedAt: int, wakeAt: int)

  /**
   * The passes from pass `count` on, starting at time `now`, each run under `rule`;
   * pass k takes `costs[k]` and `std::system` reports `statuses[k]` for it.
   */
  function Passes(rule: PassRule, cfg: Config, command: string, begin: int, statuses: seq<int>, costs: seq<nat>,
                  count: nat, now: int): (r: seq<PassRecord>)
    requires |statuses| == |costs|
    decreases |statuses|
    ensures |r| == |statuses|
  {
    if statuses == [] then []
    else
      var finished := now + costs[0];
      var wake := WakeTime(cfg, begin, count, finished);
      [PassRecord(count, now, RunPassBy(rule, cfg, command, statuses[0]), finished, wake)]
      + Passes(rule, cfg, command, begin, statuses[1..], costs[1..], count + 1, wake)
  }

  /** The first pass of `Passes`, and the passes after it. */
  lemma PassesCons(rule: PassRule, cfg: Config, command: string, begin: int, statuses: seq<int>, costs: seq<nat>,
                   count: nat, now: int)
    requires |statuses| == |costs| > 0
    ensures var finished := now + costs[0];
            var wake := WakeTime(cfg, begin, count, finished);
            Passes(rule, cfg, command, begin, statuses, costs, count, now) ==
            [PassRecord(count, now, RunPassBy(rule, cfg, command, statuses[0]), finished, wake)]
            + Passes(rule, cfg, command, begin, statuses[1..], costs[1..], count + 1, wake)
  {
  }

  /**
   * The first |statuses| passes of the loop under `rule`, starting at `begin` (the
   * `start` of main.cpp) with count 1.
   */
  method WatchLoop(rule: PassRule, cfg: Config, command: string, begin: int, statuses: seq<int>, costs: seq<nat>)
    returns (passes: seq<PassRecord>)
    requires |statuses| == |costs|
    ensures passes == Passes(rule, cfg, command, begin, statuses, costs, 1, begin)
    ensures |passes| == |statuses|
    ensures forall k :: 0 <= k < |passes| ==> passes[k].count == k + 1
  {
    passes := [];
    var now := begin;
    var count := 1;
    ghost var all := Passes(rule, cfg, command, begin, statuses, costs, 1, begin);
    while count <= |statuses|
      invariant 1 <= count <= |statuses| + 1
      invariant passes == all[..count - 1]
      invariant now == if count == 1 then begin else all[count - 2].wakeAt
    {
      var started := now;
      var result := RunPassBy(rule, cfg, command, statuses[count - 1]);
      now := now + costs[count - 1];
      var finished := now;
      if cfg.isPrecise {
        now := Max(now, begin + cfg.interval * count);
      } else {
        now := now + cfg.interval;
      }
      var record := PassRecord(count, started, result, finished, now);
      assert all[count - 1] == record by {
        PassAt(rule, cfg, command, begin, statuses, costs, 1, begin, count - 1);
      }
      assert all[..count] == all[..count - 1] + [record];
      passes := passes + [record];
      count := count + 1;
    }
    assert all[..count - 1] == all;
    forall k | 0 <= k < |passes| ensures passes[k].count == k + 1 {
      PassAt(rule, cfg, command, begin, statuses, costs, 1, begin, k);
    }
  }

  /**
   * Pass k of `Passes`: numbered `count + k`, started when the previous pass woke (the
   * first at `now`), took its cost, woke as `WakeTime` says, and ran as `rule` says.
   */
  lemma {:induction false} PassAt(rule: PassRule, cfg: Config, command: string, begin: int, statuses: seq<int>,
                                  costs: seq<nat>, count: nat, now: int, k: nat)
    requires |statuses| == |costs| && k < |statuses|
    ensures var ps := Passes(rule, cfg, command, begin, statuses, costs, count, now);
            ps[k].count == count + k &&
            ps[k].startedAt == (if k == 0 then now else ps[k - 1].wakeAt) &&
            ps[k].finishedAt == ps[k].startedAt + costs[k] &&
            ps[k].wakeAt == WakeTime(cfg, begin, count + k, ps[k].finishedAt) &&
            ps[k].result == RunPassBy(rule, cfg, command, statuses[k])
    decreases k
  {
    PassesCons(rule, cfg, command, begin, statuses, costs, count, now);
    if k > 0 {
      var wake := WakeTime(cfg, begin, count, now + costs[0]);
      PassAt(rule, cfg, command, begin, statuses[1..], costs[1..], count + 1, wake, k - 1);
    }
  }

  /**
   * The rule changes no timing and no beep: pass k starts, ends and wakes at the same
   * times, and beeps alike, whether the loop runs as written or corrected.
   */
  lemma {:induction false} ScheduleIgnoresRule(cfg: Config, command: string, begin: int, statuses: seq<int>,
                                               costs: seq<nat>, k: nat)
    requires |statuses| == |costs| && k < |statuses|
    ensures var written := Passes(AsWritten, cfg, command, begin, statuses, costs, 1, begin);
            var corrected := Passes(Corrected, cfg, command, begin, statuses, costs, 1, begin);
            written[k].count == corrected[k].count &&
            written[k].startedAt == corrected[k].startedAt &&
            written[k].finishedAt == corrected[k].finishedAt &&
            written[k].wakeAt == corrected[k].wakeAt &&
            written[k].result.beeped == corrected[k].result.beeped
    decreases k
  {
    PassAt(AsWritten, cfg, command, begin, statuses, costs, 1, begin, k);
    PassAt(Corrected, cfg, command, begin, statuses, costs, 1, begin, k);
    if k > 0 {
      ScheduleIgnoresRule(cfg, command, begin, statuses, costs, k - 1);
    }
  }

  /** As written, the loop executes the command on a pass exactly when beep is enabled. */
  lemma AsWrittenExecutesOnlyWithBeep(cfg: Config, command: string, begin: int, statuses: seq<int>,
                                      costs: seq<nat>, k: nat)
    requires |statuses| == |costs| && k < |statuses|
    ensures var ps := Passes(AsWritten, cfg, command, begin, statuses, costs, 1, begin);
            ps[k].result.execution.Some? <==> cfg.enableBeep
  {
    PassAt(AsWritten, cfg, command, begin, statuses, costs, 1, begin, k);
  }

  /**
   * `145watch ls` end to end: the scan gives a run of `ls` with default settings, the
   * command text built from the arguments from the command start on is `ls`, and the
   * loop as written never executes it, while the corrected loop executes it on every pass.
   */
  lemma PlainCommandNeverRuns(parse: string -> Option<real>, begin: int, statuses: seq<int>, costs: seq<nat>, k: nat)
    requires |statuses| == |costs| && k < |statuses|
    ensures Scan(["ls"], parse) == Run(DefaultConfig, 0)
    ensures var o := Scan(["ls"], parse);
            var command := JoinArguments(["ls"][o.commandStart..]);
            command == "ls" &&
            Passes(AsWritten, o.config, command, begin, statuses, costs, 1, begin)[k].result.execution.None? &&
            Passes(Corrected, o.config, command, begin, statuses, costs, 1, begin)[k].result.execution ==
              Some(Execution(statuses[k], true))
  {
    assert ["ls"][0] == "ls" && IsCommandStart("ls");
    assert ["ls"][0..] == ["ls"];
    QuoteAllTail(["ls"]);
    assert QuoteArgument("ls") == "ls" by {
      assert forall j :: 0 <= j < |"ls"| ==> "ls"[j] != Space;
    }
    AsWrittenExecutesOnlyWithBeep(DefaultConfig, "ls", begin, statuses, costs, k);
    PassAt(Corrected, DefaultConfig, "ls", begin, statuses, costs, 1, begin, k);
  }

  /**
   * From the arguments to the loop: after a scan that ends in a run, the command text
   * is joined from the arguments from the command start on (main.cpp:132), and on every
   * pass that text is executed exactly when the rule is the corrected one or beep is
   * enabled.
   */
  lemma ScanThenWatch(rule: PassRule, args: seq<string>, parse: string -> Option<real>, begin: int,
                      statuses: seq<int>, costs: seq<nat>, k: nat)
    requires Scan(args, parse).Run?
    requires |statuses| == |costs| && k < |statuses|
    ensures Scan(args, parse).commandStart < |args|
    ensures var o := Scan(args, parse);
            var command := JoinArguments(args[o.commandStart..]);
            var ps := Passes(rule, o.config, command, begin, statuses, costs, 1, begin);
            (ps[k].result.execution.Some? <==> rule == Corrected || o.config.enableBeep) &&
            (ps[k].result.execution.Some? ==> ps[k].result.execution.value == Execute(command, statuses[k]))
  {
    ScanRunStartsInside(args, parse, 0, DefaultConfig);
    var o := Scan(args, parse);
    PassAt(rule, o.config, JoinArguments(args[o.commandStart..]), begin, statuses, costs, 1, begin, k);
  }

  /**
   * Passes never overlap: a pass starts no earlier than the previous one ended. A
   * pass that ends after its wake-up time is followed at once by the next one.
   */
  lemma OnePassAtATime(rule: PassRule, cfg: Config, command: string, begin: int, statuses: seq<int>,
                       costs: seq<nat>, k: nat)
    requires |statuses| == |costs| && 0 < k < |statuses|
    requires cfg.interval >= 0
    ensures var ps := Passes(rule, cfg, command, begin, statuses, costs, 1, begin);
            ps[k].startedAt >= ps[k - 1].finishedAt
  {
    PassAt(rule, cfg, command, begin, statuses, costs, 1, begin, k);
    PassAt(rule, cfg, command, begin, statuses, costs, 1, begin, k - 1);
  }

  /**
   * Precise mode catches up on a late schedule with back-to-back passes: when a pass
   * ends at or after the next deadline, the next pass starts the moment it ends.
   */
  lemma CatchUpBackToBack(rule: PassRule, cfg: Config, command: string, begin: int, statuses: seq<int>,
                          costs: seq<nat>, k: nat)
    requires |statuses| == |costs| && k + 1 < |statuses|
    requires cfg.isPrecise
    ensures var ps := Passes(rule, cfg, command, begin, statuses, costs, 1, begin);
            ps[k].finishedAt >= Deadline(cfg, begin, k + 1) ==> ps[k + 1].startedAt == ps[k].finishedAt
  {
    PassAt(rule, cfg, command, begin, statuses, costs, 1, begin, k);
    PassAt(rule, cfg, command, begin, statuses, costs, 1, begin, k + 1);
  }

  /** The number of passes that beeped. */
  function BeepCount(ps: seq<PassRecord>): nat
  {
    if ps == [] then 0 else (if ps[0].result.beeped then 1 else 0) + BeepCount(ps[1..])
  }

  /** The number of non-zero exit statuses. */
  function NonZeroCount(codes: seq<int>): nat
  {
    if codes == [] then 0 else (if codes[0] != 0 then 1 else 0) + NonZeroCount(codes[1..])
  }

  /** The exit status `execute` gives on each pass. */
  function ExitCodes(command: string, statuses: seq<int>): (r: seq<int>)
    ensures |r| == |statuses|
  {
    seq(|statuses|, i requires 0 <= i < |statuses| => Execute(command, statuses[i]).exitCode)
  }

  /**
   * Under either rule, with beep enabled the number of beeps equals the number of
   * non-zero exit statuses; with beep disabled there is none.
   */
  lemma {:induction false} BeepsCountFailures(rule: PassRule, cfg: Config, command: string, begin: int,
                                              statuses: seq<int>, costs: seq<nat>, count: nat, now: int)
    requires |statuses| == |costs|
    ensures BeepCount(Passes(rule, cfg, command, begin, statuses, costs, count, now)) ==
              if cfg.enableBeep then NonZeroCount(ExitCodes(command, statuses)) else 0
    decreases |statuses|
  {
    if statuses != [] {
      PassesCons(rule, cfg, command, begin, statuses, costs, count, now);
      var ps := Passes(rule, cfg, command, begin, statuses, costs, count, now);
      var wake := WakeTime(cfg, begin, count, now + costs[0]);
      BeepsCountFailures(rule, cfg, command, begin, statuses[1..], costs[1..], count + 1, wake);
      assert ps[1..] == Passes(rule, cfg, command, begin, statuses[1..], costs[1..], count + 1, wake);
      var codes := ExitCodes(command, statuses);
      assert codes[1..] == ExitCodes(command, statuses[1..]);
    }
  }

  /** The command `false` with beep enabled beeps on every pass, under either rule. */
  lemma {:induction false} FalseBeepsEveryPass(rule: PassRule, cfg: Config, begin: int, statuses: seq<int>,
                                               costs: seq<nat>)
    requires |statuses| == |costs|
    requires cfg.enableBeep
    ensures BeepCount(Passes(rule, cfg, "false", begin, statuses, costs, 1, begin)) == |statuses|
  {
    BeepsCountFailures(rule, cfg, "false", begin, statuses, costs, 1, begin);
    AllOnesAreNonZero(ExitCodes("false", statuses));
  }

  lemma {:induction false} AllOnesAreNonZero(codes: seq<int>)
    requires forall i :: 0 <= i < |codes| ==> codes[i] == 1
    ensures NonZeroCount(codes) == |codes|
    decreases |codes|
  {
    if codes != [] {
      AllOnesAreNonZero(codes[1..]);
    }
  }

  /** The precise deadlines grow strictly with the pass count. */
  lemma DeadlinesIncrease(cfg: Config, begin: int, j: nat, k: nat)
    requires cfg.interval > 0 && j < k
    ensures Deadline(cfg, begin, j) < Deadline(cfg, begin, k)
  {
    assert cfg.interval * k - cfg.interval * j == cfg.interval * (k - j);
  }

  /**
   * Precise mode: pass k+1 (index k) never starts before `start + interval * k`, and it
   * wakes at the later of its own end and the next deadline.
   */
  lemma PreciseWakesAtDeadline(rule: PassRule, cfg: Config, command: string, begin: int, statuses: seq<int>,
                               costs: seq<nat>, k: nat)
    requires |statuses| == |costs| && k < |statuses|
    requires cfg.isPrecise
    ensures var ps := Passes(rule, cfg, command, begin, statuses, costs, 1, begin);
            ps[k].startedAt >= Deadline(cfg, begin, k) &&
            ps[k].wakeAt == Max(ps[k].finishedAt, Deadline(cfg, begin, k + 1))
  {
    PassAt(rule, cfg, command, begin, statuses, costs, 1, begin, k);
    if k > 0 {
      PassAt(rule, cfg, command, begin, statuses, costs, 1, begin, k - 1);
    }
  }

  /**
   * Precise mode does not drift: when no pass takes longer than the interval, pass
   * k+1 starts exactly at `start + interval * k`, however long each pass took.
   */
  lemma {:induction false} PreciseDoesNotDrift(rule: PassRule, cfg: Config, command: string, begin: int,
                                               statuses: seq<int>, costs: seq<nat>, k: nat)
    requires |statuses| == |costs| && k < |statuses|
    requires cfg.isPrecise
    requires forall j :: 0 <= j < |costs| ==> costs[j] <= cfg.interval
    ensures var ps := Passes(rule, cfg, command, begin, statuses, costs, 1, begin);
            ps[k].startedAt == Deadline(cfg, begin, k) && ps[k].wakeAt == Deadline(cfg, begin, k + 1)
    decreases k
  {
    var ps := Passes(rule, cfg, command, begin, statuses, costs, 1, begin);
    PassAt(rule, cfg, command, begin, statuses, costs, 1, begin, k);
    if k > 0 {
      PreciseDoesNotDrift(rule, cfg, command, begin, statuses, costs, k - 1);
    }
    assert ps[k].finishedAt <= Deadline(cfg, begin, k + 1) by {
      assert Deadline(cfg, begin, k + 1) == Deadline(cfg, begin, k) + cfg.interval;
    }
  }

  /** The sum of a sequence of durations. */
  function Sum(s: seq<nat>): nat
  {
    if s == [] then 0 else Sum(s[..|s| - 1]) + s[|s| - 1]
  }

  /**
   * Accumulating mode drifts: pass k+1 (index k) starts k intervals plus the time all
   * earlier passes took after `start`, and every pass sleeps the full interval.
   */
  lemma {:induction false} AccumulatingDrifts(rule: PassRule, cfg: Config, command: string, begin: int,
                                              statuses: seq<int>, costs: seq<nat>, k: nat)
    requires |statuses| == |costs| && k < |statuses|
    requires !cfg.isPrecise
    ensures var ps := Passes(rule, cfg, command, begin, statuses, costs, 1, begin);
            ps[k].startedAt == begin + cfg.interval * k + Sum(costs[..k]) &&
            ps[k].wakeAt == ps[k].finishedAt + cfg.interval
    decreases k
  {
    var ps := Passes(rule, cfg, command, begin, statuses, costs, 1, begin);
    PassAt(rule, cfg, command, begin, statuses, costs, 1, begin, k);
    if k > 0 {
      AccumulatingDrifts(rule, cfg, command, begin, statuses, costs, k - 1);
      PassAt(rule, cfg, command, begin, statuses, costs, 1, begin, k - 1);
      assert costs[..k][..k - 1] == costs[..k - 1];
      assert Sum(costs[..k]) == Sum(costs[..k - 1]) + costs[k - 1];
      assert cfg.interval * k == cfg.interval * (k - 1) + cfg.interval;
    } else {
      assert costs[..0] == [];
    }
  }
}
