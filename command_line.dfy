/**
 * The command text that 145watch hands to the shell: `joinArguments` in main.cpp
 * turns the argument vector that follows the options into one string, wrapping an
 * argument in double quotes when it contains a space and separating arguments by a
 * single space.
 *
 * `SplitCommandLine` is an independent reference reader for that text (a simplified
 * shell word splitter); the round-trip lemma shows that joining loses nothing as long
 * as no argument carries a double quote of its own.
 */
module CommandLine {
  import opened Wrappers

  const Space: char := ' '
  const DoubleQuote: char := '"'

  /** One argument as it appears in the command text. */
  function QuoteArgument(arg: string): string
  {
    if Space in arg then [DoubleQuote] + arg + [DoubleQuote] else arg
  }

  /** The `transform` stage of the pipeline: every argument quoted as needed, in order. */
  function QuoteAll(args: seq<string>): (r: seq<string>)
    ensures |r| == |args|
  {
    seq(|args|, i requires 0 <= i < |args| => QuoteArgument(args[i]))
  }

  /** The `join_with(" ")` stage: the parts separated by exactly one space. */
  function JoinWithSpace(parts: seq<string>): string
  {
    if |parts| == 0 then ""
    else if |parts| == 1 then parts[0]
    else parts[0] + [Space] + JoinWithSpace(parts[1..])
  }

  /** `joinArguments`: the command text for an argument vector. */
  function JoinArguments(args: seq<string>): string
  {
    JoinWithSpace(QuoteAll(args))
  }

  /** The first position at or after `from` holding `c`, if any. */
  function IndexOf(s: string, c: char, from: nat): (r: Option<nat>)
    decreases |s| - from
    ensures r.Some? ==> from <= r.value < |s| && s[r.value] == c
    ensures r.Some? ==> forall k :: from <= k < r.value ==> s[k] != c
    ensures r.None? ==> forall k :: from <= k < |s| ==> s[k] != c
  {
    if from >= |s| then None
    else if s[from] == c then Some(from)
    else IndexOf(s, c, from + 1)
  }

  /**
   * Reads one word of a command text: a double-quoted word runs to the next double
   * quote, any other word to the next space. Returns the word and what follows it.
   */
  function NextWord(s: string): (r: (string, string))
    ensures |r.1| <= |s|
  {
    if |s| > 0 && s[0] == DoubleQuote then
      match IndexOf(s, DoubleQuote, 1)
      case Some(j) => (s[1..j], s[j + 1..])
      case None => (s[1..], [])
    else
      match IndexOf(s, Space, 0)
      case Some(j) => (s[..j], s[j..])
      case None => (s, [])
  }

  /** Splits a command text into words, dropping the one separator after each word. */
  function SplitCommandLine(s: string): (r: seq<string>)
    decreases |s|
    ensures |r| >= 1
  {
    var (word, rest) := NextWord(s);
    if rest == [] then [word] else [word] + SplitCommandLine(rest[1..])
  }

  /** An argument is quoted exactly when it contains a space; otherwise it is kept verbatim. */
  lemma QuoteOnlyOnSpace(arg: string)
    ensures QuoteArgument(arg) == arg <==> Space !in arg
    ensures Space in arg ==>
              var q := QuoteArgument(arg);
              |q| == |arg| + 2 && q[0] == DoubleQuote && q[|q| - 1] == DoubleQuote && q[1..|q| - 1] == arg
  {
    if Space in arg {
      assert |QuoteArgument(arg)| == |arg| + 2;
    }
  }

  /** A tab, or any whitespace other than the space character, does not cause quoting. */
  lemma {:induction false} TabIsNotQuoted()
    ensures JoinArguments(["a\tb", "c"]) == "a\tb c"
  {
    var args := ["a\tb", "c"];
    assert Space !in args[0] by { assert forall k :: 0 <= k < |args[0]| ==> args[0][k] != Space; }
    assert QuoteAll(args) == ["a\tb", "c"];
  }

  /** The quoting stage commutes with taking the tail of the argument vector. */
  lemma QuoteAllTail(args: seq<string>)
    requires |args| > 0
    ensures QuoteAll(args)[0] == QuoteArgument(args[0])
    ensures QuoteAll(args)[1..] == QuoteAll(args[1..])
  {
  }

  /** `joinArguments` unfolded one argument at a time. */
  lemma JoinArgumentsCons(args: seq<string>)
    requires |args| >= 2
    ensures JoinArguments(args) == QuoteArgument(args[0]) + [Space] + JoinArguments(args[1..])
  {
    QuoteAllTail(args);
  }

  /** An empty argument vector gives the empty command text. */
  lemma JoinArgumentsEmpty()
    ensures JoinArguments([]) == ""
  {
  }

  /**
   * Joining two non-empty argument vectors is joining each and putting one space
   * between them: the arguments stay in order and are separated by exactly one space.
   */
  lemma {:induction false} JoinArgumentsAppend(a: seq<string>, b: seq<string>)
    requires |a| > 0 && |b| > 0
    ensures JoinArguments(a + b) == JoinArguments(a) + [Space] + JoinArguments(b)
    decreases |a|
  {
    if |a| == 1 {
      JoinArgumentsCons(a + b);
      assert (a + b)[1..] == b;
      QuoteAllTail(a);
    } else {
      JoinArgumentsCons(a + b);
      assert (a + b)[1..] == a[1..] + b;
      JoinArgumentsAppend(a[1..], b);
      JoinArgumentsCons(a);
    }
  }

  /**
   * No leading or trailing separator: when every argument is non-empty the command
   * text neither starts nor ends with a space (an argument that does is quoted).
   */
  lemma {:induction false} NoOuterSeparator(args: seq<string>)
    requires |args| > 0
    requires forall i :: 0 <= i < |args| ==> args[i] != ""
    ensures var s := JoinArguments(args); |s| > 0 && s[0] != Space && s[|s| - 1] != Space
    decreases |args|
  {
    var q := QuoteArgument(args[0]);
    assert |q| > 0 && q[0] != Space && q[|q| - 1] != Space by {
      if Space !in args[0] {
        assert args[0][0] in args[0] && args[0][|args[0]| - 1] in args[0];
      }
    }
    if |args| == 1 {
      QuoteAllTail(args);
    } else {
      JoinArgumentsCons(args);
      NoOuterSeparator(args[1..]);
    }
  }

  /** Reading back one argument that was written by `QuoteArgument`. */
  lemma NextWordOfQuoted(arg: string, tail: string)
    requires DoubleQuote !in arg
    requires tail == [] || tail[0] == Space
    ensures NextWord(QuoteArgument(arg) + tail) == (arg, tail)
  {
    var s := QuoteArgument(arg) + tail;
    if Space in arg {
      assert s == [DoubleQuote] + arg + [DoubleQuote] + tail;
      var close := |arg| + 1;
      assert s[close] == DoubleQuote;
      forall k | 1 <= k < close ensures s[k] != DoubleQuote {
        assert s[k] == arg[k - 1] && arg[k - 1] in arg;
      }
      var r := IndexOf(s, DoubleQuote, 1);
      assert r.Some? && r.value == close;
      assert s[1..close] == arg;
      assert s[close + 1..] == tail;
    } else {
      assert s == arg + tail;
      assert forall k :: 0 <= k < |arg| ==> s[k] == arg[k];
      assert forall k :: 0 <= k < |arg| ==> s[k] != Space by {
        forall k | 0 <= k < |arg| ensures s[k] != Space { assert arg[k] in arg; }
      }
      if |s| > 0 {
        assert s[0] != DoubleQuote by {
          if |arg| > 0 { assert arg[0] in arg; }
        }
      }
      var r := IndexOf(s, Space, 0);
      if tail == [] {
        assert r.None?;
        assert s == arg;
        assert NextWord(s) == (s, []);
      } else {
        assert s[|arg|] == Space;
        assert r.Some? && r.value == |arg|;
        assert s[..|arg|] == arg && s[|arg|..] == tail;
      }
    }
  }

  /** One step of `SplitCommandLine`. */
  lemma SplitUnfold(s: string)
    ensures var (word, rest) := NextWord(s);
            SplitCommandLine(s) == if rest == [] then [word] else [word] + SplitCommandLine(rest[1..])
  {
  }

  /**
   * Round trip: for a non-empty argument vector in which no argument contains a
   * double quote, splitting the command text gives back exactly the arguments.
   */
  lemma {:induction false} SplitJoinRoundTrip(args: seq<string>)
    requires |args| > 0
    requires forall i :: 0 <= i < |args| ==> DoubleQuote !in args[i]
    ensures SplitCommandLine(JoinArguments(args)) == args
    decreases |args|
  {
    if |args| == 1 {
      QuoteAllTail(args);
      assert JoinArguments(args) == QuoteArgument(args[0]) + [];
      NextWordOfQuoted(args[0], []);
    } else {
      JoinArgumentsCons(args);
      var tail := [Space] + JoinArguments(args[1..]);
      assert JoinArguments(args) == QuoteArgument(args[0]) + tail;
      NextWordOfQuoted(args[0], tail);
      SplitUnfold(JoinArguments(args));
      assert tail[1..] == JoinArguments(args[1..]);
      SplitJoinRoundTrip(args[1..]);
      assert args == [args[0]] + args[1..];
    }
  }

  /**
   * Without that condition the command text is ambiguous: one argument holding a
   * space and two arguments that carry their own quotes give the same text.
   */
  lemma {:induction false} QuotedArgumentsCollide()
    ensures JoinArguments(["a b"]) == JoinArguments(["\"a", "b\""]) == "\"a b\""
  {
    var one, two := ["a b"], ["\"a", "b\""];
    assert Space in one[0] by { assert one[0][1] == Space; }
    assert Space !in two[0] by { assert forall k :: 0 <= k < |two[0]| ==> two[0][k] != Space; }
    assert Space !in two[1] by { assert forall k :: 0 <= k < |two[1]| ==> two[1][k] != Space; }
    assert QuoteArgument(one[0]) == "\"a b\"";
    assert QuoteAll(one) == [QuoteArgument(one[0])];
    assert QuoteAll(two) == [two[0], two[1]];
    JoinArgumentsCons(two);
  }
}
