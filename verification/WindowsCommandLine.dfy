/**
  Building a Windows command line from a program path and arguments, and the rules
  by which the C runtime takes it apart again (Microsoft, "Parsing C command-line
  arguments").
 */
module WindowsCommandLine {

  // ---- Backslash runs -----------------------------------------------------

  function Reps(n: nat): (r: string)
    ensures |r| == n
  {
    seq(n, _ => '\\')
  }

  /** The number of backslashes at the front. */
  function Run(s: string): (n: nat)
    ensures n <= |s| && (n < |s| ==> s[n] != '\\')
    ensures s[..n] == Reps(n)
    ensures n > 0 <==> s != "" && s[0] == '\\'
  {
    if s == "" || s[0] != '\\' then 0
    else
      var n := 1 + Run(s[1..]);
      assert s[..n] == [s[0]] + s[1..][..n - 1];
      n
  }

  lemma {:induction false} RunOf(n: nat, tail: string)
    requires tail == "" || tail[0] != '\\'
    ensures Run(Reps(n) + tail) == n
  {
    if n == 0 {
      assert Reps(0) + tail == tail;
    } else {
      assert (Reps(n) + tail)[1..] == Reps(n - 1) + tail;
      RunOf(n - 1, tail);
    }
  }

  // ---- What is built ------------------------------------------------------

  /** A backslash run is doubled before a quote and at the end; a quote gets a backslash. */
  function Escape(a: string): string {
    if a == "" then ""
    else if a[0] == '"' then "\\\"" + Escape(a[1..])
    else if a[0] == '\\' then
      var n := Run(a);
      if n == |a| || a[n] == '"' then Reps(2 * n) + Escape(a[n..])
      else "\\" + Escape(a[1..])
    else [a[0]] + Escape(a[1..])
  }

  function Arguments(args: seq<string>): string {
    if args == [] then "" else " \"" + (Escape(args[0]) + ("\"" + Arguments(args[1..])))
  }

  function CommandLine(path: string, args: seq<string>): string {
    "\"" + path + "\"" + Arguments(args)
  }

  // ---- How it is taken apart ----------------------------------------------

  predicate IsSpace(c: char) {
    c == ' ' || c == '\t'
  }

  /** The program name: quotes only switch the meaning of spaces, and backslashes mean nothing. */
  function ParseProgram(s: string, quoted: bool): (r: (string, string))
    ensures '"' !in r.0
  {
    if s == "" then ("", "")
    else if s[0] == '"' then ParseProgram(s[1..], !quoted)
    else if !quoted && IsSpace(s[0]) then ("", s)
    else
      var r := ParseProgram(s[1..], quoted);
      ([s[0]] + r.0, r.1)
  }

  /**
    One argument, up to a space outside quotes. `pairs` says whether two quotes
    inside a quoted part are one literal quote, as newer runtimes have it.
   */
  function ParseArg(s: string, quoted: bool, pairs: bool): (r: (string, string))
    ensures |r.1| <= |s|
    ensures s != "" && (quoted || !IsSpace(s[0])) ==> |r.1| < |s|
    decreases |s|
  {
    if s == "" then ("", "")
    else if !quoted && IsSpace(s[0]) then ("", s)
    else if s[0] == '\\' then
      var n := Run(s);
      if n < |s| && s[n] == '"' then
        if n % 2 == 1 then
          var r := ParseArg(s[n + 1..], quoted, pairs);
          (Reps(n / 2) + ("\"" + r.0), r.1)
        else
          var r := ParseArg(s[n..], quoted, pairs);
          (Reps(n / 2) + r.0, r.1)
      else
        var r := ParseArg(s[n..], quoted, pairs);
        (Reps(n) + r.0, r.1)
    else if s[0] == '"' then
      if pairs && quoted && |s| > 1 && s[1] == '"' then
        var r := ParseArg(s[2..], true, pairs);
        ("\"" + r.0, r.1)
      else ParseArg(s[1..], !quoted, pairs)
    else
      var r := ParseArg(s[1..], quoted, pairs);
      ([s[0]] + r.0, r.1)
  }

  function ParseArgs(s: string, pairs: bool): seq<string>
    decreases |s|
  {
    if s == "" then []
    else if IsSpace(s[0]) then ParseArgs(s[1..], pairs)
    else
      var r := ParseArg(s, false, pairs);
      [r.0] + ParseArgs(r.1, pairs)
  }

  function ParseLine(s: string, pairs: bool): seq<string> {
    var r := ParseProgram(s, false);
    [r.0] + ParseArgs(r.1, pairs)
  }

  // ---- Round trip ---------------------------------------------------------

  lemma NoReps(s: string)
    ensures Reps(0) + s == s
  {
  }

  lemma OneMore(n: nat, x: string)
    ensures "\\" + (Reps(n) + x) == Reps(n + 1) + x
  {
    Flat("\\", Reps(n), x);
    assert "\\" + Reps(n) == Reps(n + 1);
  }

  /** A backslash run in front of an ordinary character is written as it is. */
  lemma {:induction false} PlainRun(a: string)
    requires Run(a) < |a| && a[Run(a)] != '"'
    ensures Escape(a) == Reps(Run(a)) + Escape(a[Run(a)..])
  {
    hide Reps;
    var n := Run(a);
    if n == 0 {
      NoReps(Escape(a));
      assert a[0..] == a;
    } else {
      assert Run(a[1..]) == n - 1 && a[1..][n - 1] == a[n];
      PlainRun(a[1..]);
      assert a[1..][n - 1..] == a[n..];
      OneMore(n - 1, Escape(a[n..]));
    }
  }

  /** What may follow a closing quote. */
  predicate Ends(rest: string) {
    rest == "" || rest[0] == ' '
  }

  lemma CloseQuote(rest: string, pairs: bool)
    requires Ends(rest)
    ensures ParseArg("\"" + rest, true, pairs) == ("", rest)
  {
    assert ("\"" + rest)[1..] == rest;
  }

  lemma OpenQuote(body: string, pairs: bool)
    ensures ParseArg("\"" + body, false, pairs) == ParseArg(body, true, pairs)
  {
    assert ("\"" + body)[1..] == body;
  }

  lemma ParseOrdinary(c: char, tail: string, pairs: bool)
    requires c != '"' && c != '\\'
    ensures var r := ParseArg(tail, true, pairs);
      ParseArg([c] + tail, true, pairs) == ([c] + r.0, r.1)
  {
    assert ([c] + tail)[1..] == tail;
  }

  lemma EscapeQuote(q: string)
    requires q != "" && q[0] == '"'
    ensures Escape(q) == "\\" + ("\"" + Escape(q[1..]))
  {
    Flat("\\", "\"", Escape(q[1..]));
  }

  /** A run, then a tail that starts with something else: what the parser makes of it. */
  lemma ParseRun(n: nat, tail: string, pairs: bool)
    requires n > 0 && (tail == "" || tail[0] != '\\')
    ensures var s := Reps(n) + tail;
      ParseArg(s, true, pairs) ==
      if tail != "" && tail[0] == '"' then
        if n % 2 == 1 then
          var r := ParseArg(tail[1..], true, pairs);
          (Reps(n / 2) + ("\"" + r.0), r.1)
        else
          var r := ParseArg(tail, true, pairs);
          (Reps(n / 2) + r.0, r.1)
      else
        var r := ParseArg(tail, true, pairs);
        (Reps(n) + r.0, r.1)
  {
    hide Reps, Run;
    RunOf(n, tail);
    var s := Reps(n) + tail;
    assert s[n..] == tail;
    if tail != "" { assert s[n + 1..] == tail[1..]; }
  }

  lemma RunSplits(a: string)
    ensures a == Reps(Run(a)) + a[Run(a)..]
  {
    assert a == a[..Run(a)] + a[Run(a)..];
  }

  lemma Flat(x: string, y: string, z: string)
    ensures x + y + z == x + (y + z)
  {
  }

  /** An escaped argument is read back up to its closing quote. */
  lemma {:induction false} ArgRoundTrip(a: string, rest: string, pairs: bool)
    requires Ends(rest)
    ensures ParseArg(Escape(a) + ("\"" + rest), true, pairs) == (a, rest)
    decreases |a|, 1
  {
    hide ParseArg, Run;
    var close := "\"" + rest;
    if a == "" {
      assert Escape(a) + close == close;
      CloseQuote(rest, pairs);
    } else if a[0] == '"' {
      QuoteRoundTrip(a, rest, pairs, 0);
      EscapeQuote(a);
      RunJoins(0, Escape(a[1..]), close);
      NoReps(Escape(a));
      NoReps(a);
    } else if a[0] == '\\' {
      RunRoundTrip(a, rest, pairs);
    } else {
      ArgRoundTrip(a[1..], rest, pairs);
      Flat([a[0]], Escape(a[1..]), close);
      ParseOrdinary(a[0], Escape(a[1..]) + close, pairs);
      assert a == [a[0]] + a[1..];
    }
  }

  /** An argument that starts with a backslash run. */
  lemma {:induction false} RunRoundTrip(a: string, rest: string, pairs: bool)
    requires Ends(rest) && a != "" && a[0] == '\\'
    ensures ParseArg(Escape(a) + ("\"" + rest), true, pairs) == (a, rest)
    decreases |a|, 0
  {
    hide ParseArg, Escape;
    var close, n := "\"" + rest, Run(a);
    RunSplits(a);
    EscapeRun(a);
    if n == |a| {
      ParseRun(2 * n, close, pairs);
      CloseQuote(rest, pairs);
      assert Reps(n) + "" == a;
    } else if a[n] == '"' {
      RunBeforeQuote(2 * n, a[n..], close);
      QuoteRoundTrip(a[n..], rest, pairs, n);
    } else {
      PlainRun(a);
      Flat(Reps(n), Escape(a[n..]), close);
      ArgRoundTrip(a[n..], rest, pairs);
      EscapeStart(a[n..]);
      ParseRun(n, Escape(a[n..]) + close, pairs);
    }
  }

  lemma EscapeStart(a: string)
    requires a != "" && a[0] != '\\' && a[0] != '"'
    ensures Escape(a) != "" && Escape(a)[0] == a[0]
  {
  }

  lemma EscapeRun(a: string)
    requires a != "" && a[0] == '\\'
    ensures var n := Run(a);
      && (n == |a| ==> Escape(a) == Reps(2 * n))
      && (n < |a| && a[n] == '"' ==> Escape(a) == Reps(2 * n) + Escape(a[n..]))
  {
  }

  /** A run in front of an escaped quote takes in the backslash that escapes it. */
  lemma RunBeforeQuote(m: nat, q: string, close: string)
    requires q != "" && q[0] == '"'
    ensures Reps(m) + Escape(q) + close == Reps(m + 1) + ("\"" + (Escape(q[1..]) + close))
  {
    hide Escape;
    EscapeQuote(q);
    RunJoins(m, Escape(q[1..]), close);
  }

  lemma RunJoins(n: nat, x: string, close: string)
    ensures Reps(n) + ("\\" + ("\"" + x)) + close == Reps(n + 1) + ("\"" + (x + close))
  {
    Flat(Reps(n), "\\" + ("\"" + x), close);
    Flat("\\", "\"" + x, close);
    Flat("\"", x, close);
    Flat(Reps(n), "\\", "\"" + (x + close));
    assert Reps(n) + "\\" == Reps(n + 1);
  }

  /** A quote behind a doubled run of `n` backslashes reads as `n` backslashes and the quote. */
  lemma {:induction false} QuoteRoundTrip(q: string, rest: string, pairs: bool, n: nat)
    requires Ends(rest) && q != "" && q[0] == '"'
    ensures ParseArg(Reps(2 * n + 1) + ("\"" + (Escape(q[1..]) + ("\"" + rest))), true, pairs) == (Reps(n) + q, rest)
    decreases |q|, 0
  {
    hide ParseArg, Escape;
    var tail := "\"" + (Escape(q[1..]) + ("\"" + rest));
    ArgRoundTrip(q[1..], rest, pairs);
    ParseRun(2 * n + 1, tail, pairs);
    assert tail[1..] == Escape(q[1..]) + ("\"" + rest);
    assert "\"" + q[1..] == q;
  }

  lemma ParseQuotedArg(a: string, rest: string, pairs: bool)
    requires Ends(rest)
    ensures ParseArgs(" \"" + (Escape(a) + ("\"" + rest)), pairs) == [a] + ParseArgs(rest, pairs)
  {
    hide ParseArg, Escape;
    var body := Escape(a) + ("\"" + rest);
    assert (" \"" + body)[1..] == "\"" + body;
    OpenQuote(body, pairs);
    ArgRoundTrip(a, rest, pairs);
  }

  /** Every argument list is read back, whatever quotes, backslashes and spaces the arguments hold. */
  lemma {:induction false} ArgumentsRoundTrip(args: seq<string>, pairs: bool)
    ensures ParseArgs(Arguments(args), pairs) == args
  {
    hide ParseArg, Escape;
    if args != [] {
      ParseQuotedArg(args[0], Arguments(args[1..]), pairs);
      ArgumentsRoundTrip(args[1..], pairs);
      assert args == [args[0]] + args[1..];
    }
  }

  lemma {:induction false} ProgramInQuotes(path: string, rest: string)
    requires '"' !in path && Ends(rest)
    ensures ParseProgram(path + ("\"" + rest), true) == (path, rest)
  {
    var s := path + ("\"" + rest);
    if path == "" {
      assert s == "\"" + rest && s[1..] == rest;
    } else {
      assert s[0] == path[0] && s[1..] == path[1..] + ("\"" + rest);
      ProgramInQuotes(path[1..], rest);
      assert path == [path[0]] + path[1..];
    }
  }

  /**
    The runtime takes the built line apart into exactly the path and the arguments,
    for all arguments, if and only if the path itself holds no quote: the path is
    quoted but not escaped.
   */
  lemma CommandLineRoundTrip(path: string, args: seq<string>, pairs: bool)
    ensures ParseLine(CommandLine(path, args), pairs) == [path] + args <==> '"' !in path
  {
    var s := CommandLine(path, args);
    if '"' !in path {
      assert s == "\"" + (path + ("\"" + Arguments(args)));
      assert s[1..] == path + ("\"" + Arguments(args));
      ProgramInQuotes(path, Arguments(args));
      ArgumentsRoundTrip(args, pairs);
    } else {
      assert ParseLine(s, pairs)[0] != path;
    }
  }

  /** A quote in the path: the runtime sees another program name. */
  lemma QuotedPathIsLost(pairs: bool)
    ensures ParseLine(CommandLine("a\"b", []), pairs) != ["a\"b"] + []
  {
    assert '"' in "a\"b" by { assert "a\"b"[1] == '"'; }
    CommandLineRoundTrip("a\"b", [], pairs);
  }

  /** Two different argument lists never give the same line. */
  lemma CommandLineInjective(path: string, a: seq<string>, b: seq<string>)
    requires CommandLine(path, a) == CommandLine(path, b)
    ensures a == b
  {
    assert CommandLine(path, a)[|path| + 2..] == Arguments(a);
    assert CommandLine(path, b)[|path| + 2..] == Arguments(b);
    ArgumentsRoundTrip(a, false);
    ArgumentsRoundTrip(b, false);
  }

  // ---- The algorithm ------------------------------------------------------

  /** How much more room than an escaped argument and its quotes take the checks in front of its last character ask for. */
  function ArgSlack(arg: string): nat {
    if arg == "" then 0 else if arg[|arg| - 1] == '"' || arg[|arg| - 1] == '\\' then 1 else 2
  }

  /** The last argument decides. */
  function Slack(args: seq<string>): nat {
    if args == [] then 0 else ArgSlack(args[|args| - 1])
  }

  lemma ArgumentsLength(args: seq<string>)
    ensures args != [] ==> |Arguments(args)| >= 3
  {
  }

  lemma SlackOf(arg: string, more: seq<string>)
    ensures Slack([arg] + more) == if more == [] then ArgSlack(arg) else Slack(more)
  {
    assert more != [] ==> ([arg] + more)[|more|] == more[|more| - 1];
  }

  /** What is left of an argument that ends in a quote or a backslash takes at least two characters. */
  lemma {:induction false} EscapeLength(a: string)
    requires a != ""
    ensures |Escape(a)| >= 3 - ArgSlack(a)
    decreases |a|
  {
    if |a| > 1 {
      assert a[1..][|a[1..]| - 1] == a[|a| - 1];
      if a[0] == '\\' && (Run(a) == |a| || a[Run(a)] == '"') {
      } else {
        EscapeLength(a[1..]);
      }
    }
  }

  method Emit(line: array<char>, pos: nat, s: string)
    requires pos + |s| <= line.Length
    modifies line
    ensures line[..pos + |s|] == old(line[..pos]) + s
  {
    ghost var was := line[..pos];
    for k := 0 to |s|
      invariant forall j :: 0 <= j < pos ==> line[j] == was[j]
      invariant forall j :: 0 <= j < k ==> line[pos + j] == s[j]
    {
      line[pos + k] := s[k];
    }
  }

  /** The place in the line while argument `i` is escaped: what is written, and what is still to come. */
  ghost predicate Inside(done: string, arg: string, j: nat, more: seq<string>, full: string)
    requires j <= |arg|
  {
    full == done + (Escape(arg[j..]) + ("\"" + Arguments(more)))
  }

  lemma InsideStep(done: string, arg: string, j: nat, k: nat, piece: string, more: seq<string>, full: string)
    requires j <= k <= |arg| && Inside(done, arg, j, more, full)
    requires Escape(arg[j..]) == piece + Escape(arg[k..])
    ensures Inside(done + piece, arg, k, more, full)
    ensures |full| >= |done| + |piece| + 1
  {
    var close := "\"" + Arguments(more);
    Flat(piece, Escape(arg[k..]), close);
    Flat(done, piece, Escape(arg[k..]) + close);
  }

  /** The first check of a character fails only when the whole line does not fit with its slack. */
  lemma StillToCome(done: string, arg: string, j: nat, more: seq<string>, full: string)
    requires j < |arg| && Inside(done, arg, j, more, full)
    ensures |full| + Slack([arg] + more) >= |done| + 4
  {
    hide Escape, Arguments;
    assert arg[j..][|arg[j..]| - 1] == arg[|arg| - 1];
    EscapeLength(arg[j..]);
    ArgumentsLength(more);
    SlackOf(arg, more);
  }

  /** So does the check of a doubled run. */
  lemma RunStillToCome(done: string, arg: string, j: nat, n: nat, more: seq<string>, full: string)
    requires 0 < n && j + n <= |arg| && arg[j..j + n] == Reps(n) && (j + n == |arg| || arg[j + n] == '"')
    requires Inside(done, arg, j, more, full) && Escape(arg[j..]) == Reps(2 * n) + Escape(arg[j + n..])
    ensures |full| + Slack([arg] + more) >= |done| + 2 * n + 2
  {
    hide Escape, Arguments;
    if j + n == |arg| {
      assert arg[j..j + n][n - 1] == arg[|arg| - 1];
    } else {
      EscapeLength(arg[j + n..]);
    }
    ArgumentsLength(more);
    SlackOf(arg, more);
  }

  /** What the loop writes for the character at `j`. */
  lemma EscapeAt(arg: string, j: nat)
    requires j < |arg|
    ensures arg[j] == '"' ==> Escape(arg[j..]) == "\\\"" + Escape(arg[j + 1..])
    ensures arg[j] != '"' && arg[j] != '\\' ==> Escape(arg[j..]) == [arg[j]] + Escape(arg[j + 1..])
    ensures arg[j] == '\\' ==> var n := Run(arg[j..]);
      n > 0 && j + n <= |arg|
      && if j + n == |arg| || arg[j + n] == '"' then Escape(arg[j..]) == Reps(2 * n) + Escape(arg[j + n..])
         else Escape(arg[j..]) == "\\" + Escape(arg[j + 1..])
  {
    assert arg[j..][1..] == arg[j + 1..];
    if arg[j] == '\\' {
      var n := Run(arg[j..]);
      assert arg[j..][n..] == arg[j + n..];
    }
  }

  lemma CountedRun(arg: string, j: nat, n: nat)
    requires j < |arg| && n == Run(arg[j..])
    ensures j + n <= |arg| && arg[j..j + n] == Reps(n) && (n > 0 ==> ArgSlack(arg[..j + n]) == 1)
  {
    assert arg[j..][..n] == arg[j..j + n];
    if n > 0 { assert arg[j..j + n][n - 1] == arg[j + n - 1] == arg[..j + n][j + n - 1]; }
  }

  method CountBackslashes(arg: string, j: nat) returns (n: nat)
    requires j < |arg| && arg[j] == '\\'
    ensures n == Run(arg[j..])
  {
    n := 1;
    while j + n < |arg| && arg[j + n] == '\\'
      invariant j + n <= |arg| && arg[j..j + n] == Reps(n)
    {
      assert arg[j..j + n + 1] == arg[j..j + n] + [arg[j + n]] && Reps(n + 1) == Reps(n) + "\\";
      n := n + 1;
    }
    assert arg[j..] == arg[j..j + n] + arg[j + n..];
    RunOf(n, arg[j + n..]);
  }

  /** Writes what stands for the characters from `j` to `k`. */
  method EmitPiece(line: array<char>, pos: nat, piece: string,
    ghost arg: string, ghost j: nat, ghost k: nat, ghost more: seq<string>, ghost full: string)
    requires pos + |piece| <= line.Length && j <= k <= |arg|
    requires Inside(line[..pos], arg, j, more, full) && Escape(arg[j..]) == piece + Escape(arg[k..])
    modifies line
    ensures Inside(line[..pos + |piece|], arg, k, more, full)
  {
    InsideStep(line[..pos], arg, j, k, piece, more, full);
    Emit(line, pos, piece);
  }

  /** Escapes a backslash run, or its first backslash when no quote and no end follows the run. */
  method EscapeBackslashes(line: array<char>, at: nat, arg: string, j: nat, ghost more: seq<string>, ghost full: string)
    returns (ok: bool, pos: nat, k: nat)
    requires j < |arg| && arg[j] == '\\' && at + 4 < line.Length && Inside(line[..at], arg, j, more, full)
    modifies line
    ensures ok ==> j < k <= |arg| && pos + 1 + ArgSlack(arg[..k]) < line.Length && Inside(line[..pos], arg, k, more, full)
    ensures !ok ==> |full| + Slack([arg] + more) >= line.Length
  {
    hide Escape, Run, Inside, Reps, Slack;
    EscapeAt(arg, j);
    ok, pos, k := true, at, j;
    var n := CountBackslashes(arg, j);
    if j + n == |arg| || arg[j + n] == '"' {
      CountedRun(arg, j, n);
      RunStillToCome(line[..at], arg, j, n, more, full);
      if at + n * 2 + 2 >= line.Length { return false, at, j; }
      EmitPiece(line, at, Reps(2 * n), arg, j, j + n, more, full);
      pos, k := at + 2 * n, j + n;
    } else {
      EmitPiece(line, at, "\\", arg, j, j + 1, more, full);
      pos, k := at + 1, j + 1;
    }
  }

  /**
    Escapes one argument behind the opening quote. Success leaves room for the
    closing quote, the slack and the terminator; failure means the line does not
    fit with its slack.
   */
  method EscapeArg(line: array<char>, start: nat, arg: string, ghost more: seq<string>, ghost full: string)
    returns (ok: bool, pos: nat)
    requires start + 1 < line.Length && Inside(line[..start], arg, 0, more, full)
    modifies line
    ensures ok ==> pos + 1 + ArgSlack(arg) < line.Length && Inside(line[..pos], arg, |arg|, more, full)
    ensures !ok ==> |full| + Slack([arg] + more) >= line.Length
  {
    hide Escape, Arguments, Run, Inside, Reps, Slack;
    pos := start;
    var j := 0;
    while j < |arg|
      invariant j <= |arg| && pos + 1 + ArgSlack(arg[..j]) < line.Length && Inside(line[..pos], arg, j, more, full)
    {
      EscapeAt(arg, j);
      if pos + 4 >= line.Length {
        StillToCome(line[..pos], arg, j, more, full);
        return false, pos;
      }
      if arg[j] == '"' {
        EmitPiece(line, pos, "\\\"", arg, j, j + 1, more, full);
        pos := pos + 2;
        j := j + 1;
      } else if arg[j] == '\\' {
        ok, pos, j := EscapeBackslashes(line, pos, arg, j, more, full);
        if !ok { return; }
      } else {
        EmitPiece(line, pos, [arg[j]], arg, j, j + 1, more, full);
        pos := pos + 1;
        j := j + 1;
      }
    }
    assert arg[..|arg|] == arg;
    ok := true;
  }

  /** Writes a space and the argument in quotes. */
  method AppendArgument(line: array<char>, pos: nat, arg: string, ghost more: seq<string>, ghost full: string)
    returns (ok: bool, end: nat)
    requires pos < line.Length && full == line[..pos] + Arguments([arg] + more)
    modifies line
    ensures ok ==> end + ArgSlack(arg) < line.Length && full == line[..end] + Arguments(more)
    ensures !ok ==> |full| + Slack([arg] + more) >= line.Length
  {
    hide Escape;
    assert ([arg] + more)[1..] == more;
    SlackOf(arg, more);
    if pos + 3 >= line.Length { return false, pos; }
    Flat(line[..pos], " \"", Escape(arg) + ("\"" + Arguments(more)));
    Emit(line, pos, " \"");
    assert arg[0..] == arg;
    var fits, next := EscapeArg(line, pos + 2, arg, more, full);
    if !fits { return false, pos; }
    Closing(line[..next], arg, more, full);
    Emit(line, next, "\"");
    ok, end := true, next + 1;
  }

  /**
    Succeeds exactly when the line fits with its terminator and the slack the checks ask
    for, and then the buffer holds the line and the terminator.
   */
  method BuildWindowsCmdline(line: array<char>, path: string, args: seq<string>) returns (ok: bool)
    modifies line
    ensures var full := CommandLine(path, args);
      && (ok <==> |full| + Slack(args) < line.Length)
      && (ok ==> line[..|full|] == full && line[|full|] == '\0')
  {
    ghost var full := CommandLine(path, args);
    if |path| + 2 >= line.Length { return false; }
    Emit(line, 0, "\"" + path + "\"");
    var pos: nat := |path| + 2;
    assert line[..0] == "" && "" + ("\"" + path + "\"") == "\"" + path + "\"";
    assert args[0..] == args;
    for i := 0 to |args|
      invariant pos + Slack(args[..i]) < line.Length && full == line[..pos] + Arguments(args[i..])
    {
      assert args[i..] == [args[i]] + args[i + 1..];
      SlackBehind(args, i);
      ok, pos := AppendArgument(line, pos, args[i], args[i + 1..], full);
      if !ok { return; }
    }
    assert args[|args|..] == [] && args[..|args|] == args && full == line[..pos];
    line[pos] := '\0';
    ok := true;
  }

  lemma SlackBehind(args: seq<string>, i: nat)
    requires i < |args|
    ensures Slack([args[i]] + args[i + 1..]) == Slack(args) && Slack(args[..i + 1]) == ArgSlack(args[i])
  {
    assert [args[i]] + args[i + 1..] == args[i..];
  }

  /** The line `"a" "b"` and its terminator fit into nine characters, and are refused. */
  method RefusedThoughItFits() returns (ok: bool)
    ensures !ok && |CommandLine("a", ["b"])| + 1 <= 9
  {
    assert ["b"][1..] == [] && "b"[1..] == "" && Arguments([]) == "" && Escape("b") == "b";
    assert |CommandLine("a", ["b"])| == 7;
    var line := new char[9];
    ok := BuildWindowsCmdline(line, "a", ["b"]);
  }

  lemma Closing(done: string, arg: string, more: seq<string>, full: string)
    requires Inside(done, arg, |arg|, more, full)
    ensures full == done + "\"" + Arguments(more)
  {
    assert arg[|arg|..] == "" && Escape("") == "";
    assert "" + ("\"" + Arguments(more)) == "\"" + Arguments(more);
    Flat(done, "\"", Arguments(more));
  }
}
