/** The command-line parser: a left-to-right pass over the arguments (the
    program name excluded) that either ends early or yields the options. */
module Args {
  import opened Wrappers

  datatype Options = Options(showHidden: bool, sort: bool, path: string)

  datatype ParseResult =
    | Help            // `--help` was reached: print the usage text and exit 0
    | MultiplePaths   // a second path was reached: report it and exit 1
    | Run(options: Options)

  /** Every token other than the three flags is taken as the path, unknown
      flags included. */
  predicate IsPath(token: string)
  {
    token != "-a" && token != "-U" && token != "--help"
  }

  /** The path tokens, in order. */
  function Paths(tokens: seq<string>): seq<string>
  {
    if tokens == [] then []
    else
      var last := tokens[|tokens| - 1];
      Paths(tokens[..|tokens| - 1]) + (if IsPath(last) then [last] else [])
  }

  /** The position of the first `--help`, or the number of tokens if there is
      none. */
  function HelpIndex(tokens: seq<string>): (n: nat)
    ensures n <= |tokens|
    ensures n < |tokens| ==> tokens[n] == "--help"
    ensures "--help" !in tokens[..n]
  {
    if tokens == [] then 0
    else if tokens[0] == "--help" then 0
    else
      var n := 1 + HelpIndex(tokens[1..]);
      assert tokens[..n] == [tokens[0]] + tokens[1..][..n - 1];
      n
  }

  /** What the arguments mean, stated without the loop: a second path before
      the first `--help` is an error; otherwise `--help` wins; otherwise the
      options are the defaults changed by the flags present, with the path
      given or `"."`. */
  function Parse(tokens: seq<string>): ParseResult
  {
    var h := HelpIndex(tokens);
    if |Paths(tokens[..h])| >= 2 then MultiplePaths
    else if h < |tokens| then Help
    else
      var paths := Paths(tokens);
      Run(Options("-a" in tokens, "-U" !in tokens, if paths == [] then "." else paths[0]))
  }

  lemma {:induction false} PathsAppend(a: seq<string>, b: seq<string>)
    ensures Paths(a + b) == Paths(a) + Paths(b)
    decreases |b|
  {
    if b == [] {
      assert a + b == a;
    } else {
      assert (a + b)[..|a + b| - 1] == a + b[..|b| - 1];
      PathsAppend(a, b[..|b| - 1]);
    }
  }

  /** The parsing loop. */
  method ParseArgs(tokens: seq<string>) returns (r: ParseResult)
    ensures r == Parse(tokens)
  {
    var showHidden := false;
    var sort := true;
    var dirPath: Option<string> := None;
    for i := 0 to |tokens|
      invariant "--help" !in tokens[..i]
      invariant |Paths(tokens[..i])| <= 1
      invariant dirPath == if Paths(tokens[..i]) == [] then None else Some(Paths(tokens[..i])[0])
      invariant showHidden == ("-a" in tokens[..i])
      invariant sort == ("-U" !in tokens[..i])
    {
      var token := tokens[i];
      ReadToken(tokens, i);
      if token == "-a" {
        showHidden := true;
      } else if token == "-U" {
        sort := false;
      } else if token == "--help" {
        HelpFirst(tokens, i);
        return Help;
      } else {
        var previous := dirPath;
        dirPath := Some(token);
        if previous.Some? {
          SecondPath(tokens, i);
          return MultiplePaths;
        }
      }
    }
    assert tokens[..|tokens|] == tokens;
    NoHelp(tokens);
    var path := if dirPath.Some? then dirPath.value else ".";
    return Run(Options(showHidden, sort, path));
  }

  /** What reading one more argument adds: its flag, or one more path. */
  lemma ReadToken(tokens: seq<string>, i: nat)
    requires i < |tokens|
    ensures Paths(tokens[..i + 1]) == Paths(tokens[..i]) + (if IsPath(tokens[i]) then [tokens[i]] else [])
    ensures forall t :: t in tokens[..i + 1] <==> t in tokens[..i] || t == tokens[i]
  {
    assert tokens[..i + 1] == tokens[..i] + [tokens[i]];
    PathsAppend(tokens[..i], [tokens[i]]);
    assert [tokens[i]][..0] == [];
  }

  lemma HelpFirst(tokens: seq<string>, i: nat)
    requires i < |tokens| && tokens[i] == "--help" && "--help" !in tokens[..i]
    ensures HelpIndex(tokens) == i
  {
  }

  lemma NoHelp(tokens: seq<string>)
    requires "--help" !in tokens
    ensures HelpIndex(tokens) == |tokens|
  {
  }

  lemma SecondPath(tokens: seq<string>, i: nat)
    requires i < |tokens| && "--help" !in tokens[..i + 1]
    requires |Paths(tokens[..i + 1])| >= 2
    ensures |Paths(tokens[..HelpIndex(tokens)])| >= 2
  {
    var h := HelpIndex(tokens);
    assert tokens[..h] == tokens[..i + 1] + tokens[i + 1..h];
    PathsAppend(tokens[..i + 1], tokens[i + 1..h]);
  }

  /** The parse succeeds exactly when there is no `--help` and at most one
      path; with no path the directory is `"."`. */
  lemma ParseRunIff(tokens: seq<string>)
    ensures Parse(tokens).Run? <==> "--help" !in tokens && |Paths(tokens)| <= 1
    ensures Parse(tokens).Run? && Paths(tokens) == [] ==> Parse(tokens).options.path == "."
  {
    var h := HelpIndex(tokens);
    if "--help" !in tokens {
      NoHelp(tokens);
      assert tokens[..h] == tokens;
    }
  }

  /** Parsing ends early: once a prefix of the arguments has produced Help or
      the multiple-paths error, no later argument changes the outcome. */
  lemma EarlyExitIsFinal(prefix: seq<string>, rest: seq<string>)
    requires !Parse(prefix).Run?
    ensures Parse(prefix + rest) == Parse(prefix)
  {
    var all := prefix + rest;
    var h := HelpIndex(prefix);
    var h' := HelpIndex(all);
    if h < |prefix| {
      assert all[h] == "--help";
      assert all[..h] == prefix[..h];
      assert h' == h;
    } else {
      assert h' >= |prefix|;
      assert all[..h'] == prefix[..h] + all[|prefix|..h'];
      PathsAppend(prefix[..h], all[|prefix|..h']);
    }
  }

  /** A second path reached before any `--help` is an error, whatever
      follows, a later `--help` included. */
  lemma MultiplePathsWins(prefix: seq<string>, rest: seq<string>)
    requires "--help" !in prefix && |Paths(prefix)| >= 2
    ensures Parse(prefix + rest) == MultiplePaths
  {
    NoHelp(prefix);
    assert prefix[..|prefix|] == prefix;
    EarlyExitIsFinal(prefix, rest);
  }

  /** `--help` reached with at most one path before it yields Help, whatever
      follows. */
  lemma HelpIgnoresLaterTokens(prefix: seq<string>, rest: seq<string>)
    requires "--help" !in prefix && |Paths(prefix)| <= 1
    ensures Parse(prefix + ["--help"] + rest) == Help
  {
    var all := prefix + ["--help"];
    HelpFirst(all, |prefix|);
    assert all[..|prefix|] == prefix;
    EarlyExitIsFinal(all, rest);
  }
}
