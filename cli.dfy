/** The launcher's command-line classifier: `CliArgs` and `parse_args_from`
    (src/cli.rs).

    The classifier is specified in three layers:
    - `Lex` cuts the token stream into `Item`s. Which tokens form one item
      depends only on the tokens themselves (one token of lookahead and the
      `--` separator), never on the flags gathered so far.
    - `Run` folds the items, left to right, into a `CliArgs`, stopping at the
      first item that ends the parse (help, version, a missing project name).
    - `Promote` turns the first forwarded token into the positional project.
    `ParseArgs` composes them, and the method `ParseArgsFrom`, which follows the
    Rust loop, is proved to compute it. The lemmas after it state what the
    classifier promises: no token is lost or reordered, everything after `--`
    is forwarded verbatim, the last `--project` / `--release-bin` wins, flags
    commute, and the parse fails exactly on a missing project name. */
module Cli {
  import opened Wrappers
  import opened Text

  /** `release_bin: Option<Option<String>>`: flag absent, present without a
      destination, present with one. */
  datatype ReleaseBin = Absent | PresentDefault | PresentWith(dest: string)

  /** `CliArgs`. While the scan runs, `projectArgs` is the forwarding buffer. */
  datatype CliArgs = CliArgs(
    test: bool,
    build: bool,
    release: bool,
    releaseBin: ReleaseBin,
    project: Option<string>,
    projectName: Option<string>,
    projectArgs: seq<string>)

  /** `CliArgs::default()`. */
  const Default := CliArgs(false, false, false, Absent, None, None, [])

  datatype ExitReason = Help | Version

  /** The one parse error: "Missing project name after --project". */
  datatype CliError = MissingProjectName

  /** What the classifier hands back: the parsed arguments, an immediate
      process exit (help and version print and exit with status 0), or the
      error. */
  datatype Outcome = Parsed(args: CliArgs) | Exit(code: int, reason: ExitReason) | Failed(error: CliError)

  const Separator := "--"
  const ReleaseBinFlag := "--release-bin"
  const ReleaseBinEqPrefix := "--release-bin="
  const ProjectFlag := "--project"
  const ProjectEqPrefix := "--project="

  /** One classified piece of the token stream. */
  datatype Item =
    | Sep                             // "--": stop option parsing
    | HelpFlag(token: string)         // "-h" or "--help"
    | VersionFlag(token: string)      // "-V" or "--version"
    | TestFlag
    | BuildFlag
    | ReleaseFlag
    | ReleaseBinEq(value: string)     // "--release-bin=VALUE"
    | ReleaseBinNext(value: string)   // "--release-bin" VALUE, VALUE not starting with "--"
    | ReleaseBinBare                  // "--release-bin" with no value taken
    | ProjectEq(value: string)        // "--project=VALUE"
    | ProjectNext(value: string)      // "--project" VALUE, whatever VALUE is
    | ProjectBare                     // "--project" as the last token
    | Forward(token: string)          // anything else, and everything after "--"

  /** The tokens an item was made from. */
  function Tokens(it: Item): seq<string> {
    match it
    case Sep => [Separator]
    case HelpFlag(t) => [t]
    case VersionFlag(t) => [t]
    case TestFlag => ["--test"]
    case BuildFlag => ["--build"]
    case ReleaseFlag => ["--release"]
    case ReleaseBinEq(v) => [ReleaseBinEqPrefix + v]
    case ReleaseBinNext(v) => [ReleaseBinFlag, v]
    case ReleaseBinBare => [ReleaseBinFlag]
    case ProjectEq(v) => [ProjectEqPrefix + v]
    case ProjectNext(v) => [ProjectFlag, v]
    case ProjectBare => [ProjectFlag]
    case Forward(t) => [t]
  }

  function Flatten(items: seq<Item>): seq<string> {
    if items == [] then [] else Tokens(items[0]) + Flatten(items[1..])
  }

  /** Classifies the token at the front of `tokens` (option parsing still on),
      taking the following token too when the flag consumes a value. Returns
      the item and how many tokens it took. */
  function Head(tokens: seq<string>): (r: (Item, nat))
    requires tokens != [] && tokens[0] != Separator
    ensures 1 <= r.1 <= |tokens| && r.1 <= 2
    ensures r.0 != Sep
  {
    var t := tokens[0];
    if t == "-h" || t == "--help" then (HelpFlag(t), 1)
    else if t == "-V" || t == "--version" then (VersionFlag(t), 1)
    else if t == "--test" then (TestFlag, 1)
    else if t == "--build" then (BuildFlag, 1)
    else if t == "--release" then (ReleaseFlag, 1)
    else if t == ReleaseBinFlag || StartsWith(t, ReleaseBinEqPrefix) then
      if StartsWith(t, ReleaseBinEqPrefix) then
        (ReleaseBinEq(t[|ReleaseBinEqPrefix|..]), 1)
      else if |tokens| > 1 && !StartsWith(tokens[1], "--") then (ReleaseBinNext(tokens[1]), 2)
      else (ReleaseBinBare, 1)
    else if t == ProjectFlag || StartsWith(t, ProjectEqPrefix) then
      if StartsWith(t, ProjectEqPrefix) then
        (ProjectEq(t[|ProjectEqPrefix|..]), 1)
      else if |tokens| > 1 then (ProjectNext(tokens[1]), 2)
      else (ProjectBare, 1)
    else (Forward(t), 1)
  }

  /** Every token, unread, as a forwarded item. */
  function ForwardAll(tokens: seq<string>): seq<Item> {
    if tokens == [] then [] else [Forward(tokens[0])] + ForwardAll(tokens[1..])
  }

  /** The whole stream cut into items. */
  function Lex(tokens: seq<string>): seq<Item>
    decreases |tokens|
  {
    if tokens == [] then []
    else if tokens[0] == Separator then [Sep] + ForwardAll(tokens[1..])
    else
      var h := Head(tokens);
      [h.0] + Lex(tokens[h.1..])
  }

  /** The effect of one item: the arguments it leaves (`Parsed`), or the
      outcome it ends the parse with. */
  function Step(it: Item, st: CliArgs): (r: Outcome)
    ensures r.Parsed? ==> r.args.projectName == st.projectName
  {
    match it
    case Sep => Parsed(st)
    case HelpFlag(_) => Exit(0, Help)
    case VersionFlag(_) => Exit(0, Version)
    case TestFlag => Parsed(st.(test := true))
    case BuildFlag => Parsed(st.(build := true))
    case ReleaseFlag => Parsed(st.(release := true))
    case ReleaseBinEq(v) => Parsed(st.(releaseBin := if v == "" then PresentDefault else PresentWith(v)))
    case ReleaseBinNext(v) => Parsed(st.(releaseBin := PresentWith(v)))
    case ReleaseBinBare => Parsed(st.(releaseBin := PresentDefault))
    case ProjectEq(v) => if v == "" then Failed(MissingProjectName) else Parsed(st.(project := Some(v)))
    case ProjectNext(v) => Parsed(st.(project := Some(v)))
    case ProjectBare => Failed(MissingProjectName)
    case Forward(t) => Parsed(st.(projectArgs := st.projectArgs + [t]))
  }

  /** Folds the items into the arguments, left to right, stopping at the
      first item that ends the parse. */
  function Run(items: seq<Item>, st: CliArgs): (r: Outcome)
    ensures r.Parsed? ==> r.args.projectName == st.projectName
    decreases |items|
  {
    if items == [] then Parsed(st)
    else
      match Step(items[0], st)
      case Parsed(next) => Run(items[1..], next)
      case other => other
  }

  /** A stream whose first token is not `--` runs as its first item's step
      followed by the rest of the stream ... */
  lemma RunLexContinue(tokens: seq<string>, st: CliArgs, next: CliArgs)
    requires tokens != [] && tokens[0] != Separator
    requires Step(Head(tokens).0, st) == Parsed(next)
    ensures Run(Lex(tokens), st) == Run(Lex(tokens[Head(tokens).1..]), next)
  {
    var h := Head(tokens);
    assert Lex(tokens) == [h.0] + Lex(tokens[h.1..]);
    assert Lex(tokens)[1..] == Lex(tokens[h.1..]);
  }

  /** ... or stops right there when that item ends the parse. */
  lemma RunLexStop(tokens: seq<string>, st: CliArgs)
    requires tokens != [] && tokens[0] != Separator
    requires !Step(Head(tokens).0, st).Parsed?
    ensures Run(Lex(tokens), st) == Step(Head(tokens).0, st)
  {
    assert Lex(tokens)[0] == Head(tokens).0;
  }

  /** A `--` at the front switches to forwarding everything after it. */
  lemma RunLexSeparator(tokens: seq<string>, st: CliArgs)
    requires tokens != [] && tokens[0] == Separator
    ensures Run(Lex(tokens), st) == Run(ForwardAll(tokens[1..]), st)
  {
    assert Lex(tokens)[1..] == ForwardAll(tokens[1..]);
  }

  /** Once forwarding, each token is appended to the buffer in turn. */
  lemma RunForwardStep(tokens: seq<string>, st: CliArgs)
    requires tokens != []
    ensures Run(ForwardAll(tokens), st) == Run(ForwardAll(tokens[1..]), st.(projectArgs := st.projectArgs + [tokens[0]]))
  {
    var x, rest := Forward(tokens[0]), ForwardAll(tokens[1..]);
    var next := st.(projectArgs := st.projectArgs + [tokens[0]]);
    assert ForwardAll(tokens) == [x] + rest;
    assert Step(x, st) == Parsed(next);
    RunCons(x, rest, st);
  }

  /** Running an item in front of a list. */
  lemma RunCons(x: Item, rest: seq<Item>, st: CliArgs)
    ensures Run([x] + rest, st) == if Step(x, st).Parsed? then Run(rest, Step(x, st).args) else Step(x, st)
  {
    assert ([x] + rest)[0] == x && ([x] + rest)[1..] == rest;
  }

  /** Positional promotion after the scan: with no `--project`, a first
      forwarded token that does not start with `--` becomes the project name.
      Nothing is lost: the name and the remaining arguments are the buffer. */
  function Promote(a: CliArgs): (r: CliArgs)
    requires a.projectName.None?
    ensures r.projectName.Some? <==> a.project.None? && a.projectArgs != [] && !StartsWith(a.projectArgs[0], "--")
    ensures OptionToSeq(r.projectName) + r.projectArgs == a.projectArgs
    ensures r.(projectName := None, projectArgs := a.projectArgs) == a
  {
    if a.project.None? && a.projectArgs != [] && !StartsWith(a.projectArgs[0], "--") then
      a.(projectName := Some(a.projectArgs[0]), projectArgs := a.projectArgs[1..])
    else a
  }

  /** `parse_args_from` as a function. */
  function ParseArgs(tokens: seq<string>): Outcome {
    match Run(Lex(tokens), Default)
    case Parsed(a) => Parsed(Promote(a))
    case other => other
  }

  /** The `match token.as_str()` of `parse_args_from` for one token read
      while option parsing is on: `st` is the arguments so far, with the
      forwarding buffer in `st.projectArgs`; `i` is the token's index, and
      `next` the index of the first token not consumed. */
  method ClassifyOption(tokens: seq<string>, i: nat, st: CliArgs) returns (r: Outcome, next: nat)
    requires i < |tokens| && tokens[i] != Separator
    ensures r == Step(Head(tokens[i..]).0, st)
    ensures next == i + Head(tokens[i..]).1
  {
    ghost var rest := tokens[i..];
    var token := tokens[i];
    next := i + 1;
    if token == "-h" || token == "--help" {
      r := Exit(0, Help);
    } else if token == "-V" || token == "--version" {
      r := Exit(0, Version);
    } else if token == "--test" {
      r := Parsed(st.(test := true));
    } else if token == "--build" {
      r := Parsed(st.(build := true));
    } else if token == "--release" {
      r := Parsed(st.(release := true));
    } else if token == ReleaseBinFlag || StartsWith(token, ReleaseBinEqPrefix) {
      if StartsWith(token, ReleaseBinEqPrefix) {
        var dest := token[|ReleaseBinEqPrefix|..];
        r := Parsed(st.(releaseBin := if dest == "" then PresentDefault else PresentWith(dest)));
      } else if next < |tokens| {
        if !StartsWith(tokens[next], "--") {
          r := Parsed(st.(releaseBin := PresentWith(tokens[next])));
          next := next + 1;
        } else {
          r := Parsed(st.(releaseBin := PresentDefault));
        }
      } else {
        r := Parsed(st.(releaseBin := PresentDefault));
      }
    } else if token == ProjectFlag || StartsWith(token, ProjectEqPrefix) {
      if StartsWith(token, ProjectEqPrefix) {
        var name := token[|ProjectEqPrefix|..];
        if name == "" {
          r := Failed(MissingProjectName);
        } else {
          r := Parsed(st.(project := Some(name)));
        }
      } else if next < |tokens| {
        r := Parsed(st.(project := Some(tokens[next])));
        next := next + 1;
      } else {
        r := Failed(MissingProjectName);
      }
    } else {
      r := Parsed(st.(projectArgs := st.projectArgs + [token]));
    }
  }

  /** `parse_args_from`: the Rust loop, with an index for the peekable
      iterator and a flag for "`--` seen". */
  method ParseArgsFrom(tokens: seq<string>) returns (r: Outcome)
    ensures r == ParseArgs(tokens)
  {
    var parsed := Default;
    var projectArgs: seq<string> := [];
    var stopOptionParsing := false;
    var i := 0;
    ghost var goal := Run(Lex(tokens), Default);
    while i < |tokens|
      invariant 0 <= i <= |tokens|
      invariant parsed.projectName.None? && parsed.projectArgs == []
      invariant stopOptionParsing ==> Run(ForwardAll(tokens[i..]), parsed.(projectArgs := projectArgs)) == goal
      invariant !stopOptionParsing ==> Run(Lex(tokens[i..]), parsed.(projectArgs := projectArgs)) == goal
    {
      ghost var rest := tokens[i..];
      var token := tokens[i];
      if stopOptionParsing {
        RunForwardStep(rest, parsed.(projectArgs := projectArgs));
        assert rest[1..] == tokens[i + 1..];
        projectArgs := projectArgs + [token];
        i := i + 1;
        continue;
      }
      if token == Separator {
        RunLexSeparator(rest, parsed.(projectArgs := projectArgs));
        assert rest[1..] == tokens[i + 1..];
        stopOptionParsing := true;
        i := i + 1;
        continue;
      }
      var outcome, next := ClassifyOption(tokens, i, parsed.(projectArgs := projectArgs));
      if !outcome.Parsed? {
        RunLexStop(rest, parsed.(projectArgs := projectArgs));
        return outcome;
      }
      RunLexContinue(rest, parsed.(projectArgs := projectArgs), outcome.args);
      assert rest[Head(rest).1..] == tokens[next..];
      parsed := outcome.args.(projectArgs := []);
      projectArgs := outcome.args.projectArgs;
      i := next;
    }

    assert tokens[i..] == [];
    if parsed.project.None? && projectArgs != [] && !StartsWith(projectArgs[0], "--") {
      parsed := parsed.(projectName := Some(projectArgs[0]));
      projectArgs := projectArgs[1..];
    }
    parsed := parsed.(projectArgs := projectArgs);
    r := Parsed(parsed);
  }

  // ---------------------------------------------------------------------
  // What the items add up to, stated without the left-to-right fold.

  /** The items that end the parse: help, version and a missing project name. */
  predicate EndsParse(it: Item) {
    it.HelpFlag? || it.VersionFlag? || it.ProjectBare? || it == ProjectEq("")
  }

  /** The outcome an ending item produces. */
  function EndOf(it: Item): Outcome
    requires EndsParse(it)
  {
    match it
    case HelpFlag(_) => Exit(0, Help)
    case VersionFlag(_) => Exit(0, Version)
    case _ => Failed(MissingProjectName)
  }

  predicate NoEnd(items: seq<Item>) {
    forall k | 0 <= k < |items| :: !EndsParse(items[k])
  }

  /** `j` is the first ending item. */
  predicate FirstEndAt(items: seq<Item>, j: int) {
    0 <= j < |items| && EndsParse(items[j]) && forall k | 0 <= k < j :: !EndsParse(items[k])
  }

  lemma FirstEndUnique(items: seq<Item>, j: int, j': int)
    requires FirstEndAt(items, j) && FirstEndAt(items, j')
    ensures j == j'
  {
  }

  /** The `release_bin` value an item writes, if it writes one. */
  function ReleaseBinSetBy(it: Item): Option<ReleaseBin> {
    match it
    case ReleaseBinEq(v) => Some(if v == "" then PresentDefault else PresentWith(v))
    case ReleaseBinNext(v) => Some(PresentWith(v))
    case ReleaseBinBare => Some(PresentDefault)
    case _ => None
  }

  /** The `project` value an item writes, if it writes one. */
  function ProjectSetBy(it: Item): Option<string> {
    match it
    case ProjectEq(v) => Some(v)
    case ProjectNext(v) => Some(v)
    case _ => None
  }

  /** The value written by the LAST release-bin item, or `d` if none. */
  function LastReleaseBin(items: seq<Item>, d: ReleaseBin): ReleaseBin
    decreases |items|
  {
    if items == [] then d
    else
      match ReleaseBinSetBy(items[|items| - 1])
      case Some(b) => b
      case None => LastReleaseBin(items[..|items| - 1], d)
  }

  /** The value written by the LAST project item, or `d` if none. */
  function LastProject(items: seq<Item>, d: Option<string>): Option<string>
    decreases |items|
  {
    if items == [] then d
    else
      match ProjectSetBy(items[|items| - 1])
      case Some(p) => Some(p)
      case None => LastProject(items[..|items| - 1], d)
  }

  /** The tokens of the forwarded items, in order. */
  function Forwarded(items: seq<Item>): seq<string> {
    if items == [] then []
    else (if items[0].Forward? then [items[0].token] else []) + Forwarded(items[1..])
  }

  /** The arguments a run over items with no ending item leaves behind: each
      flag is on iff it was on or occurs, the valued options hold their last
      value, and the forwarded tokens are appended in order. */
  function Settled(items: seq<Item>, st: CliArgs): CliArgs {
    CliArgs(
      st.test || TestFlag in items,
      st.build || BuildFlag in items,
      st.release || ReleaseFlag in items,
      LastReleaseBin(items, st.releaseBin),
      LastProject(items, st.project),
      st.projectName,
      st.projectArgs + Forwarded(items))
  }

  lemma {:induction false} LastReleaseBinCons(x: Item, rest: seq<Item>, d: ReleaseBin)
    ensures LastReleaseBin([x] + rest, d) ==
            LastReleaseBin(rest, match ReleaseBinSetBy(x) case Some(b) => b case None => d)
    decreases |rest|
  {
    var items := [x] + rest;
    if rest == [] {
      assert items[..0] == [];
    } else {
      assert items[|items| - 1] == rest[|rest| - 1];
      assert items[..|items| - 1] == [x] + rest[..|rest| - 1];
      LastReleaseBinCons(x, rest[..|rest| - 1], d);
    }
  }

  lemma {:induction false} LastProjectCons(x: Item, rest: seq<Item>, d: Option<string>)
    ensures LastProject([x] + rest, d) ==
            LastProject(rest, match ProjectSetBy(x) case Some(p) => Some(p) case None => d)
    decreases |rest|
  {
    var items := [x] + rest;
    if rest == [] {
      assert items[..0] == [];
    } else {
      assert items[|items| - 1] == rest[|rest| - 1];
      assert items[..|items| - 1] == [x] + rest[..|rest| - 1];
      LastProjectCons(x, rest[..|rest| - 1], d);
    }
  }

  /** One step that does not end the parse moves an item from the list into
      the arguments without changing what the list settles to. */
  lemma SettledCons(x: Item, rest: seq<Item>, st: CliArgs)
    requires !EndsParse(x)
    ensures Step(x, st).Parsed?
    ensures Settled([x] + rest, st) == Settled(rest, Step(x, st).args)
  {
    var items := [x] + rest;
    var next := Step(x, st).args;
    LastReleaseBinCons(x, rest, st.releaseBin);
    LastProjectCons(x, rest, st.project);
    assert items[0] == x && items[1..] == rest;
    assert next.releaseBin == match ReleaseBinSetBy(x) case Some(b) => b case None => st.releaseBin;
    assert next.project == match ProjectSetBy(x) case Some(p) => Some(p) case None => st.project;
    assert st.projectArgs + Forwarded(items) == next.projectArgs + Forwarded(rest);
    assert (TestFlag in items) == (x == TestFlag || TestFlag in rest);
    assert (BuildFlag in items) == (x == BuildFlag || BuildFlag in rest);
    assert (ReleaseFlag in items) == (x == ReleaseFlag || ReleaseFlag in rest);
  }

  /** The fold agrees with the order-free description: it succeeds iff no
      item ends the parse, it then leaves `Settled`, and otherwise it yields
      what the first ending item produces. */
  lemma {:induction false} RunSettles(items: seq<Item>, st: CliArgs)
    ensures Run(items, st).Parsed? <==> NoEnd(items)
    ensures Run(items, st).Parsed? ==> Run(items, st).args == Settled(items, st)
    ensures !Run(items, st).Parsed? ==>
      exists j :: FirstEndAt(items, j) && Run(items, st) == EndOf(items[j])
    decreases |items|
  {
    if items != [] {
      var x, rest := items[0], items[1..];
      assert items == [x] + rest;
      if EndsParse(x) {
        assert FirstEndAt(items, 0);
      } else {
        SettledCons(x, rest, st);
        var next := Step(x, st).args;
        RunSettles(rest, next);
        assert NoEnd(items) <==> NoEnd(rest) by {
          assert forall k | 0 <= k < |rest| :: rest[k] == items[k + 1];
        }
        if !Run(rest, next).Parsed? {
          var j :| FirstEndAt(rest, j) && Run(rest, next) == EndOf(rest[j]);
          assert FirstEndAt(items, j + 1);
        }
      }
    }
  }

  /** Running two item lists one after the other. */
  lemma {:induction false} RunAppend(a: seq<Item>, b: seq<Item>, st: CliArgs)
    ensures Run(a + b, st) == if Run(a, st).Parsed? then Run(b, Run(a, st).args) else Run(a, st)
    decreases |a|
  {
    if a != [] {
      assert (a + b)[0] == a[0] && (a + b)[1..] == a[1..] + b;
      if Step(a[0], st).Parsed? {
        RunAppend(a[1..], b, Step(a[0], st).args);
      }
    } else {
      assert a + b == b;
    }
  }

  /** Forwarded items only append their tokens. */
  lemma {:induction false} RunForwardAll(tokens: seq<string>, st: CliArgs)
    ensures Run(ForwardAll(tokens), st) == Parsed(st.(projectArgs := st.projectArgs + tokens))
    decreases |tokens|
  {
    if tokens != [] {
      RunForwardAll(tokens[1..], st.(projectArgs := st.projectArgs + [tokens[0]]));
      assert st.projectArgs + [tokens[0]] + tokens[1..] == st.projectArgs + tokens;
    }
  }

  // ---------------------------------------------------------------------
  // Token conservation.

  lemma {:induction false} FlattenForwardAll(tokens: seq<string>)
    ensures Flatten(ForwardAll(tokens)) == tokens
    ensures Forwarded(ForwardAll(tokens)) == tokens
    decreases |tokens|
  {
    if tokens != [] {
      FlattenForwardAll(tokens[1..]);
    }
  }

  /** The item at the front is made of the tokens it took. */
  lemma HeadTokens(tokens: seq<string>)
    requires tokens != [] && tokens[0] != Separator
    ensures Tokens(Head(tokens).0) == tokens[..Head(tokens).1]
  {
    var t := tokens[0];
    if StartsWith(t, ReleaseBinEqPrefix) {
      assert ReleaseBinEqPrefix + t[|ReleaseBinEqPrefix|..] == t;
    }
    if StartsWith(t, ProjectEqPrefix) {
      assert ProjectEqPrefix + t[|ProjectEqPrefix|..] == t;
    }
  }

  /** An item made of the first `k` tokens, then items made of the rest,
      flatten back to the whole. */
  lemma FlattenCons(tokens: seq<string>, k: nat, it: Item, rest: seq<Item>)
    requires k <= |tokens| && Tokens(it) == tokens[..k] && Flatten(rest) == tokens[k..]
    ensures Flatten([it] + rest) == tokens
  {
    assert ([it] + rest)[1..] == rest;
    assert tokens == tokens[..k] + tokens[k..];
  }

  /** Every input token lies in exactly one item, in order: concatenating the
      items' tokens gives the input back. */
  lemma {:induction false} LexConserves(tokens: seq<string>)
    ensures Flatten(Lex(tokens)) == tokens
    decreases |tokens|
  {
    if tokens != [] {
      if tokens[0] == Separator {
        FlattenForwardAll(tokens[1..]);
        assert Lex(tokens)[1..] == ForwardAll(tokens[1..]);
      } else {
        var h := Head(tokens);
        HeadTokens(tokens);
        LexConserves(tokens[h.1..]);
        FlattenCons(tokens, h.1, h.0, Lex(tokens[h.1..]));
      }
    }
  }

  /** `a` is `b` with some elements left out, the rest in their order. */
  predicate IsSubsequence<T(==)>(a: seq<T>, b: seq<T>)
    decreases |b|
  {
    a == [] || (b != [] && ((a[0] == b[0] && IsSubsequence(a[1..], b[1..])) || IsSubsequence(a, b[1..])))
  }

  lemma {:induction false} SubsequenceSkip<T>(a: seq<T>, p: seq<T>, b: seq<T>)
    requires IsSubsequence(a, b)
    ensures IsSubsequence(a, p + b)
    decreases |p|
  {
    if p == [] {
      assert p + b == b;
    } else {
      SubsequenceSkip(a, p[1..], b);
      assert (p + b)[1..] == p[1..] + b;
    }
  }

  /** The forwarded tokens are the items' tokens with the recognised ones
      left out: verbatim and in their relative order. */
  lemma {:induction false} ForwardedIsSubsequence(items: seq<Item>)
    ensures IsSubsequence(Forwarded(items), Flatten(items))
    decreases |items|
  {
    if items != [] {
      ForwardedIsSubsequence(items[1..]);
      var f, fl := Forwarded(items[1..]), Flatten(items[1..]);
      if items[0].Forward? {
        var t := items[0].token;
        assert ([t] + f)[1..] == f && ([t] + fl)[1..] == fl;
      } else {
        assert Forwarded(items) == [] + f == f;
        SubsequenceSkip(f, Tokens(items[0]), fl);
      }
    }
  }

  // ---------------------------------------------------------------------
  // The classifier's promises, on whole token streams.

  /** What a parse of any token stream yields: it succeeds iff no item ends
      it; the flags are on iff they occur (so their order is irrelevant);
      `--project` and `--release-bin` hold the value of their LAST occurrence;
      the project name and the arguments are exactly the forwarded tokens,
      which are the input's unrecognised tokens, verbatim and in order; and
      the first of them becomes the project name iff no `--project` was given
      and it does not start with `--`. */
  lemma ParseArgsSettles(tokens: seq<string>)
    ensures ParseArgs(tokens).Parsed? <==> NoEnd(Lex(tokens))
    ensures ParseArgs(tokens).Parsed? ==>
      var items, r := Lex(tokens), ParseArgs(tokens).args;
      var fwd := Forwarded(items);
      && r.test == (TestFlag in items)
      && r.build == (BuildFlag in items)
      && r.release == (ReleaseFlag in items)
      && r.releaseBin == LastReleaseBin(items, Absent)
      && r.project == LastProject(items, None)
      && OptionToSeq(r.projectName) + r.projectArgs == fwd
      && IsSubsequence(fwd, tokens)
      && (r.projectName.Some? <==> r.project.None? && fwd != [] && !StartsWith(fwd[0], "--"))
  {
    RunSettles(Lex(tokens), Default);
    LexConserves(tokens);
    ForwardedIsSubsequence(Lex(tokens));
  }

  /** A parse stops with an exit or an error exactly at the first ending item:
      it fails with "Missing project name" iff that item is `--project=` with
      an empty value or a bare `--project` with nothing after it, and exits
      with status 0 iff it is `-h`/`--help` or `-V`/`--version`. */
  lemma ParseArgsEnds(tokens: seq<string>)
    ensures ParseArgs(tokens) == Failed(MissingProjectName) <==>
      exists j :: FirstEndAt(Lex(tokens), j) && Lex(tokens)[j] in {ProjectBare, ProjectEq("")}
    ensures ParseArgs(tokens).Exit? <==>
      exists j :: FirstEndAt(Lex(tokens), j) && (Lex(tokens)[j].HelpFlag? || Lex(tokens)[j].VersionFlag?)
    ensures ParseArgs(tokens).Exit? ==> ParseArgs(tokens).code == 0
  {
    var items := Lex(tokens);
    RunSettles(items, Default);
    var o := Run(items, Default);
    if o.Parsed? {
      assert forall j :: !FirstEndAt(items, j);
    } else {
      var j :| FirstEndAt(items, j) && o == EndOf(items[j]);
      assert ParseArgs(tokens) == o;
      forall j' | FirstEndAt(items, j') ensures j' == j {
        FirstEndUnique(items, j, j');
      }
      assert (items[j] in {ProjectBare, ProjectEq("")}) == (o == Failed(MissingProjectName));
      assert (items[j].HelpFlag? || items[j].VersionFlag?) == o.Exit?;
      assert o.Exit? ==> o.code == 0;
    }
  }

  /** A bare `--project` is produced only by the very last token. */
  lemma {:induction false} ProjectBareIsLast(tokens: seq<string>)
    ensures forall j | 0 <= j < |Lex(tokens)| && Lex(tokens)[j] == ProjectBare ::
      j == |Lex(tokens)| - 1 && tokens[|tokens| - 1] == ProjectFlag
    decreases |tokens|
  {
    if tokens != [] {
      var items := Lex(tokens);
      if tokens[0] == Separator {
        NoBareInForwardAll(tokens[1..]);
        assert items[1..] == ForwardAll(tokens[1..]);
      } else {
        var h := Head(tokens);
        ProjectBareIsLast(tokens[h.1..]);
        assert items[1..] == Lex(tokens[h.1..]);
        if h.0 == ProjectBare {
          assert tokens[h.1..] == [];
        }
        if tokens[h.1..] != [] {
          assert tokens[|tokens| - 1] == tokens[h.1..][|tokens[h.1..]| - 1];
        }
      }
    }
  }

  lemma {:induction false} NoBareInForwardAll(tokens: seq<string>)
    ensures ProjectBare !in ForwardAll(tokens)
    decreases |tokens|
  {
    if tokens != [] {
      NoBareInForwardAll(tokens[1..]);
    }
  }

  // ---------------------------------------------------------------------
  // Streams with a known prefix.

  /** After `tokens` the scanner still reads options: no `--` was met, and
      the last item is not a bare `--project` that stopped only because the
      stream ended. */
  predicate Open(tokens: seq<string>) {
    var items := Lex(tokens);
    Sep !in items && (items != [] ==> items[|items| - 1] != ProjectBare)
  }

  /** `post` can follow `pre` at a token boundary: `pre` is open, and if it
      ends in a bare `--release-bin`, `post` gives that flag no value (it is
      empty or starts with `--`), so the flag reads the same either way. */
  predicate Boundary(pre: seq<string>, post: seq<string>) {
    var items := Lex(pre);
    Open(pre) && (items != [] && items[|items| - 1] == ReleaseBinBare ==> post == [] || StartsWith(post[0], "--"))
  }

  /** An open prefix is a boundary before any option. */
  lemma OpenBeforeOption(pre: seq<string>, post: seq<string>)
    requires Open(pre) && post != [] && StartsWith(post[0], "--")
    ensures Boundary(pre, post)
  {
  }

  /** The first item is `Sep` exactly when the stream starts with `--`. */
  lemma LexFront(tokens: seq<string>)
    requires tokens != []
    ensures Lex(tokens) != [] && (Lex(tokens)[0] == Sep <==> tokens[0] == Separator)
  {
  }

  /** A non-empty prefix at a boundary starts with an option item that
      does not reach past it, whatever follows; what is left after that
      item is at the same boundary. */
  lemma BoundaryHead(pre: seq<string>, post: seq<string>)
    requires Boundary(pre, post) && pre != []
    ensures pre[0] != Separator && Head(pre + post) == Head(pre)
    ensures Boundary(pre[Head(pre).1..], post)
  {
    var items := Lex(pre);
    LexFront(pre);
    var h := Head(pre);
    var tail := Lex(pre[h.1..]);
    assert items == [h.0] + tail;
    if |pre| == 1 {
      assert pre[h.1..] == [];
      assert items[|items| - 1] == h.0;
      if post != [] {
        assert (pre + post)[1] == post[0];
      }
    }
    assert forall k | 0 <= k < |tail| :: tail[k] == items[k + 1];
    if tail != [] {
      assert tail[|tail| - 1] == items[|items| - 1];
    }
    assert (pre + post)[0] == pre[0];
    if |pre| >= 2 {
      assert (pre + post)[1] == pre[1];
    }
  }

  /** One item off the front of a stream extended past a boundary. */
  lemma LexConsAppend(pre: seq<string>, post: seq<string>)
    requires pre != [] && pre[0] != Separator && Head(pre + post) == Head(pre)
    ensures Lex(pre + post) == [Head(pre).0] + Lex(pre[Head(pre).1..] + post)
  {
    var h := Head(pre);
    LexCons(pre + post);
    assert (pre + post)[h.1..] == pre[h.1..] + post;
  }

  /** A stream that does not start with `--` is its first item, then the
      rest. */
  lemma LexCons(tokens: seq<string>)
    requires tokens != [] && tokens[0] != Separator
    ensures Lex(tokens) == [Head(tokens).0] + Lex(tokens[Head(tokens).1..])
  {
  }

  lemma ConsAppend<T>(x: T, a: seq<T>, b: seq<T>)
    ensures [x] + (a + b) == ([x] + a) + b
  {
  }

  /** Lexing splits at a boundary. */
  lemma {:induction false} LexAppend(pre: seq<string>, post: seq<string>)
    requires Boundary(pre, post)
    ensures Lex(pre + post) == Lex(pre) + Lex(post)
    decreases |pre|
  {
    if pre == [] {
      assert pre + post == post;
    } else {
      BoundaryHead(pre, post);
      LexCons(pre);
      LexConsAppend(pre, post);
      var h := Head(pre);
      LexAppend(pre[h.1..], post);
      ConsAppend(h.0, Lex(pre[h.1..]), Lex(post));
    }
  }

  /** The separator: once `--` is read as an option, it is dropped and every
      later token, `--build` and `-h` included, is appended verbatim and in
      order to the forwarded arguments; nothing else changes. */
  lemma SeparatorForwardsRest(pre: seq<string>, post: seq<string>, a: CliArgs)
    requires Open(pre) && Run(Lex(pre), Default) == Parsed(a)
    ensures ParseArgs(pre + [Separator] + post) == Parsed(Promote(a.(projectArgs := a.projectArgs + post)))
  {
    assert pre + [Separator] + post == pre + ([Separator] + post);
    OpenBeforeOption(pre, [Separator] + post);
    LexAppend(pre, [Separator] + post);
    assert Lex([Separator] + post) == [Sep] + ForwardAll(post) by {
      assert ([Separator] + post)[1..] == post;
    }
    RunAppend(Lex(pre), [Sep] + ForwardAll(post), Default);
    assert ([Sep] + ForwardAll(post))[1..] == ForwardAll(post);
    RunForwardAll(post, a);
  }

  /** A prefix that already ended the parse decides the outcome, whatever
      follows it. */
  lemma PrefixEnded(pre: seq<string>, post: seq<string>, st: CliArgs)
    requires Boundary(pre, post) && !Run(Lex(pre), st).Parsed?
    ensures Run(Lex(pre + post), st) == Run(Lex(pre), st)
  {
    LexAppend(pre, post);
    RunAppend(Lex(pre), Lex(post), st);
  }

  /** Running a prefix and then a stream that follows it at a boundary: the prefix's items, then
      the stream's. */
  lemma RunAfter(pre: seq<string>, rest: seq<string>, st: CliArgs, a: CliArgs)
    requires Boundary(pre, rest) && Run(Lex(pre), st) == Parsed(a)
    ensures Run(Lex(pre + rest), st) == Run(Lex(rest), a)
  {
    LexAppend(pre, rest);
    RunAppend(Lex(pre), Lex(rest), st);
  }

  /** `RunAfter` for a prefix, one or two tokens, and the rest. */
  lemma RunAfterToken(pre: seq<string>, mid: seq<string>, post: seq<string>, st: CliArgs, a: CliArgs)
    requires Open(pre) && mid != [] && StartsWith(mid[0], "--") && Run(Lex(pre), st) == Parsed(a)
    ensures Run(Lex(pre + mid + post), st) == Run(Lex(mid + post), a)
  {
    assert (mid + post)[0] == mid[0];
    OpenBeforeOption(pre, mid + post);
    assert pre + mid + post == pre + (mid + post);
    RunAfter(pre, mid + post, st, a);
  }

  // The forms below read each option at the front of the stream.

  lemma RunProjectNext(v: string, post: seq<string>, a: CliArgs)
    ensures Run(Lex([ProjectFlag, v] + post), a) == Run(Lex(post), a.(project := Some(v)))
  {
    var rest := [ProjectFlag, v] + post;
    assert Head(rest) == (ProjectNext(v), 2);
    assert rest[2..] == post;
    RunLexContinue(rest, a, a.(project := Some(v)));
  }

  lemma RunProjectEq(v: string, post: seq<string>, a: CliArgs)
    ensures Run(Lex([ProjectEqPrefix + v] + post), a) ==
      if v == "" then Failed(MissingProjectName) else Run(Lex(post), a.(project := Some(v)))
  {
    var t := ProjectEqPrefix + v;
    var rest := [t] + post;
    assert rest[0] == t;
    assert t[..|ProjectEqPrefix|] == ProjectEqPrefix && t[|ProjectEqPrefix|..] == v;
    assert t[2] == 'p';
    assert Head(rest) == (ProjectEq(v), 1);
    assert rest[1..] == post;
    if v == "" {
      RunLexStop(rest, a);
    } else {
      RunLexContinue(rest, a, a.(project := Some(v)));
    }
  }

  lemma RunReleaseBinEq(v: string, post: seq<string>, a: CliArgs)
    ensures Run(Lex([ReleaseBinEqPrefix + v] + post), a) ==
      Run(Lex(post), a.(releaseBin := if v == "" then PresentDefault else PresentWith(v)))
  {
    var t := ReleaseBinEqPrefix + v;
    var rest := [t] + post;
    assert rest[0] == t;
    assert t[..|ReleaseBinEqPrefix|] == ReleaseBinEqPrefix && t[|ReleaseBinEqPrefix|..] == v;
    assert t[2] == 'r' && t[9] == '-';
    assert Head(rest) == (ReleaseBinEq(v), 1);
    assert rest[1..] == post;
    RunLexContinue(rest, a, a.(releaseBin := if v == "" then PresentDefault else PresentWith(v)));
  }

  lemma RunReleaseBinNext(v: string, post: seq<string>, a: CliArgs)
    ensures !StartsWith(v, "--") ==>
      Run(Lex([ReleaseBinFlag, v] + post), a) == Run(Lex(post), a.(releaseBin := PresentWith(v)))
    ensures StartsWith(v, "--") ==>
      Run(Lex([ReleaseBinFlag, v] + post), a) == Run(Lex([v] + post), a.(releaseBin := PresentDefault))
  {
    var rest := [ReleaseBinFlag, v] + post;
    if StartsWith(v, "--") {
      assert Head(rest) == (ReleaseBinBare, 1);
      assert rest[1..] == [v] + post;
      RunLexContinue(rest, a, a.(releaseBin := PresentDefault));
    } else {
      assert Head(rest) == (ReleaseBinNext(v), 2);
      assert rest[2..] == post;
      RunLexContinue(rest, a, a.(releaseBin := PresentWith(v)));
    }
  }

  lemma RunProjectBare(a: CliArgs)
    ensures Run(Lex([ProjectFlag]), a) == Failed(MissingProjectName)
  {
    assert Head([ProjectFlag]) == (ProjectBare, 1);
    RunLexStop([ProjectFlag], a);
  }

  lemma RunReleaseBinBare(a: CliArgs)
    ensures Run(Lex([ReleaseBinFlag]), a) == Parsed(a.(releaseBin := PresentDefault))
  {
    assert Head([ReleaseBinFlag]) == (ReleaseBinBare, 1);
    RunLexContinue([ReleaseBinFlag], a, a.(releaseBin := PresentDefault));
    assert [ReleaseBinFlag][1..] == [];
  }

  /** The arguments after one of `--test`, `--build`, `--release`. */
  function SetFlag(f: string, a: CliArgs): CliArgs {
    if f == "--test" then a.(test := true)
    else if f == "--build" then a.(build := true)
    else a.(release := true)
  }

  lemma RunFlag(f: string, post: seq<string>, a: CliArgs)
    requires f in {"--test", "--build", "--release"}
    ensures Run(Lex([f] + post), a) == Run(Lex(post), SetFlag(f, a))
  {
    var rest := [f] + post;
    assert Head(rest) == (if f == "--test" then TestFlag else if f == "--build" then BuildFlag else ReleaseFlag, 1);
    assert rest[1..] == post;
    RunLexContinue(rest, a, SetFlag(f, a));
  }

  /** `--project V` takes the next token, whatever it looks like, as the
      project. */
  lemma ProjectNextForm(pre: seq<string>, v: string, post: seq<string>, st: CliArgs, a: CliArgs)
    requires Open(pre) && Run(Lex(pre), st) == Parsed(a)
    ensures Run(Lex(pre + [ProjectFlag, v] + post), st) == Run(Lex(post), a.(project := Some(v)))
  {
    RunAfterToken(pre, [ProjectFlag, v], post, st, a);
    RunProjectNext(v, post, a);
  }

  /** `--project` as the last token fails with "Missing project name". */
  lemma ProjectBareForm(pre: seq<string>, st: CliArgs, a: CliArgs)
    requires Open(pre) && Run(Lex(pre), st) == Parsed(a)
    ensures Run(Lex(pre + [ProjectFlag]), st) == Failed(MissingProjectName)
  {
    OpenBeforeOption(pre, [ProjectFlag]);
    RunAfter(pre, [ProjectFlag], st, a);
    RunProjectBare(a);
  }

  /** `--project=V` sets V, and fails with "Missing project name" when V is
      empty. */
  lemma ProjectEqForm(pre: seq<string>, v: string, post: seq<string>, st: CliArgs, a: CliArgs)
    requires Open(pre) && Run(Lex(pre), st) == Parsed(a)
    ensures Run(Lex(pre + [ProjectEqPrefix + v] + post), st) ==
      if v == "" then Failed(MissingProjectName) else Run(Lex(post), a.(project := Some(v)))
  {
    assert (ProjectEqPrefix + v)[..2] == "--";
    RunAfterToken(pre, [ProjectEqPrefix + v], post, st, a);
    RunProjectEq(v, post, a);
  }

  /** `--release-bin=V` sets V as the destination, or the default
      destination when V is empty. */
  lemma ReleaseBinEqForm(pre: seq<string>, v: string, post: seq<string>, st: CliArgs, a: CliArgs)
    requires Open(pre) && Run(Lex(pre), st) == Parsed(a)
    ensures Run(Lex(pre + [ReleaseBinEqPrefix + v] + post), st) ==
      Run(Lex(post), a.(releaseBin := if v == "" then PresentDefault else PresentWith(v)))
  {
    assert (ReleaseBinEqPrefix + v)[..2] == "--";
    RunAfterToken(pre, [ReleaseBinEqPrefix + v], post, st, a);
    RunReleaseBinEq(v, post, a);
  }

  /** `--release-bin V` takes the next token as the destination unless it
      starts with `--`; then the flag takes nothing, sets the default
      destination, and that token is read as an option of its own. */
  lemma ReleaseBinNextForm(pre: seq<string>, v: string, post: seq<string>, st: CliArgs, a: CliArgs)
    requires Open(pre) && Run(Lex(pre), st) == Parsed(a)
    ensures !StartsWith(v, "--") ==>
      Run(Lex(pre + [ReleaseBinFlag, v] + post), st) == Run(Lex(post), a.(releaseBin := PresentWith(v)))
    ensures StartsWith(v, "--") ==>
      Run(Lex(pre + [ReleaseBinFlag, v] + post), st) == Run(Lex([v] + post), a.(releaseBin := PresentDefault))
  {
    RunAfterToken(pre, [ReleaseBinFlag, v], post, st, a);
    RunReleaseBinNext(v, post, a);
  }

  /** `--release-bin` as the last token sets the default destination. */
  lemma ReleaseBinBareForm(pre: seq<string>, st: CliArgs, a: CliArgs)
    requires Open(pre) && Run(Lex(pre), st) == Parsed(a)
    ensures Run(Lex(pre + [ReleaseBinFlag]), st) == Parsed(a.(releaseBin := PresentDefault))
  {
    OpenBeforeOption(pre, [ReleaseBinFlag]);
    RunAfter(pre, [ReleaseBinFlag], st, a);
    RunReleaseBinBare(a);
  }

  /** `--test`, `--build` and `--release` consume nothing and set only their
      own flag ... */
  lemma FlagSetsOnly(pre: seq<string>, f: string, post: seq<string>, st: CliArgs, a: CliArgs)
    requires Open(pre) && Run(Lex(pre), st) == Parsed(a)
    requires f in {"--test", "--build", "--release"}
    ensures Run(Lex(pre + [f] + post), st) == Run(Lex(post), SetFlag(f, a))
  {
    RunAfterToken(pre, [f], post, st, a);
    RunFlag(f, post, a);
  }

  /** A token the classifier reads as `--` or as an option of its own. */
  predicate Recognised(t: string) {
    t in {Separator, "-h", "--help", "-V", "--version", "--test", "--build", "--release", ReleaseBinFlag, ProjectFlag}
    || StartsWith(t, ReleaseBinEqPrefix) || StartsWith(t, ProjectEqPrefix)
  }

  /** The front token is forwarded as it is exactly when it is not
      recognised. */
  lemma ForwardIffUnrecognised(tokens: seq<string>)
    requires tokens != [] && tokens[0] != Separator
    ensures Head(tokens).0.Forward? <==> !Recognised(tokens[0])
    ensures Head(tokens).0.Forward? ==> Head(tokens) == (Forward(tokens[0]), 1)
  {
  }

  lemma RunUnrecognised(t: string, post: seq<string>, a: CliArgs)
    requires !Recognised(t)
    ensures Run(Lex([t] + post), a) == Run(Lex(post), a.(projectArgs := a.projectArgs + [t]))
  {
    var rest := [t] + post;
    ForwardIffUnrecognised(rest);
    assert Head(rest) == (Forward(t), 1);
    assert rest[1..] == post;
    RunLexContinue(rest, a, a.(projectArgs := a.projectArgs + [t]));
  }

  /** Any token the classifier does not recognise is appended, verbatim, to
      the forwarded arguments and changes nothing else. The prefix must leave
      it unconsumed: a bare `--release-bin` before a token not starting with
      `--`, or a bare `--project`, would take it as a value. */
  lemma ForwardForm(pre: seq<string>, t: string, post: seq<string>, st: CliArgs, a: CliArgs)
    requires Boundary(pre, [t] + post) && Run(Lex(pre), st) == Parsed(a)
    requires !Recognised(t)
    ensures Run(Lex(pre + [t] + post), st) == Run(Lex(post), a.(projectArgs := a.projectArgs + [t]))
  {
    assert pre + [t] + post == pre + ([t] + post);
    RunAfter(pre, [t] + post, st, a);
    RunUnrecognised(t, post, a);
  }

  /** Unknown flags, single-dash clusters, extra dashes and the empty token
      are all forwarded. */
  lemma UnknownTokensForwarded()
    ensures !Recognised("--unknown-flag") && !Recognised("-vv") && !Recognised("-x")
    ensures !Recognised("---weird-flag") && !Recognised("")
  {
    DiffersAt("--unknown-flag", ReleaseBinEqPrefix, 2);
    DiffersAt("--unknown-flag", ProjectEqPrefix, 2);
    DiffersAt("---weird-flag", ReleaseBinEqPrefix, 2);
    DiffersAt("---weird-flag", ProjectEqPrefix, 2);
  }

  /** Text that differs from a prefix at some position does not start with it. */
  lemma DiffersAt(t: string, prefix: string, k: nat)
    requires k < |t| && k < |prefix| && t[k] != prefix[k]
    ensures !StartsWith(t, prefix)
  {
    if |prefix| <= |t| {
      assert t[..|prefix|][k] == t[k];
    }
  }

  /** Two such flags in a row set both. */
  lemma FlagPair(f: string, g: string, post: seq<string>, st: CliArgs)
    requires f in {"--test", "--build", "--release"} && g in {"--test", "--build", "--release"}
    ensures Run(Lex([f, g] + post), st) == Run(Lex(post), SetFlag(g, SetFlag(f, st)))
  {
    assert [f, g] + post == [f] + ([g] + post);
    RunFlag(f, [g] + post, st);
    RunFlag(g, post, SetFlag(f, st));
  }

  /** ... so their order does not matter. */
  lemma FlagsCommute(pre: seq<string>, f: string, g: string, post: seq<string>)
    requires Open(pre)
    requires f in {"--test", "--build", "--release"} && g in {"--test", "--build", "--release"}
    ensures ParseArgs(pre + [f, g] + post) == ParseArgs(pre + [g, f] + post)
  {
    assert pre + [f, g] + post == pre + ([f, g] + post);
    assert pre + [g, f] + post == pre + ([g, f] + post);
    OpenBeforeOption(pre, [f, g] + post);
    OpenBeforeOption(pre, [g, f] + post);
    if Run(Lex(pre), Default).Parsed? {
      var a := Run(Lex(pre), Default).args;
      RunAfter(pre, [f, g] + post, Default, a);
      RunAfter(pre, [g, f] + post, Default, a);
      FlagPair(f, g, post, a);
      FlagPair(g, f, post, a);
      assert SetFlag(g, SetFlag(f, a)) == SetFlag(f, SetFlag(g, a));
    } else {
      PrefixEnded(pre, [f, g] + post, Default);
      PrefixEnded(pre, [g, f] + post, Default);
    }
  }
}
