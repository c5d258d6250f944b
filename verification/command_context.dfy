/** A parsed command line: the command word, the positional arguments (empty tokens dropped,
    quoted runs merged), the boolean flags and the value flags with their values. */
module CommandContexts {
  import opened Wrappers
  import opened Strings

  datatype Context = Context(command: string, parsedArgs: seq<string>, booleanFlags: set<char>,
                             valueFlags: map<char, string>)

  datatype ContextError =
    | NoCommand                        // `args[0]` of an empty array
    | EmptyTokenInQuotes               // `charAt(-1)` on an empty token inside a quoted run
    | ValueFlagAlreadyGiven(flag: char)
    | NoValueForValueFlag(flag: char)
    | IndexOutOfBounds(index: int)

  predicate IsQuote(c: char) {
    c == '\'' || c == '"'
  }

  predicate IsAsciiLetter(c: char) {
    'a' <= c <= 'z' || 'A' <= c <= 'Z'
  }

  /** A token matching `^-[a-zA-Z]+$`. */
  predicate IsFlag(arg: string) {
    |arg| >= 2 && arg[0] == '-' && forall j :: 1 <= j < |arg| ==> IsAsciiLetter(arg[j])
  }

  /** The inner loop of a quoted run opened by `args[i]` with quote `q`, at token `e` with
      the text built so far: the merged text and the index of the closing token, `None` when
      no token closes the run. As written, an empty token inside the run is read at index
      -1 and fails; with `asWritten` false it is appended like any other. */
  function QuoteScan(args: seq<string>, i: nat, q: char, e: nat, build: string, asWritten: bool)
    : (r: Result<Option<(string, nat)>, ContextError>)
    requires i <= e
    ensures r.Success? && r.value.Some? ==> e <= r.value.value.1 < |args|
    decreases |args| - e
  {
    if e >= |args| then Success(None)
    else
      var a2 := args[e];
      if |a2| == 0 then
        if asWritten then Failure(EmptyTokenInQuotes)
        else QuoteScan(args, i, q, e + 1, build + " ", asWritten)
      else if a2[|a2| - 1] == q && |a2| > 1 then
        Success(Some((build + (if e != i then " " else "") + a2[(if e == i then 1 else 0)..|a2| - 1], e)))
      else if e == i then QuoteScan(args, i, q, e + 1, build + a2[1..], asWritten)
      else QuoteScan(args, i, q, e + 1, build + " " + a2, asWritten)
  }

  /** The first loop of the constructor, from token `i`: empty tokens are dropped, a closed
      quoted run becomes one argument (dropped when empty), an unclosed quote is kept as a
      plain token. */
  function MergeQuotes(args: seq<string>, i: nat, asWritten: bool): (r: Result<seq<string>, ContextError>)
    requires i <= |args|
    ensures r.Success? ==> forall k :: 0 <= k < |r.value| ==> |r.value[k]| > 0
    ensures r.Success? ==> |r.value| <= |args| - i
    decreases |args| - i
  {
    if i >= |args| then Success([])
    else
      var arg := args[i];
      if |arg| == 0 then MergeQuotes(args, i + 1, asWritten)
      else if IsQuote(arg[0]) then
        match QuoteScan(args, i, arg[0], i, "", asWritten)
        case Failure(err) => Failure(err)
        case Success(None) => Prepend(arg, MergeQuotes(args, i + 1, asWritten))
        case Success(Some((merged, endIndex))) =>
          if |merged| == 0 then MergeQuotes(args, endIndex + 1, asWritten)
          else Prepend(merged, MergeQuotes(args, endIndex + 1, asWritten))
      else Prepend(arg, MergeQuotes(args, i + 1, asWritten))
  }

  function Prepend(x: string, r: Result<seq<string>, ContextError>): Result<seq<string>, ContextError> {
    match r
    case Success(xs) => Success([x] + xs)
    case Failure(err) => Failure(err)
  }

  /** The characters of flag token `arg` from index `j`, with `next` the index of the next
      unread argument: a value flag takes that argument as its value. */
  function FlagChars(list: seq<string>, vf: set<char>, arg: string, j: nat, next: nat, ctx: Context)
    : (r: Result<(Context, nat), ContextError>)
    requires next <= |list| && j <= |arg|
    ensures r.Success? ==> next <= r.value.1 <= |list|
    ensures r.Success? ==> r.value.0.parsedArgs == ctx.parsedArgs && r.value.0.command == ctx.command
    ensures r.Success? ==> ctx.booleanFlags <= r.value.0.booleanFlags
    ensures r.Success? ==> ctx.valueFlags.Keys <= r.value.0.valueFlags.Keys
    ensures r.Success? ==> |r.value.0.valueFlags| - |ctx.valueFlags| == r.value.1 - next
    ensures r.Success? ==> forall c :: c in r.value.0.booleanFlags && c !in ctx.booleanFlags ==> c !in vf && c in arg[j..]
    decreases |arg| - j
  {
    if j >= |arg| then Success((ctx, next))
    else
      var c := arg[j];
      if c in vf then
        if c in ctx.valueFlags then Failure(ValueFlagAlreadyGiven(c))
        else if next >= |list| then Failure(NoValueForValueFlag(c))
        else FlagChars(list, vf, arg, j + 1, next + 1, ctx.(valueFlags := ctx.valueFlags[c := list[next]]))
      else FlagChars(list, vf, arg, j + 1, next, ctx.(booleanFlags := ctx.booleanFlags + {c}))
  }

  /** The second loop of the constructor, from argument `next`: a token that is not a flag
      is positional, a flag token sets its flags. As written, the `--` terminator is compared
      only after the flag pattern, which `--` does not match, so it is an ordinary
      positional argument; with `terminator` true, `--` makes every later token positional. */
  function ParseArgs(list: seq<string>, vf: set<char>, next: nat, ctx: Context, terminator: bool)
    : (r: Result<Context, ContextError>)
    requires next <= |list|
    ensures r.Success? ==> r.value.command == ctx.command
    ensures r.Success? ==> |r.value.parsedArgs| >= |ctx.parsedArgs| && r.value.parsedArgs[..|ctx.parsedArgs|] == ctx.parsedArgs
    ensures r.Success? && !terminator ==>
              forall k :: |ctx.parsedArgs| <= k < |r.value.parsedArgs| ==> !IsFlag(r.value.parsedArgs[k])
    ensures r.Success? ==> (|r.value.parsedArgs| - |ctx.parsedArgs|) + (|r.value.valueFlags| - |ctx.valueFlags|) <= |list| - next
    ensures r.Success? ==> forall c :: c in r.value.booleanFlags && c !in ctx.booleanFlags ==> c !in vf && IsAsciiLetter(c)
    decreases |list| - next
  {
    if next >= |list| then Success(ctx)
    else
      var arg := list[next];
      if terminator && arg == "--" then
        Success(ctx.(parsedArgs := ctx.parsedArgs + list[next + 1..]))
      else if !IsFlag(arg) then
        ParseArgs(list, vf, next + 1, ctx.(parsedArgs := ctx.parsedArgs + [arg]), terminator)
      else
        match FlagChars(list, vf, arg, 1, next + 1, ctx)
        case Failure(err) => Failure(err)
        case Success((ctx', next')) => ParseArgs(list, vf, next', ctx', terminator)
  }

  /** The constructor from an argument array (the command first) and the value-flag set. */
  function NewContext(args: seq<string>, vf: set<char>): (r: Result<Context, ContextError>)
    ensures |args| == 0 ==> r == Failure(NoCommand)
    ensures r.Success? ==> r.value.command == args[0]
    ensures r.Success? ==> forall k :: 0 <= k < |r.value.parsedArgs| ==>
              |r.value.parsedArgs[k]| > 0 && !IsFlag(r.value.parsedArgs[k])
    ensures r.Success? ==> |r.value.parsedArgs| + |r.value.valueFlags| < |args|
    ensures r.Success? ==> forall c :: c in r.value.booleanFlags ==> c !in vf && IsAsciiLetter(c)
  {
    if |args| == 0 then Failure(NoCommand)
    else
      match MergeQuotes(args, 1, true)
      case Failure(err) => Failure(err)
      case Success(list) =>
        var r := ParseArgs(list, vf, 0, Context(args[0], [], {}, map[]), false);
        assert r.Success? ==> forall k :: 0 <= k < |r.value.parsedArgs| ==> |r.value.parsedArgs[k]| > 0 by {
          if r.Success? { ParsedFromList(list, vf, 0, Context(args[0], [], {}, map[]), false); }
        }
        r
  }

  /** Every positional argument is one of the merged tokens. */
  lemma {:induction false} ParsedFromList(list: seq<string>, vf: set<char>, next: nat, ctx: Context, terminator: bool)
    requires next <= |list|
    requires ParseArgs(list, vf, next, ctx, terminator).Success?
    ensures var r := ParseArgs(list, vf, next, ctx, terminator).value;
            forall k :: |ctx.parsedArgs| <= k < |r.parsedArgs| ==> r.parsedArgs[k] in list
    decreases |list| - next
  {
    if next == |list| {
    } else if terminator && list[next] == "--" {
    } else if !IsFlag(list[next]) {
      var arg := list[next];
      ParsedFromList(list, vf, next + 1, ctx.(parsedArgs := ctx.parsedArgs + [arg]), terminator);
    } else {
      var (ctx', next') := FlagChars(list, vf, list[next], 1, next + 1, ctx).value;
      ParsedFromList(list, vf, next', ctx', terminator);
    }
  }

  /** The constructor with both corrections: empty tokens inside quotes are kept, and `--`
      ends flag parsing. */
  function NewContextFixed(args: seq<string>, vf: set<char>): (r: Result<Context, ContextError>)
    ensures |args| == 0 ==> r == Failure(NoCommand)
    ensures r.Success? ==> r.value.command == args[0]
  {
    if |args| == 0 then Failure(NoCommand)
    else
      match MergeQuotes(args, 1, false)
      case Failure(err) => Failure(err)
      case Success(list) => ParseArgs(list, vf, 0, Context(args[0], [], {}, map[]), true)
  }

  /** The constructor from a command line: the line split at single spaces. */
  function FromString(line: string, vf: set<char>): (r: Result<Context, ContextError>)
    ensures r.Success? ==> |JavaSplit(line, " ")| > 0 && r.value.command == JavaSplit(line, " ")[0]
  {
    NewContext(JavaSplit(line, " "), vf)
  }

  // ---------------------------------------------------------------------------
  // Properties of parsing
  // ---------------------------------------------------------------------------

  /** The non-empty tokens, in order. */
  function NonEmpty(xs: seq<string>): (r: seq<string>)
    ensures |r| <= |xs|
  {
    if |xs| == 0 then [] else (if xs[0] == "" then [] else [xs[0]]) + NonEmpty(xs[1..])
  }

  /** A token that neither opens a quote nor is a flag. */
  predicate Plain(arg: string) {
    (|arg| == 0 || !IsQuote(arg[0])) && !IsFlag(arg)
  }

  /** A plain non-empty token is kept as it is. */
  lemma MergeStep(args: seq<string>, i: nat, asWritten: bool, rest: seq<string>)
    requires i < |args| && |args[i]| > 0 && !IsQuote(args[i][0])
    requires MergeQuotes(args, i + 1, asWritten) == Success(rest)
    ensures MergeQuotes(args, i, asWritten) == Success([args[i]] + rest)
  {
  }

  lemma {:induction false} MergePlain(args: seq<string>, i: nat, asWritten: bool)
    requires i <= |args| && forall k :: i <= k < |args| ==> Plain(args[k])
    ensures MergeQuotes(args, i, asWritten) == Success(NonEmpty(args[i..]))
    decreases |args| - i
  {
    if i < |args| {
      assert args[i..][1..] == args[i + 1..];
      assert args[i..][0] == args[i];
      MergePlain(args, i + 1, asWritten);
      var rest := NonEmpty(args[i + 1..]);
      if args[i] == "" {
        assert MergeQuotes(args, i, asWritten) == MergeQuotes(args, i + 1, asWritten);
        assert NonEmpty(args[i..]) == [] + rest == rest;
      } else {
        assert !IsQuote(args[i][0]);
        assert NonEmpty(args[i..]) == [args[i]] + rest;
        assert MergeQuotes(args, i, asWritten) == Prepend(args[i], Success(rest));
      }
    }
  }

  lemma {:induction false} ParsePlain(list: seq<string>, vf: set<char>, next: nat, ctx: Context)
    requires next <= |list| && forall k :: next <= k < |list| ==> !IsFlag(list[k])
    ensures ParseArgs(list, vf, next, ctx, false) == Success(ctx.(parsedArgs := ctx.parsedArgs + list[next..]))
    decreases |list| - next
  {
    if next < |list| {
      var ctx' := ctx.(parsedArgs := ctx.parsedArgs + [list[next]]);
      ParsePlain(list, vf, next + 1, ctx');
      assert ctx.parsedArgs + list[next..] == ctx'.parsedArgs + list[next + 1..];
    } else {
      assert ctx.parsedArgs + list[next..] == ctx.parsedArgs;
    }
  }

  lemma {:induction false} NonEmptyPlain(xs: seq<string>)
    requires forall k :: 0 <= k < |xs| ==> Plain(xs[k])
    ensures forall k :: 0 <= k < |NonEmpty(xs)| ==> !IsFlag(NonEmpty(xs)[k])
  {
    if |xs| > 0 {
      NonEmptyPlain(xs[1..]);
      assert NonEmpty(xs) == (if xs[0] == "" then [] else [xs[0]]) + NonEmpty(xs[1..]);
    }
  }

  /** Without quotes and flags, the positional arguments are the non-empty tokens after the
      command, in order, and no flag is set. */
  lemma PlainArguments(args: seq<string>, vf: set<char>)
    requires |args| > 0 && forall k :: 1 <= k < |args| ==> Plain(args[k])
    ensures NewContext(args, vf) == Success(Context(args[0], NonEmpty(args[1..]), {}, map[]))
  {
    MergePlain(args, 1, true);
    NonEmptyPlain(args[1..]);
    ParsePlain(NonEmpty(args[1..]), vf, 0, Context(args[0], [], {}, map[]));
    assert [] + NonEmpty(args[1..])[0..] == NonEmpty(args[1..]);
  }

  /** A quoted run over two tokens becomes one argument with a single space. */
  lemma QuotedRun()
    ensures NewContext(["say", "\"a", "b\""], {}) == Success(Context("say", ["a b"], {}, map[]))
  {
    var args := ["say", "\"a", "b\""];
    assert args[1][1..] == "a" && args[1][1] != '"';
    assert QuoteScan(args, 1, '"', 1, "", true) == QuoteScan(args, 1, '"', 2, "" + "a", true);
    assert "" + "a" == "a";
    assert "a" + " " + args[2][0..1] == "a b";
    assert QuoteScan(args, 1, '"', 2, "a", true) == Success(Some(("a b", 2)));
    assert MergeQuotes(args, 3, true) == Success([]);
    assert args[1][0] == '"';
    assert MergeQuotes(args, 1, true) == Prepend("a b", Success([]));
    var ctx0 := Context("say", [], {}, map[]);
    assert !IsFlag("a b");
    assert ParseArgs(["a b"], {}, 0, ctx0, false) == ParseArgs(["a b"], {}, 1, ctx0.(parsedArgs := [] + ["a b"]), false);
  }

  /** A value flag takes the next argument; a second occurrence and a missing value fail. */
  lemma ValueFlagTaken()
    ensures NewContext(["c", "-v", "x"], {'v'}) == Success(Context("c", [], {}, map['v' := "x"]))
  {
    var args := ["c", "-v", "x"];
    var ctx0 := Context("c", [], {}, map[]);
    assert args[1][0] == '-' && args[2][0] == 'x';
    MergeStep(args, 2, true, []);
    assert [args[2]] + [] == ["x"];
    MergeStep(args, 1, true, ["x"]);
    var list := ["-v", "x"];
    assert IsFlag(list[0]) && list[0][1] == 'v';
    var ctx1 := ctx0.(valueFlags := map['v' := "x"]);
    assert FlagChars(list, {'v'}, "-v", 1, 1, ctx0) == FlagChars(list, {'v'}, "-v", 2, 2, ctx1);
  }

  lemma ValueFlagTwice()
    ensures NewContext(["c", "-v", "x", "-v", "y"], {'v'}) == Failure(ValueFlagAlreadyGiven('v'))
  {
    var args := ["c", "-v", "x", "-v", "y"];
    var ctx0 := Context("c", [], {}, map[]);
    assert args[1][0] == '-' && args[2][0] == 'x' && args[3][0] == '-' && args[4][0] == 'y';
    MergeStep(args, 4, true, []);
    assert [args[4]] + [] == ["y"];
    MergeStep(args, 3, true, ["y"]);
    assert [args[3]] + ["y"] == ["-v", "y"];
    MergeStep(args, 2, true, ["-v", "y"]);
    assert [args[2]] + ["-v", "y"] == ["x", "-v", "y"];
    MergeStep(args, 1, true, ["x", "-v", "y"]);
    assert [args[1]] + ["x", "-v", "y"] == ["-v", "x", "-v", "y"];
    var list := ["-v", "x", "-v", "y"];
    assert IsFlag(list[0]) && list[0][1] == 'v' && list[2] == list[0];
    var ctx1 := ctx0.(valueFlags := map['v' := "x"]);
    assert FlagChars(list, {'v'}, "-v", 1, 1, ctx0) == FlagChars(list, {'v'}, "-v", 2, 2, ctx1);
    assert ParseArgs(list, {'v'}, 0, ctx0, false) == ParseArgs(list, {'v'}, 2, ctx1, false);
    assert FlagChars(list, {'v'}, "-v", 1, 3, ctx1) == Failure(ValueFlagAlreadyGiven('v'));
  }

  lemma ValueFlagMissing()
    ensures NewContext(["c", "-v"], {'v'}) == Failure(NoValueForValueFlag('v'))
  {
    var args := ["c", "-v"];
    assert args[1][0] == '-';
    MergeStep(args, 1, true, []);
    assert IsFlag("-v") && "-v"[1] == 'v';
  }

  /** Each letter of a flag token is a boolean flag when it is not a value flag. */
  lemma BooleanFlags()
    ensures NewContext(["c", "-ab"], {}) == Success(Context("c", [], {'a', 'b'}, map[]))
  {
    var args := ["c", "-ab"];
    var ctx0 := Context("c", [], {}, map[]);
    assert args[1][0] == '-';
    MergeStep(args, 1, true, []);
    var arg := "-ab";
    assert IsFlag(arg) && arg[1] == 'a' && arg[2] == 'b';
    assert FlagChars(["-ab"], {}, arg, 1, 1, ctx0)
        == FlagChars(["-ab"], {}, arg, 3, 1, ctx0.(booleanFlags := {} + {'a'} + {'b'}));
    assert {} + {'a'} + {'b'} == {'a', 'b'};
  }

  /** As written, an empty token inside a quoted run fails the whole parse. */
  lemma EmptyTokenInQuotedRunFails()
    ensures NewContext(["c", "\"a", "", "b\""], {}) == Failure(EmptyTokenInQuotes)
  {
    var args := ["c", "\"a", "", "b\""];
    assert args[1][1..] == "a" && args[1][1] != '"' && args[1][0] == '"';
    assert QuoteScan(args, 1, '"', 1, "", true) == QuoteScan(args, 1, '"', 2, "" + "a", true);
    assert |args[2]| == 0;
  }

  /** Corrected: the empty token contributes its separating space. */
  lemma EmptyTokenInQuotedRunFixed()
    ensures NewContextFixed(["c", "\"a", "", "b\""], {}) == Success(Context("c", ["a  b"], {}, map[]))
  {
    var args := ["c", "\"a", "", "b\""];
    assert args[1][1..] == "a" && args[1][1] != '"' && args[1][0] == '"';
    assert QuoteScan(args, 1, '"', 1, "", false) == QuoteScan(args, 1, '"', 2, "" + "a", false);
    assert "" + "a" == "a";
    assert |args[2]| == 0;
    assert QuoteScan(args, 1, '"', 2, "a", false) == QuoteScan(args, 1, '"', 3, "a" + " ", false);
    assert "a " + " " + args[3][0..1] == "a  b";
    assert "a" + " " == "a ";
    assert QuoteScan(args, 1, '"', 3, "a ", false) == Success(Some(("a  b", 3)));
    assert MergeQuotes(args, 4, false) == Success([]);
    assert MergeQuotes(args, 1, false) == Prepend("a  b", Success([]));
    assert ["a  b"] + [] == ["a  b"];
    var ctx0 := Context("c", [], {}, map[]);
    assert !IsFlag("a  b") && "a  b" != "--";
    assert ParseArgs(["a  b"], {}, 0, ctx0, true) == ParseArgs(["a  b"], {}, 1, ctx0.(parsedArgs := [] + ["a  b"]), true);
  }

  /** As written, `--` is kept as an argument and a flag after it is still parsed. */
  lemma TerminatorIgnored()
    ensures NewContext(["c", "--", "-f"], {}) == Success(Context("c", ["--"], {'f'}, map[]))
  {
    var args := ["c", "--", "-f"];
    assert args[1][0] == '-' && args[2][0] == '-';
    MergeStep(args, 2, true, []);
    assert [args[2]] + [] == ["-f"];
    MergeStep(args, 1, true, ["-f"]);
    assert [args[1]] + ["-f"] == ["--", "-f"];
    var list := ["--", "-f"];
    assert !IsAsciiLetter(list[0][1]);
    assert !IsFlag(list[0]) && IsFlag(list[1]) && list[1][1] == 'f';
    var ctx0 := Context("c", [], {}, map[]);
    var ctx1 := ctx0.(parsedArgs := [] + ["--"]);
    assert ParseArgs(list, {}, 0, ctx0, false) == ParseArgs(list, {}, 1, ctx1, false);
    assert FlagChars(list, {}, "-f", 1, 2, ctx1) == FlagChars(list, {}, "-f", 2, 2, ctx1.(booleanFlags := {} + {'f'}));
  }

  /** Corrected: `--` ends flag parsing and every later token is positional. */
  lemma TerminatorHonoured(list: seq<string>, vf: set<char>, args: seq<string>)
    requires |args| > 0 && MergeQuotes(args, 1, false) == Success(["--"] + list)
    ensures NewContextFixed(args, vf) == Success(Context(args[0], list, {}, map[]))
  {
    assert (["--"] + list)[1..] == list;
  }

  // ---------------------------------------------------------------------------
  // Accessors
  // ---------------------------------------------------------------------------

  /** `getString(index)`: the positional argument, or an index failure. */
  function GetString(ctx: Context, index: int): (r: Result<string, ContextError>)
    ensures r.Success? <==> 0 <= index < |ctx.parsedArgs|
    ensures r.Success? ==> r.value == ctx.parsedArgs[index]
  {
    if 0 <= index < |ctx.parsedArgs| then Success(ctx.parsedArgs[index]) else Failure(IndexOutOfBounds(index))
  }

  /** `getString(index, def)`: the default past the end; a negative index still fails. */
  function GetStringOr(ctx: Context, index: int, def: string): (r: Result<string, ContextError>)
    ensures index >= |ctx.parsedArgs| ==> r == Success(def)
    ensures index < |ctx.parsedArgs| ==> r == GetString(ctx, index)
  {
    if index < |ctx.parsedArgs| then GetString(ctx, index) else Success(def)
  }

  /** `getInteger(index, def)`: the default past the end, otherwise the argument read as an
      int (`None` for a number format failure). */
  function GetIntegerOr(ctx: Context, index: int, def: int): (r: Result<Option<int>, ContextError>)
    ensures index >= |ctx.parsedArgs| ==> r == Success(Some(def))
    ensures 0 <= index < |ctx.parsedArgs| ==> r == Success(ParseInt(ctx.parsedArgs[index]))
  {
    if index < |ctx.parsedArgs| then
      match GetString(ctx, index)
      case Success(s) => Success(ParseInt(s))
      case Failure(err) => Failure(err)
    else Success(Some(def))
  }

  /** `matches`: the command compared ignoring case. */
  function Matches(ctx: Context, command: string): bool {
    ToLower(ctx.command) == ToLower(command)
  }

  /** `hasFlag`: set as a boolean flag or given a value. */
  function HasFlag(ctx: Context, flag: char): bool {
    flag in ctx.booleanFlags || flag in ctx.valueFlags
  }

  /** `getFlag(flag, def)`: the flag's value, or the default when it was not given. */
  function GetFlagOr(ctx: Context, flag: char, def: string): (r: string)
    ensures flag in ctx.valueFlags ==> r == ctx.valueFlags[flag]
    ensures flag !in ctx.valueFlags ==> r == def
  {
    if flag in ctx.valueFlags then ctx.valueFlags[flag] else def
  }

  /** `argsLength`: the number of positional arguments. */
  function ArgsLength(ctx: Context): nat {
    |ctx.parsedArgs|
  }

  /** The accessors agree with one another: an index is readable exactly below the argument
      count; a flag given a value is set and yields that value; a flag that is not set yields
      the default; and the command matches itself written in lower case. */
  lemma AccessorsAgree(ctx: Context, flag: char, def: string, index: int)
    ensures GetString(ctx, index).Success? <==> 0 <= index < ArgsLength(ctx)
    ensures flag in ctx.valueFlags ==> HasFlag(ctx, flag) && GetFlagOr(ctx, flag, def) == ctx.valueFlags[flag]
    ensures !HasFlag(ctx, flag) ==> GetFlagOr(ctx, flag, def) == def
    ensures Matches(ctx, ctx.command) && Matches(ctx, ToLower(ctx.command))
  {
    LowerIdempotent(ctx.command);
  }
}
