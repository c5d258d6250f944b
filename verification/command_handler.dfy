/** The command handler's text logic: reading a command's flag specification, checking a
    parsed command line against the annotation's bounds and flags, refusing aliases that are
    taken, registering the directory commands above multi-word aliases, and completing the
    sub-commands of a directory. */
module CommandHandlers {
  import opened Wrappers
  import opened Strings
  import opened CommandInfos
  import opened CommandContexts
  import StringOrder
  import CommandTrees

  // ---------------------------------------------------------------------------
  // Flag specification and argument checks
  // ---------------------------------------------------------------------------

  /** The loop of `locateAndRunCommand` over the specification from index `i`, with the
      allowed and the value flags gathered so far. The character added to the allowed set
      is the one the index rests on after the `:` test, so a value flag adds its `:`. */
  function FlagSets(spec: string, i: nat, allowed: set<char>, value: set<char>): (set<char>, set<char>)
    decreases |spec| - i
  {
    if i >= |spec| then (allowed, value)
    else if |spec| > i + 1 && spec[i + 1] == ':' then
      FlagSets(spec, i + 2, allowed + {spec[i + 1]}, value + {spec[i]})
    else FlagSets(spec, i + 1, allowed + {spec[i]}, value)
  }

  /** The allowed set the loop builds for declarations `ds`. */
  function AllowedOf(ds: seq<FlagDecl>): set<char> {
    PlainFlags(ds) + (if ValueFlags(ds) == {} then {} else {':'})
  }

  lemma {:induction false} FlagSetsDecls(spec: string, i: nat, allowed: set<char>, value: set<char>)
    requires i <= |spec|
    ensures FlagSets(spec, i, allowed, value)
            == (allowed + AllowedOf(Decls(spec[i..])), value + ValueFlags(Decls(spec[i..])))
    decreases |spec| - i
  {
    if i == |spec| {
      assert spec[i..] == [];
      assert Decls(spec[i..]) == [];
      assert ValueFlags([]) == {} && PlainFlags([]) == {};
      assert AllowedOf([]) == {};
      assert allowed + AllowedOf(Decls(spec[i..])) == allowed;
      assert value + ValueFlags(Decls(spec[i..])) == value;
    } else {
      var s := spec[i..];
      if |spec| > i + 1 && spec[i + 1] == ':' {
        assert s[1] == ':' && s[2..] == spec[i + 2..];
        assert {spec[i + 1]} == {':'};
        assert FlagSets(spec, i, allowed, value) == FlagSets(spec, i + 2, allowed + {':'}, value + {spec[i]});
        FlagSetsDecls(spec, i + 2, allowed + {':'}, value + {spec[i]});
        FlagsCons(FlagDecl(spec[i], true), Decls(spec[i + 2..]));
        assert Decls(s) == [FlagDecl(spec[i], true)] + Decls(spec[i + 2..]);
        assert spec[i] in ValueFlags(Decls(s));
        assert AllowedOf(Decls(s)) == {':'} + AllowedOf(Decls(spec[i + 2..]));
        assert ValueFlags(Decls(s)) == {spec[i]} + ValueFlags(Decls(spec[i + 2..]));
        assert allowed + {':'} + AllowedOf(Decls(spec[i + 2..])) == allowed + AllowedOf(Decls(s));
        assert value + {spec[i]} + ValueFlags(Decls(spec[i + 2..])) == value + ValueFlags(Decls(s));
      } else {
        assert s[1..] == spec[i + 1..];
        FlagSetsDecls(spec, i + 1, allowed + {spec[i]}, value);
        FlagsCons(FlagDecl(spec[i], false), Decls(spec[i + 1..]));
        assert Decls(s) == [FlagDecl(spec[i], false)] + Decls(spec[i + 1..]);
        assert AllowedOf(Decls(s)) == {spec[i]} + AllowedOf(Decls(spec[i + 1..]));
        assert allowed + {spec[i]} + AllowedOf(Decls(spec[i + 1..])) == allowed + AllowedOf(Decls(s));
        assert ValueFlags(Decls(s)) == ValueFlags(Decls(spec[i + 1..]));
      }
    }
  }

  /** The allowed flags and the value flags of a specification. */
  function ParseFlagSpec(spec: string): (r: (set<char>, set<char>))
    ensures r.0 == AllowedOf(Decls(spec)) && r.1 == ValueFlags(Decls(spec))
  {
    FlagSetsDecls(spec, 0, {}, {});
    assert spec[0..] == spec;
    FlagSets(spec, 0, {}, {})
  }

  /** For a specification written as declared, a flag followed by `:` is a value flag and
      every other declared flag is allowed; the `:` itself is allowed in place of the value
      flags' letters. */
  lemma DeclaredSpec(ds: seq<FlagDecl>)
    requires WellFormed(ds)
    ensures ParseFlagSpec(Encode(ds)).1 == ValueFlags(ds)
    ensures ParseFlagSpec(Encode(ds)).0 == PlainFlags(ds) + (if ValueFlags(ds) == {} then {} else {':'})
  {
    DeclsEncode(ds);
  }

  datatype CheckError =
    | BadArguments(err: ContextError)   // the context constructor failed
    | TooFewArguments
    | TooManyArguments
    | UnknownFlags(flags: set<char>)    // the boolean flags outside the allowed set

  /** The three usage checks, in the source's order. */
  function CheckArgs(ctx: Context, info: CommandInfo, allowed: set<char>): (r: Option<CheckError>)
    ensures r.None? <==> info.min <= |ctx.parsedArgs| && (info.max == -1 || |ctx.parsedArgs| <= info.max)
                         && (info.anyFlags || ctx.booleanFlags <= allowed)
    ensures r == Some(TooFewArguments) <==> |ctx.parsedArgs| < info.min
    ensures r == Some(TooManyArguments) <==> info.min <= |ctx.parsedArgs| && info.max != -1 && |ctx.parsedArgs| > info.max
    ensures r.Some? && r.value.UnknownFlags? ==> !info.anyFlags && r.value.flags == ctx.booleanFlags - allowed != {}
  {
    if |ctx.parsedArgs| < info.min then Some(TooFewArguments)
    else if info.max != -1 && |ctx.parsedArgs| > info.max then Some(TooManyArguments)
    else if !info.anyFlags && !(ctx.booleanFlags <= allowed) then
      assert ctx.booleanFlags - allowed != {} by {
        var c :| c in ctx.booleanFlags && c !in allowed;
        assert c in ctx.booleanFlags - allowed;
      }
      Some(UnknownFlags(ctx.booleanFlags - allowed))
    else None
  }

  /** What `locateAndRunCommand` does before running a located command: the specification
      is read, the context is built with its value flags, and the usage checks run. */
  function CheckCommandLine(args: seq<string>, info: CommandInfo): (r: Result<Context, CheckError>)
    ensures r.Success? ==> NewContext(args, ParseFlagSpec(info.flags).1) == Success(r.value)
    ensures r.Success? ==> info.min <= |r.value.parsedArgs| && (info.max == -1 || |r.value.parsedArgs| <= info.max)
    ensures r.Success? && !info.anyFlags ==> forall c :: c in r.value.booleanFlags ==> c in ParseFlagSpec(info.flags).0
    ensures r.Failure? && r.error.UnknownFlags? ==>
              forall c :: c in r.error.flags ==> IsAsciiLetter(c) && c !in ParseFlagSpec(info.flags).1
  {
    var (allowed, vf) := ParseFlagSpec(info.flags);
    match NewContext(args, vf)
    case Failure(err) => Failure(BadArguments(err))
    case Success(ctx) =>
      match CheckArgs(ctx, info, allowed)
      case Some(err) => Failure(err)
      case None => Success(ctx)
  }

  /** A command line whose boolean flags are all declared, and whose argument count is within
      the bounds, passes the checks. */
  lemma DeclaredFlagsPass(args: seq<string>, info: CommandInfo, ds: seq<FlagDecl>)
    requires WellFormed(ds) && info.flags == Encode(ds)
    requires NewContext(args, ValueFlags(ds)).Success?
    requires var ctx := NewContext(args, ValueFlags(ds)).value;
             ctx.booleanFlags <= PlainFlags(ds)
             && info.min <= |ctx.parsedArgs| && (info.max == -1 || |ctx.parsedArgs| <= info.max)
    ensures CheckCommandLine(args, info) == Success(NewContext(args, ValueFlags(ds)).value)
  {
    DeclaredSpec(ds);
  }

  // ---------------------------------------------------------------------------
  // Registration
  // ---------------------------------------------------------------------------

  /** What an alias is registered to. */
  datatype Registered = DirectoryCommand | CommandClass(name: string)

  /** `registeredCommandClasses`. */
  type Registry = map<string, Registered>

  datatype RegistrationError =
    | AlreadyRegistered(alias: string, owner: Registered)
    | NoKeys(alias: string)   // `configureCommandKeys` on an alias of spaces only throws

  /** `assertNotAlreadyRegistered`: the first alias that is taken, with what took it. */
  function AssertNotAlreadyRegistered(reg: Registry, aliases: seq<string>): (r: Option<RegistrationError>)
    ensures r.None? <==> forall i :: 0 <= i < |aliases| ==> aliases[i] !in reg
    ensures r.Some? ==> r.value.AlreadyRegistered?
    ensures r.Some? ==> exists i :: 0 <= i < |aliases| && aliases[i] == r.value.alias
                          && aliases[i] in reg && reg[aliases[i]] == r.value.owner
                          && forall j :: 0 <= j < i ==> aliases[j] !in reg
  {
    if |aliases| == 0 then None
    else if aliases[0] in reg then Some(AlreadyRegistered(aliases[0], reg[aliases[0]]))
    else
      var r := AssertNotAlreadyRegistered(reg, aliases[1..]);
      assert r.Some? ==> exists i :: 0 < i < |aliases| && aliases[i] == r.value.alias
                          && aliases[i] in reg && reg[aliases[i]] == r.value.owner
                          && forall j :: 0 <= j < i ==> aliases[j] !in reg by {
        if r.Some? {
          var i :| 0 <= i < |aliases[1..]| && aliases[1..][i] == r.value.alias
                   && aliases[1..][i] in reg && reg[aliases[1..][i]] == r.value.owner
                   && forall j :: 0 <= j < i ==> aliases[1..][j] !in reg;
          assert forall j :: 1 <= j < i + 1 ==> aliases[j] == aliases[1..][j - 1];
        }
      }
      r
  }

  /** The directory aliases above `alias`: the first `k` space-separated tokens, joined, for
      every `k` short of the whole. */
  function DirectoryAliases(alias: string): (r: seq<string>)
    ensures var toks := JavaSplit(alias, " ");
            |r| == (if |toks| > 1 then |toks| - 1 else 0)
            && forall k :: 0 <= k < |r| ==> r[k] == Join(toks[..k + 1], " ")
  {
    var toks := JavaSplit(alias, " ");
    if |toks| > 1 then seq(|toks| - 1, k requires 0 <= k < |toks| - 1 => Join(toks[..k + 1], " "))
    else []
  }

  /** Every directory alias is a proper prefix of the alias that ends just before a space. */
  lemma DirectoryAliasPrefix(alias: string, k: nat)
    requires k < |DirectoryAliases(alias)|
    ensures var p := DirectoryAliases(alias)[k];
            |p| < |alias| && alias[..|p|] == p && alias[|p|] == ' '
  {
    var pieces := SplitOn(alias, " ");
    var toks := JavaSplit(alias, " ");
    assert Contains(alias, " ");
    assert toks == pieces[..|toks|];
    assert toks[..k + 1] == pieces[..k + 1];
    JoinSplitOn(alias, " ");
    JoinSplitAt(pieces, k + 1, " ");
    var p := Join(pieces[..k + 1], " ");
    assert alias == p + " " + Join(pieces[k + 1..], " ");
    assert alias[|p|] == ' ';
  }

  /** Directory aliases registered first-wins, with the ones that were new, in order. */
  function RegisterDirectories(reg: Registry, dirs: seq<string>): (r: (Registry, seq<string>))
    ensures forall a :: a in r.0 <==> a in reg || a in dirs
    ensures forall a :: a in reg ==> r.0[a] == reg[a]
    ensures forall a :: a in r.0 && a !in reg ==> r.0[a] == DirectoryCommand
    ensures forall a :: a in r.1 <==> a in r.0 && a !in reg
    ensures forall i, j :: 0 <= i < j < |r.1| ==> r.1[i] != r.1[j]
    decreases |dirs|
  {
    if |dirs| == 0 then (reg, [])
    else
      var d := dirs[0];
      var reg' := if d in reg then reg else reg[d := DirectoryCommand];
      var (regN, added) := RegisterDirectories(reg', dirs[1..]);
      assert forall a :: a in dirs <==> a == d || a in dirs[1..] by {
        assert dirs == [d] + dirs[1..];
      }
      (regN, if d in reg then added else [d] + added)
  }

  /** An alias is among the directory aliases of some alias of the list. */
  predicate UnderSome(a: string, aliases: seq<string>) {
    exists i :: 0 <= i < |aliases| && a in DirectoryAliases(aliases[i])
  }

  lemma UnderSomeCons(a: string, aliases: seq<string>)
    requires |aliases| > 0
    ensures UnderSome(a, aliases) <==> a in DirectoryAliases(aliases[0]) || UnderSome(a, aliases[1..])
  {
    if UnderSome(a, aliases) && a !in DirectoryAliases(aliases[0]) {
      var i :| 0 <= i < |aliases| && a in DirectoryAliases(aliases[i]);
      assert aliases[1..][i - 1] == aliases[i];
    }
    if UnderSome(a, aliases[1..]) {
      var i :| 0 <= i < |aliases[1..]| && a in DirectoryAliases(aliases[1..][i]);
      assert aliases[i + 1] == aliases[1..][i];
    }
  }

  /** `registerRootCommands`: the directory aliases of every alias, in order, first-wins;
      with the directory aliases that were new, whose keys `BindAliases` then configures. */
  function RegisterRootCommands(reg: Registry, aliases: seq<string>): (r: (Registry, seq<string>))
    ensures forall a :: a in r.0 <==> a in reg || UnderSome(a, aliases)
    ensures forall a :: a in reg ==> r.0[a] == reg[a]
    ensures forall a :: a in r.0 && a !in reg ==> r.0[a] == DirectoryCommand
    ensures forall a :: a in r.1 <==> a in r.0 && a !in reg
    decreases |aliases|
  {
    if |aliases| == 0 then (reg, [])
    else
      var (reg1, added1) := RegisterDirectories(reg, DirectoryAliases(aliases[0]));
      var (regN, added) := RegisterRootCommands(reg1, aliases[1..]);
      assert forall a :: UnderSome(a, aliases) <==> a in DirectoryAliases(aliases[0]) || UnderSome(a, aliases[1..]) by {
        forall a ensures UnderSome(a, aliases) <==> a in DirectoryAliases(aliases[0]) || UnderSome(a, aliases[1..]) {
          UnderSomeCons(a, aliases);
        }
      }
      (regN, added1 + added)
  }

  /** The token path of an alias in the command tree: the alias split at single spaces. */
  function KeyPath(alias: string): seq<string> {
    JavaSplit(alias, " ")
  }

  /** An alias that splits into no tokens, being made of spaces only. */
  predicate Keyless(alias: string) {
    KeyPath(alias) == []
  }

  /** `configureCommandKeys` for each alias in turn; the first alias without tokens stops it. */
  function ConfigureKeys(t: CommandTrees.CommandTree, aliases: seq<string>)
    : (r: Result<CommandTrees.CommandTree, RegistrationError>)
    ensures r.Success? <==> forall i :: 0 <= i < |aliases| ==> !Keyless(aliases[i])
    ensures r.Failure? ==> r.error.NoKeys? && r.error.alias in aliases && Keyless(r.error.alias)
    ensures r.Success? ==> r.value.keys == t.keys + set a | a in aliases :: KeyPath(a)
    ensures r.Success? ==> t.trees <= r.value.trees
    decreases |aliases|
  {
    if |aliases| == 0 then Success(t)
    else match CommandTrees.RegisterKeysForAlias(t, aliases[0])
      case Failure(_) => Failure(NoKeys(aliases[0]))
      case Success(t1) =>
        var r := ConfigureKeys(t1, aliases[1..]);
        ConfigureKeysStep(aliases);
        r
  }

  /** The aliases of a list are its head and the aliases of its tail. */
  lemma ConfigureKeysStep(aliases: seq<string>)
    requires |aliases| > 0
    ensures forall a :: a in aliases <==> a == aliases[0] || a in aliases[1..]
    ensures (forall i :: 0 <= i < |aliases| ==> !Keyless(aliases[i]))
            <==> !Keyless(aliases[0]) && forall i :: 0 <= i < |aliases[1..]| ==> !Keyless(aliases[1..][i])
    ensures (set a | a in aliases :: KeyPath(a))
            == {KeyPath(aliases[0])} + set a | a in aliases[1..] :: KeyPath(a)
  {
    assert aliases == [aliases[0]] + aliases[1..];
    if forall i :: 0 <= i < |aliases[1..]| ==> !Keyless(aliases[1..][i]) {
      forall i | 1 <= i < |aliases| ensures !Keyless(aliases[i]) {
        assert aliases[i] == aliases[1..][i - 1];
      }
    }
  }

  /** `registerCommand` of a command class under its aliases: refused when an alias is taken;
      otherwise, when the server accepts the registration, the aliases are bound as
      `BindAliases` does. */
  function RegisterCommand(reg: Registry, tree: CommandTrees.CommandTree, cls: string,
                           aliases: seq<string>, accepted: bool)
    : (r: Result<(Registry, CommandTrees.CommandTree), RegistrationError>)
    ensures r.Failure? <==>
              (exists i :: 0 <= i < |aliases| && aliases[i] in reg)
              || (accepted && exists a :: (a in aliases || UnderSome(a, aliases)) && a !in reg && Keyless(a))
    ensures (exists i :: 0 <= i < |aliases| && aliases[i] in reg) ==> r.Failure? && r.error.AlreadyRegistered?
    ensures r.Success? && !accepted ==> r.value == (reg, tree)
    ensures r.Success? && accepted ==>
              forall i :: 0 <= i < |aliases| ==> aliases[i] in r.value.0 && r.value.0[aliases[i]] == CommandClass(cls)
    ensures r.Success? ==> forall a :: a in reg ==> a in r.value.0 && r.value.0[a] == reg[a]
    ensures r.Success? ==> r.value.1.keys == tree.keys + set a | a in r.value.0 && a !in reg :: KeyPath(a)
    ensures r.Success? ==> tree.trees <= r.value.1.trees
  {
    match AssertNotAlreadyRegistered(reg, aliases)
    case Some(err) => Failure(err)
    case None =>
      if !accepted then
        assert (set a | a in reg && a !in reg :: KeyPath(a)) == {};
        Success((reg, tree))
      else BindAliases(reg, tree, cls, aliases)
  }

  /** The accepted registration of aliases none of which is taken: the directory aliases are
      added, the keys of each new directory and then of each alias are configured in the
      command tree, and every alias is bound to the class. An alias, or a new directory above
      one, made of spaces only makes the key configuration throw. */
  function BindAliases(reg: Registry, tree: CommandTrees.CommandTree, cls: string, aliases: seq<string>)
    : (r: Result<(Registry, CommandTrees.CommandTree), RegistrationError>)
    requires forall i :: 0 <= i < |aliases| ==> aliases[i] !in reg
    ensures r.Failure? <==> exists a :: (a in aliases || UnderSome(a, aliases)) && a !in reg && Keyless(a)
    ensures r.Failure? ==> r.error.NoKeys?
    ensures r.Success? ==>
              forall i :: 0 <= i < |aliases| ==> aliases[i] in r.value.0 && r.value.0[aliases[i]] == CommandClass(cls)
    ensures r.Success? ==> forall a :: a in reg ==> a in r.value.0 && r.value.0[a] == reg[a]
    ensures r.Success? ==> r.value.1.keys == tree.keys + set a | a in r.value.0 && a !in reg :: KeyPath(a)
    ensures r.Success? ==> tree.trees <= r.value.1.trees
  {
    var (reg1, dirs) := RegisterRootCommands(reg, aliases);
    match ConfigureKeys(tree, dirs)
    case Failure(e) => Failure(e)
    case Success(tree1) =>
      match ConfigureKeys(tree1, aliases)
      case Failure(e) => Failure(e)
      case Success(tree2) =>
        var reg2 := BindAll(reg1, aliases, CommandClass(cls));
        NewEntries(reg, reg1, dirs, reg2, aliases);
        Success((reg2, tree2))
  }

  /** The entries a registration adds are its new directories and its aliases. */
  lemma NewEntries(reg: Registry, reg1: Registry, dirs: seq<string>, reg2: Registry, aliases: seq<string>)
    requires forall a :: a in dirs <==> a in reg1 && a !in reg
    requires forall a :: a in reg ==> a in reg1
    requires forall a :: a in reg2 <==> a in reg1 || a in aliases
    requires forall i :: 0 <= i < |aliases| ==> aliases[i] !in reg
    ensures (set a | a in reg2 && a !in reg :: KeyPath(a))
            == (set a | a in dirs :: KeyPath(a)) + set a | a in aliases :: KeyPath(a)
  {
  }

  /** Every alias bound to `v`, overwriting. */
  function BindAll(reg: Registry, aliases: seq<string>, v: Registered): (r: Registry)
    ensures forall a :: a in r <==> a in reg || a in aliases
    ensures forall i :: 0 <= i < |aliases| ==> r[aliases[i]] == v
    ensures forall a :: a in reg && a !in aliases ==> r[a] == reg[a]
    decreases |aliases|
  {
    if |aliases| == 0 then reg
    else
      var r := BindAll(reg[aliases[0] := v], aliases[1..], v);
      assert forall i :: 1 <= i < |aliases| ==> aliases[i] == aliases[1..][i - 1];
      r
  }

  /** Two words joined by a space have the first word as their only directory alias. */
  lemma TwoWordsDirectory(w1: string, w2: string)
    requires ' ' !in w1 && ' ' !in w2 && |w2| > 0
    ensures DirectoryAliases(w1 + " " + w2) == [w1]
    ensures KeyPath(w1 + " " + w2) == [w1, w2]
  {
    var alias := w1 + " " + w2;
    var toks := JavaSplit(alias, " ");
    assert toks == [w1, w2] by {
      SplitOnFirst(w1, " ", w2);
      NotContainsWithoutFirst(w2, " ");
      SplitOnAbsent(w2, " ");
      assert alias[|w1|..|w1| + 1] == " ";
      ContainsAt(alias, " ", |w1|);
      assert SplitOn(alias, " ") == [w1, w2];
    }
    var r := DirectoryAliases(alias);
    assert toks[..1] == [w1];
    assert |r| == 1 && r[0] == Join([w1], " ");
  }

  /** The directory alias of `mob kill` is `mob`. */
  lemma TwoWordDirectory()
    ensures DirectoryAliases("mob kill") == ["mob"]
  {
    TwoWordsDirectory("mob", "kill");
    assert "mob" + " " + "kill" == "mob kill";
  }

  /** A word without spaces is its own token path. */
  lemma OneWordPath(w: string)
    requires ' ' !in w
    ensures KeyPath(w) == [w]
  {
    NotContainsWithoutFirst(w, " ");
  }

  /** Registering a command under one two-word alias makes its first word a directory, and
      both paths command keys of the tree. */
  lemma TwoWordAlias(w1: string, w2: string, cls: string)
    requires ' ' !in w1 && ' ' !in w2 && |w2| > 0
    ensures var r := RegisterCommand(map[], CommandTrees.EMPTY, cls, [w1 + " " + w2], true);
            r.Success? && r.value.0 == map[w1 := DirectoryCommand, w1 + " " + w2 := CommandClass(cls)]
            && r.value.1.keys == {[w1], [w1, w2]}
  {
    TwoWordsDirectory(w1, w2);
    OneWordPath(w1);
    RegisterIsBind(map[], CommandTrees.EMPTY, cls, [w1 + " " + w2]);
    TwoWordBound(w1, w2, w1 + " " + w2, cls);
  }

  /** An accepted registration of free aliases is `BindAliases`. */
  lemma RegisterIsBind(reg: Registry, tree: CommandTrees.CommandTree, cls: string, aliases: seq<string>)
    requires forall i :: 0 <= i < |aliases| ==> aliases[i] !in reg
    ensures RegisterCommand(reg, tree, cls, aliases, true) == BindAliases(reg, tree, cls, aliases)
  {
  }

  /** The example above, for the accepted registration of an alias with one directory. */
  lemma TwoWordBound(w1: string, w2: string, alias: string, cls: string)
    requires DirectoryAliases(alias) == [w1] && KeyPath(alias) == [w1, w2] && KeyPath(w1) == [w1]
    ensures var r := BindAliases(map[], CommandTrees.EMPTY, cls, [alias]);
            r.Success? && r.value.0 == map[w1 := DirectoryCommand, alias := CommandClass(cls)]
            && r.value.1.keys == {[w1], [w1, w2]}
  {
    var reg := map[w1 := DirectoryCommand, alias := CommandClass(cls)];
    var r := BindAliases(map[], CommandTrees.EMPTY, cls, [alias]);
    TwoWordPaths(w1, w2, alias, cls);
    TwoWordRegistry(w1, alias, cls);
    PathsOfTwo(reg, w1, alias);
  }

  /** The registry part of the example above. */
  lemma TwoWordRegistry(w1: string, alias: string, cls: string)
    requires DirectoryAliases(alias) == [w1]
    ensures var r := BindAliases(map[], CommandTrees.EMPTY, cls, [alias]);
            r.Success? ==> r.value.0 == map[w1 := DirectoryCommand, alias := CommandClass(cls)]
  {
    var root := RegisterRootCommands(map[], [alias]);
    assert root.0 == map[w1 := DirectoryCommand] by {
      assert RegisterDirectories(map[], [w1]).0 == map[w1 := DirectoryCommand];
    }
    assert BindAll(root.0, [alias], CommandClass(cls)) == map[w1 := DirectoryCommand, alias := CommandClass(cls)];
  }

  /** The example above succeeds: neither its alias nor its directory is made of spaces. */
  lemma TwoWordPaths(w1: string, w2: string, alias: string, cls: string)
    requires DirectoryAliases(alias) == [w1] && KeyPath(alias) == [w1, w2] && KeyPath(w1) == [w1]
    ensures BindAliases(map[], CommandTrees.EMPTY, cls, [alias]).Success?
  {
    forall a | a in [alias] || UnderSome(a, [alias]) ensures !Keyless(a) {
      if UnderSome(a, [alias]) {
        assert a in DirectoryAliases([alias][0]);
      }
    }
  }

  /** The paths of a registry with two entries, all new. */
  lemma PathsOfTwo(reg: Registry, x: string, y: string)
    requires reg.Keys == {x, y}
    ensures var none: Registry := map[];
            (set a | a in reg && a !in none :: KeyPath(a)) == {KeyPath(x), KeyPath(y)}
  {
  }

  /** An alias of spaces only is refused when its keys are configured. */
  lemma SpacesAliasRefused()
    ensures RegisterCommand(map[], CommandTrees.EMPTY, "Kill", ["  "], true) == Failure(NoKeys("  "))
  {
    assert Contains("  ", " ") by {
      assert "  "[0..1] == " ";
      ContainsAt("  ", " ", 0);
    }
    assert SplitOn("  ", " ") == ["", "", ""] by {
      SplitOnFirst("", " ", " ");
      SplitOnFirst("", " ", "");
      assert "" + " " + " " == "  " && "" + " " + "" == " ";
      SplitOnAbsent("", " ");
    }
    assert KeyPath("  ") == [];
    assert DirectoryAliases("  ") == [];
  }

  // ---------------------------------------------------------------------------
  // Tab completion of a directory
  // ---------------------------------------------------------------------------

  /** Whether the built-in `confirm` is offered under the typed command `command`. */
  predicate OffersConfirm(reg: Registry, prefix: string, useQueued: bool, command: string) {
    useQueued && prefix + "confirm" !in reg && ToLower(prefix) == ToLower(command)
  }

  /** What completes `fragment`: the sub-directories and the usable sub-commands that start
      with it, and `confirm` when it is offered and starts with it. */
  function Candidates(subDirectories: set<string>, subCommands: set<string>, fragment: string,
                      usable: string -> bool, confirm: bool): set<string> {
    (set d | d in subDirectories && StartsWith(d, fragment))
    + (set c | c in subCommands && StartsWith(c, fragment) && usable(c))
    + (if confirm && StartsWith("confirm", fragment) then {"confirm"} else {})
  }

  /** `tabCompleteDirectory` for typed command `command` and typed fragment `typed`: the
      fragment is trimmed and lower-cased; the candidates come back sorted, except that a
      single candidate equal to the fragment gives nothing. `usable` says whether the
      sub-command exists and the sender may use it. */
  method TabCompleteDirectory(reg: Registry, prefix: string, useQueued: bool, command: string,
                              subDirectories: set<string>, subCommands: set<string>,
                              typed: string, usable: string -> bool)
    returns (r: seq<string>)
    ensures var fragment := ToLower(Trim(typed));
            var cs := Candidates(subDirectories, subCommands, fragment, usable,
                                 OffersConfirm(reg, prefix, useQueued, command));
            if cs == {fragment} then r == []
            else StringOrder.Sorted(r) && |r| == |cs| && forall x :: x in r <==> x in cs
    ensures forall x :: x in r ==> StartsWith(x, ToLower(Trim(typed)))
  {
    var fragment := ToLower(Trim(typed));
    var confirm := OffersConfirm(reg, prefix, useQueued, command);
    var all := Candidates(subDirectories, subCommands, fragment, usable, confirm);
    CandidatesStart(subDirectories, subCommands, fragment, usable, confirm);
    if all == {fragment} {
      r := [];
    } else {
      r := StringOrder.SortSet(all);
    }
  }

  /** Every candidate starts with the fragment. */
  lemma CandidatesStart(subDirectories: set<string>, subCommands: set<string>, fragment: string,
                        usable: string -> bool, confirm: bool)
    ensures forall x :: x in Candidates(subDirectories, subCommands, fragment, usable, confirm) ==>
              StartsWith(x, fragment)
  {
  }
}
