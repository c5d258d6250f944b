/** The tree of registered command aliases: each alias is split at spaces into a token path,
    and typed arguments that spell a registered path are joined into one command name. */
module CommandTrees {
  import opened Wrappers
  import opened Strings

  /** A token path from the root. */
  type Path = seq<string>

  /** The tree, flattened: the paths that end in a command key and the paths that have a
      sub-tree. Both hold the tokens as they were registered. A key's name is its path
      joined with spaces and lower-cased, the same for every registration of that path. */
  datatype CommandTree = CommandTree(keys: set<Path>, trees: set<Path>)

  datatype CommandTreeError =
    | EmptyArgs            // `args[0]` or `new String[-1]` on an empty array
    | NullTree             // `tree.treeMap` on a tree that was not found

  const EMPTY: CommandTree := CommandTree({}, {})

  /** Every token lower-cased. */
  function LowerAll(args: seq<string>): (r: seq<string>)
    ensures |r| == |args|
    ensures forall i :: 0 <= i < |args| ==> r[i] == ToLower(args[i])
  {
    seq(|args|, i requires 0 <= i < |args| => ToLower(args[i]))
  }

  /** The name a command key at `path` carries. */
  function KeyName(path: Path): string {
    ToLower(Join(path, " "))
  }

  /** `removeInitialArg`: the array without its first element. */
  function RemoveInitialArg(args: seq<string>): (r: Result<seq<string>, CommandTreeError>)
    ensures r.Success? <==> |args| > 0
    ensures r.Success? ==> [args[0]] + r.value == args
  {
    if |args| == 0 then Failure(EmptyArgs) else Success(args[1..])
  }

  /** `registerKeysForArgs` from the root: every proper prefix of the path becomes a
      sub-tree, and the path itself a command key. */
  function RegisterKeysForArgs(t: CommandTree, args: seq<string>): (r: Result<CommandTree, CommandTreeError>)
    ensures r.Success? <==> |args| > 0
    ensures r.Success? ==> r.value.keys == t.keys + {args}
    ensures r.Success? ==> r.value.trees == t.trees + set j | 1 <= j < |args| :: args[..j]
  {
    if |args| == 0 then Failure(EmptyArgs)
    else Success(CommandTree(t.keys + {args}, t.trees + set j | 1 <= j < |args| :: args[..j]))
  }

  /** `registerKeysForAlias`: the alias split at single spaces. An alias made only of spaces
      splits into nothing and fails. */
  function RegisterKeysForAlias(t: CommandTree, alias: string): (r: Result<CommandTree, CommandTreeError>)
    ensures r.Failure? <==> JavaSplit(alias, " ") == []
  {
    RegisterKeysForArgs(t, JavaSplit(alias, " "))
  }

  /** The same with the tokens lower-cased before they are stored, so that the lower-cased
      lookups of the join can find them. */
  function RegisterKeysForAliasFixed(t: CommandTree, alias: string): (r: Result<CommandTree, CommandTreeError>)
    ensures r.Failure? <==> JavaSplit(alias, " ") == []
  {
    RegisterKeysForArgs(t, LowerAll(JavaSplit(alias, " ")))
  }

  /** How many typed arguments the walk consumes, from index `i` on: it goes deeper while the
      lower-cased path names a sub-tree and stops one past the first that does not. */
  function Depth(t: CommandTree, lower: seq<string>, i: nat): (n: nat)
    requires i <= |lower|
    ensures i <= n <= |lower|
    ensures i < |lower| ==> i < n
    decreases |lower| - i
  {
    if i == |lower| then i
    else if lower[..i + 1] in t.trees then Depth(t, lower, i + 1)
    else i + 1
  }

  /** The joined arguments: the command's name followed by the arguments not consumed, when
      the last step of the walk found a command key; otherwise the arguments unchanged. */
  function Joined(t: CommandTree, args: seq<string>): seq<string> {
    var lower := LowerAll(args);
    var n := Depth(t, lower, 0);
    if n > 0 && lower[..n] in t.keys then [KeyName(lower[..n])] + args[n..] else args
  }

  /** `joinArgsForKnownCommands`, as the loop that walks the tree. */
  method JoinArgsForKnownCommands(t: CommandTree, args: seq<string>) returns (r: seq<string>)
    ensures r == Joined(t, args)
  {
    ghost var lower := LowerAll(args);
    var key: Option<Path> := None;
    var treePath: Option<Path> := Some([]);
    var consumed := 0;
    var i := 0;
    while i < |args|
      invariant 0 <= i <= |args| && consumed == i
      invariant treePath == Some(lower[..i])
      invariant Depth(t, lower, 0) == Depth(t, lower, i)
      invariant i > 0 ==> (key.Some? <==> lower[..i] in t.keys) && (key.Some? ==> key.value == lower[..i])
      invariant i == 0 ==> key.None?
    {
      consumed := consumed + 1;
      var path := treePath.value + [ToLower(args[i])];
      assert path == lower[..i + 1];
      key := if path in t.keys then Some(path) else None;
      treePath := if path in t.trees then Some(path) else None;
      if treePath.None? {
        break;
      }
      i := i + 1;
    }
    assert Depth(t, lower, 0) == consumed;
    if key.Some? {
      r := [KeyName(key.value)] + args[consumed..];
    } else {
      r := args;
    }
  }

  /** With a path of lower-case tokens registered and no longer path below it, typed
      arguments that spell it in any case are joined into its name, and the arguments after
      it are kept. */
  lemma JoinRegistered(t: CommandTree, tokens: seq<string>, args: seq<string>)
    requires |tokens| > 0 && forall j :: 0 <= j < |tokens| ==> ToLower(tokens[j]) == tokens[j]
    requires RegisterKeysForArgs(t, tokens).Success?
    requires tokens !in RegisterKeysForArgs(t, tokens).value.trees
    requires |tokens| <= |args| && forall j :: 0 <= j < |tokens| ==> ToLower(args[j]) == tokens[j]
    ensures Joined(RegisterKeysForArgs(t, tokens).value, args) == [KeyName(tokens)] + args[|tokens|..]
  {
    var t' := RegisterKeysForArgs(t, tokens).value;
    var lower := LowerAll(args);
    assert lower[..|tokens|] == tokens;
    DepthReaches(t', lower, tokens, 0);
  }

  /** The walk over a registered path goes through its prefixes and stops at its end. */
  lemma {:induction false} DepthReaches(t: CommandTree, lower: seq<string>, tokens: seq<string>, i: nat)
    requires 0 < |tokens| <= |lower| && lower[..|tokens|] == tokens && i < |tokens|
    requires forall j :: 1 <= j < |tokens| ==> tokens[..j] in t.trees
    requires tokens !in t.trees
    ensures Depth(t, lower, i) == |tokens|
    decreases |tokens| - i
  {
    assert lower[..i + 1] == tokens[..i + 1];
    if i + 1 < |tokens| {
      DepthReaches(t, lower, tokens, i + 1);
    } else {
      assert tokens[..i + 1] == tokens;
    }
  }

  /** As written, a registered alias with an upper-case letter is never matched: the join
      lower-cases what is typed but the tree keeps the alias as registered. */
  lemma UpperCaseAliasUnmatched()
    ensures RegisterKeysForAlias(EMPTY, "Foo").Success?
    ensures Joined(RegisterKeysForAlias(EMPTY, "Foo").value, ["Foo"]) == ["Foo"]
  {
    assert !Contains("Foo", " ");
    var t := RegisterKeysForAlias(EMPTY, "Foo").value;
    assert t.keys == {["Foo"]} && t.trees == {};
    var lower := LowerAll(["Foo"]);
    assert lower[0] == ToLower("Foo") == "foo";
    assert Depth(t, lower, 0) == 1;
    assert lower[..1] == ["foo"] != ["Foo"];
  }

  /** Corrected: with the tokens stored lower-cased, the same alias typed as registered is
      joined into its lower-cased name. */
  lemma UpperCaseAliasFixed()
    ensures RegisterKeysForAliasFixed(EMPTY, "Foo").Success?
    ensures Joined(RegisterKeysForAliasFixed(EMPTY, "Foo").value, ["Foo"]) == ["foo"]
  {
    NotContainsWithoutFirst("Foo", " ");
    var low := ToLower("Foo");
    assert "Foo"[0] == 'F' && "Foo"[1] == 'o' && "Foo"[2] == 'o';
    assert LowerChar('F') == 'f' && LowerChar('o') == 'o';
    assert low[0] == 'f' && low[1] == 'o' && low[2] == 'o';
    assert low == "foo";
    var tokens := LowerAll(["Foo"]);
    assert tokens == ["foo"];
    LowerIdempotent("Foo");
    JoinRegistered(EMPTY, tokens, ["Foo"]);
  }

  /** Corrected, in general: once an alias is registered lower-cased, typing its tokens in
      any case joins them into its name, when no longer alias lies below it. */
  lemma JoinRegisteredFixed(t: CommandTree, alias: string, args: seq<string>)
    requires RegisterKeysForAliasFixed(t, alias).Success?
    requires LowerAll(JavaSplit(alias, " ")) !in RegisterKeysForAliasFixed(t, alias).value.trees
    requires var toks := JavaSplit(alias, " ");
             |toks| <= |args| && forall j :: 0 <= j < |toks| ==> ToLower(args[j]) == ToLower(toks[j])
    ensures var toks := JavaSplit(alias, " ");
            Joined(RegisterKeysForAliasFixed(t, alias).value, args) == [KeyName(LowerAll(toks))] + args[|toks|..]
  {
    var tokens := LowerAll(JavaSplit(alias, " "));
    forall j | 0 <= j < |tokens| ensures ToLower(tokens[j]) == tokens[j] {
      LowerIdempotent(JavaSplit(alias, " ")[j]);
    }
    JoinRegistered(t, tokens, args);
  }

  /** `getTreeAt`: the sub-tree reached by following the lower-cased tokens of `path`; `None`
      when the last step finds nothing, a failure when an earlier one does. */
  function GetTreeAt(t: CommandTree, path: string): (r: Result<Option<Path>, CommandTreeError>)
    ensures r.Success? && r.value.Some? ==> r.value.value == LowerAll(JavaSplit(path, " "))
  {
    Walk(t, LowerAll(JavaSplit(path, " ")), 0)
  }

  /** The walk of `getTreeAt` from step `i`, at the sub-tree `lower[..i]`. */
  function Walk(t: CommandTree, lower: seq<string>, i: nat): (r: Result<Option<Path>, CommandTreeError>)
    requires i <= |lower|
    ensures r.Success? && r.value.Some? ==> r.value.value == lower
    ensures r.Success? && r.value.Some? <==> forall j :: i < j <= |lower| ==> lower[..j] in t.trees
    decreases |lower| - i
  {
    if i == |lower| then
      assert lower[..i] == lower;
      Success(Some(lower))
    else if lower[..i + 1] in t.trees then Walk(t, lower, i + 1)
    else if i + 1 == |lower| then Success(None)
    else Failure(NullTree)
  }
}
