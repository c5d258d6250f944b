/** The configuration-tree message provider: a language tree is filled with the defaults of
    the registered messages, children with unregistered paths are pruned, and lookups fall
    back to the bracketed key or to the unformatted text. */
module CoreMessageProvider {
  import opened Wrappers
  import opened Strings
  import opened MessageValues

  /** A language tree, as the string leaves it holds: path to text. A path names a node when
      a leaf lies at or below it. */
  type Tree = map<Key, string>

  type Registrations = map<Key, Message>

  /** `p` is a prefix of `q` (or equal to it). */
  predicate IsPrefix(p: Key, q: Key) {
    |p| <= |q| && q[..|p|] == p
  }

  lemma PrefixTransitive(a: Key, b: Key, c: Key)
    ensures IsPrefix(a, b) && IsPrefix(b, c) ==> IsPrefix(a, c)
  {
    if IsPrefix(a, b) && IsPrefix(b, c) {
      assert c[..|b|][..|a|] == c[..|a|];
    }
  }

  /** `getNode(key).isVirtual()`: no leaf lies at or below `key`. */
  predicate Virtual(tree: Tree, key: Key) {
    forall q :: q in tree ==> !IsPrefix(key, q)
  }

  /** `getNode(key).setValue(v)`: the leaf at `key` holds `v`; a leaf on the way to it
      becomes an interior node and loses its text. */
  function SetValue(tree: Tree, key: Key, v: string): (r: Tree)
    ensures key in r && r[key] == v
    ensures forall q :: q in tree && q != key && !IsPrefix(q, key) ==> q in r && r[q] == tree[q]
    ensures forall q :: q in r ==> q == key || q in tree
  {
    (map q | q in tree && !IsPrefix(q, key) :: tree[q])[key := v]
  }

  /** No registered key lies strictly below another. */
  predicate PrefixFree(reg: Registrations) {
    forall p, q :: p in reg && q in reg && p != q ==> !IsPrefix(p, q)
  }

  /** One iteration of `load`'s loop for registered key `k`. With `repair` false it is the
      code as written: the count check sits inside the `isVirtual` guard and never runs.
      With `repair` true, a leaf whose `%s` count is wrong is reset too. */
  function FillKey(tree: Tree, reg: Registrations, k: Key, repair: bool): (r: Tree)
    requires k in reg
    ensures Virtual(tree, k) ==> r == SetValue(tree, k, reg[k].default)
    ensures !Virtual(tree, k) && !repair ==> r == tree
  {
    if Virtual(tree, k) then SetValue(tree, k, reg[k].default)
    else if repair && k in tree && CountArgs(tree[k]) != reg[k].argCount then
      SetValue(tree, k, reg[k].default)
    else tree
  }

  /** The loop over the registered keys in the registry's order. */
  function FillAll(tree: Tree, reg: Registrations, order: seq<Key>, repair: bool): Tree
    requires forall i :: 0 <= i < |order| ==> order[i] in reg
  {
    if |order| == 0 then tree
    else FillKey(FillAll(tree, reg, order[..|order| - 1], repair), reg, order[|order| - 1], repair)
  }

  /** What a registered key holds after its own step, from the tree as loaded. */
  function Filled(tree: Tree, reg: Registrations, k: Key, repair: bool): Option<string>
    requires k in reg
  {
    if Virtual(tree, k) then Some(reg[k].default)
    else if k in tree then
      (if repair && CountArgs(tree[k]) != reg[k].argCount then Some(reg[k].default) else Some(tree[k]))
    else None
  }

  /** A step for `k` changes nothing at or below another registered key `j`, when neither
      lies below the other. */
  lemma FillKeyElsewhere(tree: Tree, reg: Registrations, k: Key, j: Key, repair: bool)
    requires k in reg && j in reg && k != j && PrefixFree(reg)
    ensures Virtual(FillKey(tree, reg, k, repair), j) <==> Virtual(tree, j)
    ensures j in FillKey(tree, reg, k, repair) <==> j in tree
    ensures j in tree ==> FillKey(tree, reg, k, repair)[j] == tree[j]
  {
    var r := FillKey(tree, reg, k, repair);
    if r != tree {
      assert !IsPrefix(j, k) && !IsPrefix(k, j);
      forall q | q in tree && IsPrefix(j, q) ensures q in r {
        PrefixTransitive(j, q, k);
      }
    }
  }

  /** Over distinct, prefix-free registered keys, each listed key ends as its own step left
      it, from the tree as loaded. */
  lemma {:induction false} FillAllSpec(tree: Tree, reg: Registrations, order: seq<Key>, repair: bool)
    requires forall i :: 0 <= i < |order| ==> order[i] in reg
    requires forall i, j :: 0 <= i < j < |order| ==> order[i] != order[j]
    requires PrefixFree(reg)
    ensures forall k :: k in reg && k !in order ==>
              (Virtual(FillAll(tree, reg, order, repair), k) <==> Virtual(tree, k))
              && (k in FillAll(tree, reg, order, repair) <==> k in tree)
              && (k in tree ==> FillAll(tree, reg, order, repair)[k] == tree[k])
    ensures forall k :: k in order ==>
              var r := FillAll(tree, reg, order, repair);
              var f := Filled(tree, reg, k, repair);
              (f.Some? <==> k in r) && (f.Some? ==> r[k] == f.value)
  {
    if |order| > 0 {
      var front := order[..|order| - 1];
      var k := order[|order| - 1];
      assert order == front + [k];
      FillAllSpec(tree, reg, front, repair);
      var prev := FillAll(tree, reg, front, repair);
      forall j | j in reg && j != k
        ensures (Virtual(FillKey(prev, reg, k, repair), j) <==> Virtual(prev, j))
          && (j in FillKey(prev, reg, k, repair) <==> j in prev)
          && (j in prev ==> FillKey(prev, reg, k, repair)[j] == prev[j])
      {
        FillKeyElsewhere(prev, reg, k, j, repair);
      }
    }
  }

  /** `load`: the loop over an enumeration of the registered keys. */
  function Load(tree: Option<Tree>, reg: Registrations, order: seq<Key>): (r: Tree)
    requires forall i :: 0 <= i < |order| ==> order[i] in reg
    requires forall i, j :: 0 <= i < j < |order| ==> order[i] != order[j]
    ensures PrefixFree(reg) ==> forall i :: 0 <= i < |order| ==>
              var k := order[i];
              var f := Filled(tree.GetOr(map[]), reg, k, false);
              (f.Some? <==> k in r) && (f.Some? ==> r[k] == f.value)
  {
    assert PrefixFree(reg) ==> forall i :: 0 <= i < |order| ==>
              var k := order[i];
              var f := Filled(tree.GetOr(map[]), reg, k, false);
              var r := FillAll(tree.GetOr(map[]), reg, order, false);
              (f.Some? <==> k in r) && (f.Some? ==> r[k] == f.value) by {
      if PrefixFree(reg) { FillAllSpec(tree.GetOr(map[]), reg, order, false); }
    }
    FillAll(tree.GetOr(map[]), reg, order, false)
  }

  /** As written, a file entry with the wrong number of `%s` survives loading. */
  lemma LoadKeepsWrongCount()
    ensures var m := Message(Some(["k"]), "needs %s", 1);
            var t := Load(Some(map[["k"] := "no arguments"]), map[["k"] := m], [["k"]]);
            ["k"] in t && t[["k"]] == "no arguments" && CountArgs(t[["k"]]) != m.argCount
  {
    var tree: Tree := map[["k"] := "no arguments"];
    assert !Virtual(tree, ["k"]) by { assert IsPrefix(["k"], ["k"]); }
    NoPercentNoArgs("no arguments");
  }

  /** Corrected: with the count check outside the `isVirtual` guard, every registered leaf
      holds as many `%s` as its message expects after loading. */
  lemma {:induction false} LoadFixedCounts(tree: Tree, reg: Registrations, order: seq<Key>, k: Key)
    requires forall i :: 0 <= i < |order| ==> order[i] in reg
    requires forall i, j :: 0 <= i < j < |order| ==> order[i] != order[j]
    requires PrefixFree(reg) && k in order
    requires WellFormed(reg[k]) && (Virtual(tree, k) || k in tree)
    ensures var r := FillAll(tree, reg, order, true);
            k in r && CountArgs(r[k]) == reg[k].argCount
  {
    FillAllSpec(tree, reg, order, true);
  }

  /** `prune`: each child of the root whose path is not a registered key is removed with
      everything below it. `children` lists the root's list children. */
  function Prune(tree: Tree, reg: Registrations, children: seq<Key>): (r: Tree)
    ensures forall q :: q in r <==> q in tree && forall i :: 0 <= i < |children| && children[i] !in reg ==> !IsPrefix(children[i], q)
    ensures forall q :: q in r ==> r[q] == tree[q]
  {
    map q | q in tree && (forall i :: 0 <= i < |children| && children[i] !in reg ==> !IsPrefix(children[i], q)) :: tree[q]
  }

  /** Pruning never removes a registered leaf that no unregistered child lies above, and with
      no list children it removes nothing. */
  lemma PruneKeeps(tree: Tree, reg: Registrations, children: seq<Key>)
    ensures |children| == 0 ==> Prune(tree, reg, children) == tree
    ensures forall q :: q in tree && q in reg && (forall i :: 0 <= i < |children| ==> !IsPrefix(children[i], q) || children[i] in reg)
              ==> q in Prune(tree, reg, children)
  {
  }

  /** `Arrays.toString` of a key: its segments in brackets, separated by ", ". */
  function KeyString(key: Key): (r: string)
    ensures |r| >= 2 && r[0] == '[' && r[|r| - 1] == ']'
  {
    "[" + Join(key, ", ") + "]"
  }

  /** `_getMessage`: the leaf's text; the bracketed key when no node lies there; `None` for
      an interior node, whose `getString` is null. */
  function GetMessage(tree: Tree, key: Key): (r: Option<string>)
    ensures Virtual(tree, key) ==> r == Some(KeyString(key))
    ensures key in tree ==> r == Some(tree[key])
    ensures r.None? <==> !Virtual(tree, key) && key !in tree
  {
    if key in tree then
      assert !Virtual(tree, key) by { assert IsPrefix(key, key); }
      Some(tree[key])
    else if Virtual(tree, key) then Some(KeyString(key))
    else None
  }

  /** `formatMessage`: the formatter's result, or the text unchanged when it rejects it. */
  function FormatMessage(fmt: (string, seq<string>) -> Option<string>, message: string,
                         args: seq<string>): (r: string)
    ensures fmt(message, args).Some? ==> r == fmt(message, args).value
    ensures fmt(message, args).None? ==> r == message
  {
    match fmt(message, args)
    case Some(formatted) => formatted
    case None => message
  }

  /** `getLocalizedMessage(Message, args)`: a message without a key formats its own default;
      one with a key formats what the tree holds for it. */
  function GetLocalizedMessage(fmt: (string, seq<string>) -> Option<string>, tree: Tree,
                               m: Message, args: seq<string>): (r: Option<string>)
    ensures m.key.None? ==> r == Some(FormatMessage(fmt, m.default, args))
    ensures m.key.Some? && Virtual(tree, m.key.value) && fmt(KeyString(m.key.value), args).None?
            ==> r == Some(KeyString(m.key.value))
    ensures m.key.Some? && m.key.value in tree ==> r == Some(FormatMessage(fmt, tree[m.key.value], args))
    ensures m.key.Some? && Virtual(tree, m.key.value) ==> r == Some(FormatMessage(fmt, KeyString(m.key.value), args))
    ensures r.None? <==> m.key.Some? && m.key.value !in tree && !Virtual(tree, m.key.value)
  {
    if m.key.None? then Some(FormatMessage(fmt, m.default, args))
    else match GetMessage(tree, m.key.value)
      case Some(text) => Some(FormatMessage(fmt, text, args))
      case None => None
  }
}
