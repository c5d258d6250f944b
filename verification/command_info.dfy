/** A command's annotation (`CommandInfo`) and its flag specification: each character of the
    specification declares a flag, and a `:` right after a character makes it a flag that
    takes a value, as in "ab:c". The handler and the usage builder read it with the same loop. */
module CommandInfos {

  /** The annotation's attributes that the command layer reads. */
  datatype CommandInfo = CommandInfo(
    primaryAlias: string,
    prefixPrimary: bool,
    directlyPrefixPrimary: bool,
    aliases: seq<string>,
    prefixedAliases: seq<string>,
    directlyPrefixedAliases: seq<string>,
    usage: string,
    desc: string,
    min: int,
    max: int,           // -1: no upper bound
    flags: string,
    anyFlags: bool)

  /** An annotation that sets only the two required attributes; every alias list defaults to
      a single empty alias. */
  function DefaultInfo(primaryAlias: string, desc: string): CommandInfo {
    CommandInfo(primaryAlias, true, false, [""], [""], [""], "", desc, 0, -1, "", false)
  }

  datatype FlagDecl = FlagDecl(flag: char, takesValue: bool)

  /** The loop shared by the handler and the usage builder: at each character, a `:` right
      after it makes it a value flag and is consumed with it. */
  function Decls(spec: string): (r: seq<FlagDecl>)
    ensures |r| <= |spec|
    decreases |spec|
  {
    if |spec| == 0 then []
    else if |spec| > 1 && spec[1] == ':' then [FlagDecl(spec[0], true)] + Decls(spec[2..])
    else [FlagDecl(spec[0], false)] + Decls(spec[1..])
  }

  /** The specification that declares `ds`: each flag, followed by `:` when it takes a value. */
  function Encode(ds: seq<FlagDecl>): (r: string)
    ensures |r| >= |ds|
  {
    if |ds| == 0 then "" else [ds[0].flag] + (if ds[0].takesValue then ":" else "") + Encode(ds[1..])
  }

  /** No declared flag is itself the `:` marker. */
  predicate WellFormed(ds: seq<FlagDecl>) {
    forall i :: 0 <= i < |ds| ==> ds[i].flag != ':'
  }

  /** Every specification is read without loss: re-encoding what is read gives it back. */
  lemma {:induction false} EncodeDecls(spec: string)
    ensures Encode(Decls(spec)) == spec
    decreases |spec|
  {
    if |spec| == 0 {
    } else if |spec| > 1 && spec[1] == ':' {
      EncodeDecls(spec[2..]);
      assert spec == [spec[0]] + ":" + spec[2..];
    } else {
      EncodeDecls(spec[1..]);
      assert spec == [spec[0]] + spec[1..];
    }
  }

  /** Declarations whose flags are not `:` are read back as declared. */
  lemma {:induction false} DeclsEncode(ds: seq<FlagDecl>)
    requires WellFormed(ds)
    ensures Decls(Encode(ds)) == ds
  {
    if |ds| > 0 {
      var rest := Encode(ds[1..]);
      DeclsEncode(ds[1..]);
      var spec := Encode(ds);
      if ds[0].takesValue {
        assert spec == [ds[0].flag] + ":" + rest;
        assert spec[2..] == rest;
      } else {
        assert spec == [ds[0].flag] + rest;
        assert spec[1..] == rest;
        if |rest| > 0 {
          assert rest[0] == ds[1].flag;
        }
      }
      assert ds == [ds[0]] + ds[1..];
    }
  }

  /** The flags that take a value. */
  function ValueFlags(ds: seq<FlagDecl>): set<char> {
    set i | 0 <= i < |ds| && ds[i].takesValue :: ds[i].flag
  }

  /** The flags that do not. */
  function PlainFlags(ds: seq<FlagDecl>): set<char> {
    set i | 0 <= i < |ds| && !ds[i].takesValue :: ds[i].flag
  }

  /** The flags of a list that starts with `d`: those of `d` and those of the rest. */
  lemma FlagsCons(d: FlagDecl, ds: seq<FlagDecl>)
    ensures ValueFlags([d] + ds) == (if d.takesValue then {d.flag} else {}) + ValueFlags(ds)
    ensures PlainFlags([d] + ds) == (if d.takesValue then {} else {d.flag}) + PlainFlags(ds)
  {
    var all := [d] + ds;
    forall c | c in ValueFlags(ds) ensures c in ValueFlags(all) {
      var i :| 0 <= i < |ds| && ds[i].takesValue && ds[i].flag == c;
      assert all[i + 1] == ds[i];
    }
    forall c | c in PlainFlags(ds) ensures c in PlainFlags(all) {
      var i :| 0 <= i < |ds| && !ds[i].takesValue && ds[i].flag == c;
      assert all[i + 1] == ds[i];
    }
    forall c | c in ValueFlags(all) ensures c in (if d.takesValue then {d.flag} else {}) + ValueFlags(ds) {
      var i :| 0 <= i < |all| && all[i].takesValue && all[i].flag == c;
      if i > 0 { assert ds[i - 1] == all[i]; }
    }
    forall c | c in PlainFlags(all) ensures c in (if d.takesValue then {} else {d.flag}) + PlainFlags(ds) {
      var i :| 0 <= i < |all| && !all[i].takesValue && all[i].flag == c;
      if i > 0 { assert ds[i - 1] == all[i]; }
    }
    assert all[0] == d;
  }
}
