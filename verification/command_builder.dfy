/** What the command builder assembles from a command's annotation: the themed usage string
    (required and optional arguments marked, one group per declared flag) and the list of
    aliases the command is registered under. */
module CommandBuilders {
  import opened Wrappers
  import opened Strings
  import opened CommandInfos
  import Themes
  import opened ChatColors

  // ---------------------------------------------------------------------------
  // Usage string
  // ---------------------------------------------------------------------------

  /** The index of the first `close` at or after `e`, when no line terminator comes first. */
  function CloseAt(s: string, close: char, e: nat): (r: Option<nat>)
    ensures r.Some? ==> e <= r.value < |s| && s[r.value] == close
    decreases |s| - e
  {
    if e >= |s| then None
    else if s[e] == close then Some(e)
    else if IsLineTerminator(s[e]) then None
    else CloseAt(s, close, e + 1)
  }

  /** No closing character and no line terminator comes before the one found. */
  lemma {:induction false} CloseAtFirst(s: string, close: char, e: nat)
    requires CloseAt(s, close, e).Some?
    ensures forall k :: e <= k < CloseAt(s, close, e).value ==> s[k] != close && !IsLineTerminator(s[k])
    decreases |s| - e
  {
    if s[e] != close {
      CloseAtFirst(s, close, e + 1);
    }
  }

  /** Where a match of `open .+? close` that starts at `p` ends (its closing index): the
      opening character, at least one character, then the nearest closing one. */
  function MatchAt(s: string, open: char, close: char, p: nat): (r: Option<nat>)
    requires p < |s|
    ensures r.Some? ==> p + 2 <= r.value < |s| && s[p] == open && s[r.value] == close
  {
    if s[p] == open && p + 1 < |s| && !IsLineTerminator(s[p + 1]) then CloseAt(s, close, p + 2)
    else None
  }

  /** A match holds no line terminator and ends at the first closing character after its
      first enclosed character. */
  lemma MatchAtSpan(s: string, open: char, close: char, p: nat)
    requires p < |s| && MatchAt(s, open, close, p).Some?
    ensures forall k :: p < k < MatchAt(s, open, close, p).value ==> !IsLineTerminator(s[k])
    ensures forall k :: p + 2 <= k < MatchAt(s, open, close, p).value ==> s[k] != close
  {
    CloseAtFirst(s, close, p + 2);
  }

  /** One pass of `parseUsage` from index `i`: `code` is inserted before every match, found
      left to right, and everything else is copied. */
  function Markup(s: string, open: char, close: char, code: string, i: nat): string
    decreases |s| - i
  {
    if i >= |s| then ""
    else match MatchAt(s, open, close, i)
      case Some(e) => code + s[i..e + 1] + Markup(s, open, close, code, e + 1)
      case None => [s[i]] + Markup(s, open, close, code, i + 1)
  }

  /** A pass at a match inserts the code before the matched text and goes on after it. */
  lemma MarkupAtMatch(s: string, open: char, close: char, code: string, i: nat, e: nat)
    requires i < |s| && MatchAt(s, open, close, i) == Some(e)
    ensures Markup(s, open, close, code, i) == code + s[i..e + 1] + Markup(s, open, close, code, e + 1)
  {
  }

  /** A pass at any other character copies it and goes on after it. */
  lemma MarkupAtCopy(s: string, open: char, close: char, code: string, i: nat)
    requires i < |s| && MatchAt(s, open, close, i) == None
    ensures Markup(s, open, close, code, i) == [s[i]] + Markup(s, open, close, code, i + 1)
  {
  }

  lemma SliceSplit(s: string, i: nat, j: nat)
    requires i <= j <= |s|
    ensures s[i..] == s[i..j] + s[j..]
  {
  }

  /** Text around two pieces, regrouped; a lemma of its own, since the same steps stated
      inside the proofs below cost the solver far more. */
  lemma Regroup2(x: string, a: string, c: string, z: string)
    ensures x + (a + c) + z == (x + a) + c + z
    ensures (x + a) + c + z == x + (a + c) + z
  {
  }

  /** How a pass that starts at a copied character splits, as text around it. */
  lemma MarkupCopyPieces(s: string, open: char, close: char, code: string, i: nat, x: string, z: string)
    requires i < |s| && MatchAt(s, open, close, i) == None
    ensures x + Markup(s, open, close, code, i) + z
            == (x + [s[i]]) + Markup(s, open, close, code, i + 1) + z
    ensures (x + [s[i]]) + s[i + 1..] + z == x + s[i..] + z
  {
    MarkupAtCopy(s, open, close, code, i);
    assert s[i..] == [s[i]] + s[i + 1..];
    Regroup2(x, [s[i]], Markup(s, open, close, code, i + 1), z);
    Regroup2(x, [s[i]], s[i + 1..], z);
  }

  /** A pass that inserts colour codes changes nothing that survives stripping, whatever
      surrounds it. */
  lemma {:induction false} MarkupStrips(s: string, open: char, close: char, cs: seq<ChatColor>,
                                        i: nat, x: string, z: string)
    requires !IsCodeChar(open) && open != COLOR_CHAR && i <= |s|
    ensures StripColor(x + Markup(s, open, close, Codes(cs), i) + z) == StripColor(x + s[i..] + z)
    decreases |s| - i, 1
  {
    if i == |s| {
      MarkupEnd(s, open, close, Codes(cs), i, x, z);
    } else if MatchAt(s, open, close, i).Some? {
      MarkupStripsMatch(s, open, close, cs, i, x, z, MatchAt(s, open, close, i).value);
    } else {
      MarkupStripsCopy(s, open, close, cs, i, x, z);
    }
  }

  lemma MarkupEnd(s: string, open: char, close: char, code: string, i: nat, x: string, z: string)
    requires i == |s|
    ensures x + Markup(s, open, close, code, i) + z == x + s[i..] + z
  {
    assert s[i..] == "";
  }

  lemma {:induction false} MarkupStripsMatch(s: string, open: char, close: char, cs: seq<ChatColor>,
                                             i: nat, x: string, z: string, e: nat)
    requires !IsCodeChar(open) && open != COLOR_CHAR && i < |s| && MatchAt(s, open, close, i) == Some(e)
    ensures StripColor(x + Markup(s, open, close, Codes(cs), i) + z) == StripColor(x + s[i..] + z)
    decreases |s| - i, 0
  {
    var front := x + s[i..e + 1];
    MarkupStrips(s, open, close, cs, e + 1, front, z);
    MatchStep(s, open, close, cs, i, x, z, e, front);
  }

  /** The step at a match, given that the rest of the pass strips to the rest of the text: the
      codes before the matched text, which starts with the opening character, strip away. */
  lemma MatchStep(s: string, open: char, close: char, cs: seq<ChatColor>, i: nat, x: string, z: string, e: nat,
                  front: string)
    requires !IsCodeChar(open) && open != COLOR_CHAR
    requires i < |s| && MatchAt(s, open, close, i) == Some(e) && front == x + s[i..e + 1]
    requires StripColor(front + Markup(s, open, close, Codes(cs), e + 1) + z) == StripColor(front + s[e + 1..] + z)
    ensures StripColor(x + Markup(s, open, close, Codes(cs), i) + z) == StripColor(x + s[i..] + z)
  {
    var rest := Markup(s, open, close, Codes(cs), e + 1);
    MarkupAtMatch(s, open, close, Codes(cs), i, e);
    MatchPieces(x, Codes(cs), s[i..e + 1], rest, z);
    FirstOfMatch(s, i, e, rest + z);
    StripInsert(x, cs, s[i..e + 1] + rest + z);
    SliceSplit(s, i, e + 1);
    Regroup2(x, s[i..e + 1], s[e + 1..], z);
  }

  /** The pass at a match as text around it, with and without the code; a lemma of its own,
      since the same steps stated inside the proof above cost the solver far more. */
  lemma MatchPieces(x: string, code: string, m: string, rest: string, z: string)
    ensures x + (code + m + rest) + z == x + code + (m + rest + z)
    ensures x + (m + rest + z) == (x + m) + rest + z
  {
  }

  /** The matched text starts with the opening character. */
  lemma FirstOfMatch(s: string, i: nat, e: nat, t: string)
    requires i <= e < |s|
    ensures |s[i..e + 1] + t| > 0 && (s[i..e + 1] + t)[0] == s[i]
  {
  }

  lemma FirstOfRest(s: string, i: nat, z: string)
    requires i < |s|
    ensures |s[i..] + z| > 0 && (s[i..] + z)[0] == s[i]
  {
  }

  lemma {:induction false} MarkupStripsCopy(s: string, open: char, close: char, cs: seq<ChatColor>,
                                            i: nat, x: string, z: string)
    requires !IsCodeChar(open) && open != COLOR_CHAR && i < |s| && MatchAt(s, open, close, i) == None
    ensures StripColor(x + Markup(s, open, close, Codes(cs), i) + z) == StripColor(x + s[i..] + z)
    decreases |s| - i, 0
  {
    MarkupStrips(s, open, close, cs, i + 1, x + [s[i]], z);
    MarkupCopyPieces(s, open, close, Codes(cs), i, x, z);
  }

  /** A theme's code as the codes it stands for. */
  lemma ThemeCodes(settings: Themes.Settings, t: Themes.Theme)
    ensures Themes.ThemeCode(settings, t)
            == Codes(Themes.CodeList(Themes.SettingOf(settings, t).color, Themes.SettingOf(settings, t).style))
  {
  }

  /** `parseUsage`: required arguments `{..}` are marked with the REQ_ARG code, then optional
      arguments `[..]` with the OPT_ARG code. */
  function ParseUsage(settings: Themes.Settings, usage: string): string {
    if usage == "" then usage
    else
      var req := Markup(usage, '{', '}', Themes.ThemeCode(settings, Themes.REQ_ARG), 0);
      Markup(req, '[', ']', Themes.ThemeCode(settings, Themes.OPT_ARG), 0)
  }

  lemma EmptyFront(s: string, z: string)
    ensures "" + s + z == s + z && s[0..] == s
  {
  }

  /** A whole pass from the start, followed by any text. */
  lemma MarkupFromStartStrips(s: string, open: char, close: char, cs: seq<ChatColor>, z: string)
    requires !IsCodeChar(open) && open != COLOR_CHAR
    ensures StripColor(Markup(s, open, close, Codes(cs), 0) + z) == StripColor(s + z)
  {
    MarkupStrips(s, open, close, cs, 0, "", z);
    EmptyFront(s, z);
    EmptyFront(Markup(s, open, close, Codes(cs), 0), z);
  }

  /** The marked usage, stripped of colour, reads as the usage, whatever follows it. */
  lemma ParseUsageStrips(settings: Themes.Settings, usage: string, z: string)
    ensures StripColor(ParseUsage(settings, usage) + z) == StripColor(usage + z)
  {
    if usage != "" {
      var reqCodes := Themes.CodeList(Themes.SettingOf(settings, Themes.REQ_ARG).color,
                                      Themes.SettingOf(settings, Themes.REQ_ARG).style);
      var optCodes := Themes.CodeList(Themes.SettingOf(settings, Themes.OPT_ARG).color,
                                      Themes.SettingOf(settings, Themes.OPT_ARG).style);
      ThemeCodes(settings, Themes.REQ_ARG);
      ThemeCodes(settings, Themes.OPT_ARG);
      var req := Markup(usage, '{', '}', Codes(reqCodes), 0);
      MarkupFromStartStrips(req, '[', ']', optCodes, z);
      MarkupFromStartStrips(usage, '{', '}', reqCodes, z);
    }
  }

  /** A flag's group with the given codes: ` [-c]`, or ` [-c {VALUE}]` for a value flag. */
  function GroupText(o: string, f: string, q: string, d: FlagDecl): string {
    " " + o + "[" + f + "-" + [d.flag] + (if d.takesValue then q + " {VALUE}" else "") + o + "]"
  }

  /** One flag's group, with the theme's codes for optional arguments, flags and required
      arguments. */
  function FlagGroup(settings: Themes.Settings, d: FlagDecl): string {
    GroupText(Themes.ThemeCode(settings, Themes.OPT_ARG), Themes.ThemeCode(settings, Themes.CMD_FLAG),
              Themes.ThemeCode(settings, Themes.REQ_ARG), d)
  }

  /** The same group without colour. */
  function PlainGroup(d: FlagDecl): string {
    " " + "[" + "-" + [d.flag] + (if d.takesValue then " {VALUE}" else "") + "]"
  }

  /** The groups of a list of declarations, in order. */
  function Groups(settings: Themes.Settings, ds: seq<FlagDecl>): string {
    if |ds| == 0 then "" else FlagGroup(settings, ds[0]) + Groups(settings, ds[1..])
  }

  function PlainGroups(ds: seq<FlagDecl>): string {
    if |ds| == 0 then "" else PlainGroup(ds[0]) + PlainGroups(ds[1..])
  }

  /** The flag loop of `gatherUsageString` from index `i` of the specification. */
  function FlagsUsage(settings: Themes.Settings, flags: string, i: nat): (r: string)
    ensures i <= |flags| ==> r == Groups(settings, Decls(flags[i..]))
    decreases |flags| - i
  {
    if i >= |flags| then
      assert i == |flags| ==> flags[i..] == [];
      ""
    else if |flags| > i + 1 && flags[i + 1] == ':' then
      assert flags[i..][1] == ':' && flags[i..][2..] == flags[i + 2..];
      FlagGroup(settings, FlagDecl(flags[i], true)) + FlagsUsage(settings, flags, i + 2)
    else
      assert flags[i..][1..] == flags[i + 1..];
      FlagGroup(settings, FlagDecl(flags[i], false)) + FlagsUsage(settings, flags, i + 1)
  }

  /** Dropping one run of codes from a text, described by where it sits. */
  lemma StripDrop(whole: string, pre: string, cs: seq<ChatColor>, post: string)
    requires whole == pre + Codes(cs) + post
    requires |post| > 0 && !IsCodeChar(post[0]) && post[0] != COLOR_CHAR
    ensures StripColor(whole) == StripColor(pre + post)
  {
    StripInsert(pre, cs, post);
  }

  /** The flag group's text regrouped around its first run of codes. */
  lemma GroupAtOpen(o: string, f: string, sp: string, lb: string, dash: string, c: string, qv: string,
                    rb: string, x: string, z: string)
    ensures x + (sp + o + lb + f + dash + c + qv + o + rb) + z == (x + sp) + o + (lb + f + dash + c + qv + o + rb + z)
  {
  }

  /** ... around the flag's codes. */
  lemma GroupAtFlag(o: string, f: string, sp: string, lb: string, dash: string, c: string, qv: string,
                    rb: string, x: string, z: string)
    ensures (x + sp) + (lb + f + dash + c + qv + o + rb + z) == (x + sp + lb) + f + (dash + c + qv + o + rb + z)
  {
  }

  /** ... around the value's codes, when there is a value. */
  lemma GroupAtValue(o: string, q: string, sp: string, lb: string, dash: string, c: string, v: string,
                     rb: string, x: string, z: string)
    ensures (x + sp + lb) + (dash + c + (q + v) + o + rb + z) == (x + sp + lb + dash + c) + q + (v + o + rb + z)
  {
  }

  /** ... with no value codes to drop. */
  lemma GroupNoValue(o: string, sp: string, lb: string, dash: string, c: string, v: string,
                     rb: string, x: string, z: string)
    ensures (x + sp + lb) + (dash + c + v + o + rb + z) == (x + sp + lb + dash + c) + (v + o + rb + z)
  {
  }

  /** ... around the closing codes. */
  lemma GroupAtClose(o: string, sp: string, lb: string, dash: string, c: string, v: string,
                     rb: string, x: string, z: string)
    ensures (x + sp + lb + dash + c) + (v + o + rb + z) == (x + sp + lb + dash + c + v) + o + (rb + z)
  {
  }

  /** ... and the plain group that is left. */
  lemma GroupPlain(sp: string, lb: string, dash: string, c: string, v: string, rb: string, x: string, z: string)
    ensures (x + sp + lb + dash + c + v) + (rb + z) == x + (sp + lb + dash + c + v + rb) + z
  {
  }

  /** The shape of a flag group with its pieces named: each run of codes sits before a
      bracket, a dash, a space or the closing bracket, so each disappears under stripping. */
  lemma GroupShapeStrips(opt: seq<ChatColor>, flag: seq<ChatColor>, req: seq<ChatColor>,
                         sp: string, lb: string, dash: string, c: string, v: string, rb: string,
                         withValue: bool, x: string, z: string)
    requires lb == "[" && dash == "-" && rb == "]"
    requires withValue ==> |v| > 0 && v[0] == ' '
    ensures StripColor(x + (sp + Codes(opt) + lb + Codes(flag) + dash + c
                            + (if withValue then Codes(req) + v else v) + Codes(opt) + rb) + z)
            == StripColor(x + (sp + lb + dash + c + v + rb) + z)
  {
    var o, f, q := Codes(opt), Codes(flag), Codes(req);
    var qv := if withValue then q + v else v;
    GroupAtOpen(o, f, sp, lb, dash, c, qv, rb, x, z);
    StripDrop(x + (sp + o + lb + f + dash + c + qv + o + rb) + z, x + sp, opt, lb + f + dash + c + qv + o + rb + z);
    GroupAtFlag(o, f, sp, lb, dash, c, qv, rb, x, z);
    StripDrop((x + sp) + (lb + f + dash + c + qv + o + rb + z), x + sp + lb, flag, dash + c + qv + o + rb + z);
    if withValue {
      GroupAtValue(o, q, sp, lb, dash, c, v, rb, x, z);
      StripDrop((x + sp + lb) + (dash + c + qv + o + rb + z), x + sp + lb + dash + c, req, v + o + rb + z);
    } else {
      GroupNoValue(o, sp, lb, dash, c, v, rb, x, z);
    }
    GroupAtClose(o, sp, lb, dash, c, v, rb, x, z);
    StripDrop((x + sp + lb + dash + c) + (v + o + rb + z), x + sp + lb + dash + c + v, opt, rb + z);
    GroupPlain(sp, lb, dash, c, v, rb, x, z);
  }

  /** A flag group with any codes, stripped of colour, is the plain group, whatever surrounds
      it. */
  lemma GroupTextStrips(opt: seq<ChatColor>, flag: seq<ChatColor>, req: seq<ChatColor>, d: FlagDecl,
                        x: string, z: string)
    ensures StripColor(x + GroupText(Codes(opt), Codes(flag), Codes(req), d) + z)
            == StripColor(x + PlainGroup(d) + z)
  {
    GroupShapeStrips(opt, flag, req, " ", "[", "-", [d.flag], if d.takesValue then " {VALUE}" else "", "]",
                     d.takesValue, x, z);
  }

  /** A flag group stripped of colour is the plain group, whatever surrounds it. */
  lemma FlagGroupStrips(settings: Themes.Settings, d: FlagDecl, x: string, z: string)
    ensures StripColor(x + FlagGroup(settings, d) + z) == StripColor(x + PlainGroup(d) + z)
  {
    ThemeCodes(settings, Themes.OPT_ARG);
    ThemeCodes(settings, Themes.CMD_FLAG);
    ThemeCodes(settings, Themes.REQ_ARG);
    GroupTextStrips(Themes.CodeList(Themes.SettingOf(settings, Themes.OPT_ARG).color,
                                    Themes.SettingOf(settings, Themes.OPT_ARG).style),
                    Themes.CodeList(Themes.SettingOf(settings, Themes.CMD_FLAG).color,
                                    Themes.SettingOf(settings, Themes.CMD_FLAG).style),
                    Themes.CodeList(Themes.SettingOf(settings, Themes.REQ_ARG).color,
                                    Themes.SettingOf(settings, Themes.REQ_ARG).style),
                    d, x, z);
  }

  /** Text around a head and a tail, regrouped; a lemma of its own, since the same steps
      stated inside the induction below cost the solver far more. */
  lemma Regroup(x: string, g: string, rest: string, z: string)
    ensures x + (g + rest) + z == x + g + (rest + z)
    ensures x + g + (rest + z) == (x + g) + rest + z
  {
  }

  /** All groups stripped of colour are the plain groups. */
  lemma {:induction false} GroupsStrip(settings: Themes.Settings, ds: seq<FlagDecl>, x: string, z: string)
    ensures StripColor(x + Groups(settings, ds) + z) == StripColor(x + PlainGroups(ds) + z)
  {
    if |ds| > 0 {
      var g := FlagGroup(settings, ds[0]);
      var p := PlainGroup(ds[0]);
      var gs := Groups(settings, ds[1..]);
      var ps := PlainGroups(ds[1..]);
      Regroup(x, g, gs, z);
      FlagGroupStrips(settings, ds[0], x, gs + z);
      Regroup(x, p, gs, z);
      GroupsStrip(settings, ds[1..], x + p, z);
      Regroup(x, p, ps, z);
    }
  }

  /** `gatherUsageString`: the marked usage followed by one group per declared flag. */
  function GatherUsageString(settings: Themes.Settings, info: CommandInfo): string {
    ParseUsage(settings, info.usage) + FlagsUsage(settings, info.flags, 0)
  }

  /** The usage string, stripped of colour, is the usage text followed by the flag groups in
      declaration order; with the section sign absent from both, it is exactly that. */
  lemma GatherUsageStrips(settings: Themes.Settings, info: CommandInfo)
    ensures StripColor(GatherUsageString(settings, info))
            == StripColor(info.usage + PlainGroups(Decls(info.flags)))
    ensures COLOR_CHAR !in info.usage + PlainGroups(Decls(info.flags)) ==>
              StripColor(GatherUsageString(settings, info)) == info.usage + PlainGroups(Decls(info.flags))
  {
    var flags := FlagsUsage(settings, info.flags, 0);
    assert info.flags[0..] == info.flags;
    ParseUsageStrips(settings, info.usage, flags);
    GroupsStrip(settings, Decls(info.flags), info.usage, "");
    assert info.usage + flags + "" == info.usage + flags;
    assert info.usage + PlainGroups(Decls(info.flags)) + "" == info.usage + PlainGroups(Decls(info.flags));
    if COLOR_CHAR !in info.usage + PlainGroups(Decls(info.flags)) {
      StripPlain(info.usage + PlainGroups(Decls(info.flags)));
    }
  }

  // ---------------------------------------------------------------------------
  // Aliases
  // ---------------------------------------------------------------------------

  /** `addPrimaryAlias`. */
  function PrimaryAlias(prefix: string, info: CommandInfo): string {
    if info.directlyPrefixPrimary then prefix + info.primaryAlias
    else if info.prefixPrimary then prefix + " " + info.primaryAlias
    else info.primaryAlias
  }

  /** The non-empty aliases of a group, each behind `front`, in order. */
  function Group(front: string, xs: seq<string>): (r: seq<string>)
    ensures |r| <= |xs|
    ensures forall a :: a in r <==> exists b :: b in xs && b != "" && a == front + b
    ensures forall k :: 0 <= k < |r| ==> r[k] != ""
    ensures front == "" ==> forall a :: a in r <==> a in xs && a != ""
    ensures (forall k :: 0 <= k < |xs| ==> xs[k] == "") ==> r == []
  {
    if |xs| == 0 then []
    else
      var rest := Group(front, xs[1..]);
      assert forall b :: b in xs <==> b == xs[0] || b in xs[1..] by { assert xs == [xs[0]] + xs[1..]; }
      if xs[0] == "" then rest else [front + xs[0]] + rest
  }

  /** `buildUpAliasList`: the primary alias, then the non-empty regular, prefixed, directly
      prefixed and additional aliases, group by group. */
  function BuildUpAliasList(prefix: string, info: CommandInfo, additional: seq<string>): (r: seq<string>)
    ensures |r| >= 1 && r[0] == PrimaryAlias(prefix, info)
    ensures |r| <= 1 + |info.aliases| + |info.prefixedAliases| + |info.directlyPrefixedAliases| + |additional|
    ensures forall k :: 1 <= k < |r| ==> r[k] != ""
    ensures forall a :: a in r[1..] <==>
              (a in info.aliases && a != "")
              || (exists b :: b in info.prefixedAliases && b != "" && a == prefix + " " + b)
              || (exists b :: b in info.directlyPrefixedAliases && b != "" && a == prefix + b)
              || (a in additional && a != "")
  {
    var regular := Group("", info.aliases);
    var prefixed := Group(prefix + " ", info.prefixedAliases);
    var direct := Group(prefix, info.directlyPrefixedAliases);
    var extra := Group("", additional);
    var r := [PrimaryAlias(prefix, info)] + regular + prefixed + direct + extra;
    assert r[1..] == regular + prefixed + direct + extra;
    r
  }

  /** A command annotated with only its primary alias is registered under the prefixed
      primary alias alone: the default alias groups hold one empty alias each, which is
      skipped. */
  lemma DefaultAliases(prefix: string, primary: string, desc: string)
    ensures BuildUpAliasList(prefix, DefaultInfo(primary, desc), []) == [prefix + " " + primary]
  {
    var info := DefaultInfo(primary, desc);
    assert info.aliases == info.prefixedAliases == info.directlyPrefixedAliases == [""];
  }
}
