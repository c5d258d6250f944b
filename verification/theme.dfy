/** Themes: named colour/style pairs reachable from message text through a one-character
    tag written after `$`, a tag table loaded from a theme document, and the one-pass
    expansion of tags in a message. */
module Themes {
  import opened Wrappers
  import opened Strings
  import opened ChatColors

  datatype Theme =
    | SUCCESS | ERROR | INVALID | PLAIN | IMPORTANT | IMPORTANT2 | IMPORTANT3 | HELP | INFO
    | SORRY | RETRY | DO_THIS | VALUE | TITLE | PLEASE_WAIT | QUESTION
    | CMD_USAGE | CMD_FLAG | OPT_ARG | REQ_ARG | CMD_HIGHLIGHT
    | HEADER | LIST_ODD | LIST_EVEN

  /** Declaration order, which is also the iteration order of an `EnumSet`. */
  const ALL_THEMES: seq<Theme> := [
    SUCCESS, ERROR, INVALID, PLAIN, IMPORTANT, IMPORTANT2, IMPORTANT3, HELP, INFO,
    SORRY, RETRY, DO_THIS, VALUE, TITLE, PLEASE_WAIT, QUESTION,
    CMD_USAGE, CMD_FLAG, OPT_ARG, REQ_ARG, CMD_HIGHLIGHT,
    HEADER, LIST_ODD, LIST_EVEN]

  lemma AllThemesListed(t: Theme)
    ensures t in ALL_THEMES
  {
  }

  /** The mutable part of a theme entry: its tag, colour and style. */
  datatype Setting = Setting(tag: char, color: Option<ChatColor>, style: Option<ChatColor>)

  function BuiltIn(t: Theme): Setting {
    match t
    case SUCCESS => Setting('+', Some(GREEN), None)
    case ERROR => Setting('-', Some(RED), None)
    case INVALID => Setting('^', Some(RED), None)
    case PLAIN => Setting('.', Some(RESET), None)
    case IMPORTANT => Setting('!', None, Some(BOLD))
    case IMPORTANT2 => Setting('*', None, Some(ITALIC))
    case IMPORTANT3 => Setting('_', None, Some(UNDERLINE))
    case HELP => Setting('h', Some(WHITE), None)
    case INFO => Setting('i', Some(AQUA), None)
    case SORRY => Setting('$', Some(DARK_GRAY), None)
    case RETRY => Setting(',', Some(GRAY), None)
    case DO_THIS => Setting('~', Some(BLUE), None)
    case VALUE => Setting('v', Some(DARK_GREEN), None)
    case TITLE => Setting('t', Some(DARK_AQUA), None)
    case PLEASE_WAIT => Setting('w', Some(GRAY), None)
    case QUESTION => Setting('?', Some(DARK_PURPLE), None)
    case CMD_USAGE => Setting('c', Some(WHITE), None)
    case CMD_FLAG => Setting('f', Some(GOLD), Some(ITALIC))
    case OPT_ARG => Setting('o', Some(GOLD), None)
    case REQ_ARG => Setting('r', Some(GREEN), None)
    case CMD_HIGHLIGHT => Setting('C', None, Some(BOLD))
    case HEADER => Setting('=', Some(LIGHT_PURPLE), None)
    case LIST_ODD => Setting(':', Some(WHITE), None)
    case LIST_EVEN => Setting(';', Some(YELLOW), None)
  }

  function ThemeName(t: Theme): string {
    match t
    case SUCCESS => "SUCCESS"          case ERROR => "ERROR"
    case INVALID => "INVALID"          case PLAIN => "PLAIN"
    case IMPORTANT => "IMPORTANT"      case IMPORTANT2 => "IMPORTANT2"
    case IMPORTANT3 => "IMPORTANT3"    case HELP => "HELP"
    case INFO => "INFO"                case SORRY => "SORRY"
    case RETRY => "RETRY"              case DO_THIS => "DO_THIS"
    case VALUE => "VALUE"              case TITLE => "TITLE"
    case PLEASE_WAIT => "PLEASE_WAIT"  case QUESTION => "QUESTION"
    case CMD_USAGE => "CMD_USAGE"      case CMD_FLAG => "CMD_FLAG"
    case OPT_ARG => "OPT_ARG"          case REQ_ARG => "REQ_ARG"
    case CMD_HIGHLIGHT => "CMD_HIGHLIGHT"
    case HEADER => "HEADER"            case LIST_ODD => "LIST_ODD"
    case LIST_EVEN => "LIST_EVEN"
  }

  function FindTheme(table: seq<Theme>, name: string): (r: Option<Theme>)
    ensures r.Some? ==> ThemeName(r.value) == name
    ensures r.None? ==> forall t :: t in table ==> ThemeName(t) != name
  {
    if |table| == 0 then None
    else if ThemeName(table[0]) == name then Some(table[0])
    else FindTheme(table[1..], name)
  }

  /** `Theme.valueOf(name)`. */
  function ThemeValueOf(name: string): (r: Option<Theme>)
    ensures r.Some? ==> ThemeName(r.value) == name
    ensures r.None? ==> forall t :: ThemeName(t) != name
  {
    var r := FindTheme(ALL_THEMES, name);
    if r.None? then
      assert forall t :: ThemeName(t) != name by {
        forall t ensures ThemeName(t) != name { AllThemesListed(t); }
      }
      r
    else r
  }

  /** The theme entries changed since start-up; every other theme has its built-in setting. */
  type Settings = map<Theme, Setting>

  function SettingOf(settings: Settings, t: Theme): Setting {
    if t in settings then settings[t] else BuiltIn(t)
  }

  // ---------------------------------------------------------------------------
  // getColor and toString
  // ---------------------------------------------------------------------------

  /** `getColor`: the colour's code then the style's code; RESET's code when both are
      absent, so the result is always one or two codes and never empty. */
  function GetColor(color: Option<ChatColor>, style: Option<ChatColor>): (r: string)
    ensures r == Codes(CodeList(color, style))
    ensures |r| == 2 * |CodeList(color, style)| && |r| > 0
    ensures color.None? && style.None? ==> r == ToString(RESET)
  {
    var result := (if color.Some? then ToString(color.value) else "")
                + (if style.Some? then ToString(style.value) else "");
    var r := if result == "" then ToString(RESET) else result;
    CodesOfPair(color, style);
    r
  }

  /** The codes a colour/style pair stands for. */
  function CodeList(color: Option<ChatColor>, style: Option<ChatColor>): seq<ChatColor> {
    if color.None? && style.None? then [RESET]
    else (if color.Some? then [color.value] else []) + (if style.Some? then [style.value] else [])
  }

  lemma CodesOfPair(color: Option<ChatColor>, style: Option<ChatColor>)
    ensures Codes(CodeList(color, style))
            == (if color.None? && style.None? then ToString(RESET)
                else (if color.Some? then ToString(color.value) else "")
                     + (if style.Some? then ToString(style.value) else ""))
  {
    var cs := CodeList(color, style);
    if |cs| == 2 {
      assert cs[1..] == [cs[1]];
      assert Codes([cs[1]]) == ToString(cs[1]) + Codes([]) by { assert [cs[1]][1..] == []; }
      assert Codes(cs) == ToString(cs[0]) + (ToString(cs[1]) + Codes([]));
    } else {
      assert Codes(cs) == ToString(cs[0]) + Codes([]);
    }
  }

  /** A theme's `toString`. */
  function ThemeCode(settings: Settings, t: Theme): string {
    GetColor(SettingOf(settings, t).color, SettingOf(settings, t).style)
  }

  /** A theme's code disappears entirely under `stripColor`. */
  lemma ThemeCodeStrips(settings: Settings, t: Theme)
    ensures StripColor(ThemeCode(settings, t)) == ""
  {
    var cs := CodeList(SettingOf(settings, t).color, SettingOf(settings, t).style);
    StripLeadingCodes(cs, "");
    assert Codes(cs) + "" == Codes(cs);
  }

  // ---------------------------------------------------------------------------
  // loadTheme
  // ---------------------------------------------------------------------------

  /** One element of the theme document: its element name and the text of its first
      `tag`, `color` and `style` descendants, when present. */
  datatype Block = Block(name: string, tagText: Option<string>, colorText: Option<string>,
                         styleText: Option<string>)

  function BlockTag(b: Block): Option<char> {
    if b.tagText.Some? && |b.tagText.value| > 0 then Some(b.tagText.value[0]) else None
  }

  /** A colour or style name, upper-cased; an unknown name is ignored. */
  function NamedColor(text: Option<string>): Option<ChatColor> {
    if text.Some? && |text.value| > 0 then ValueOf(ToUpper(text.value)) else None
  }

  function BlockColor(b: Block): Option<ChatColor> {
    NamedColor(b.colorText)
  }

  function BlockStyle(b: Block): Option<ChatColor> {
    NamedColor(b.styleText)
  }

  /** A block counts when it names a tag and a colour or a style. */
  predicate Qualifies(b: Block) {
    BlockTag(b).Some? && (BlockColor(b).Some? || BlockStyle(b).Some?)
  }

  /** The state of the loading loop: the tag table, the theme settings, and the themes
      not yet claimed by a block. */
  datatype LoadState = LoadState(tagMap: map<char, string>, settings: Settings,
                                 unclaimed: set<Theme>)

  /** One block of the loop: a qualifying block whose tag is still free enters the table
      and, when its name is a theme's, claims and overwrites that theme. */
  function Step(st: LoadState, b: Block): LoadState {
    if Qualifies(b) && BlockTag(b).value !in st.tagMap then
      var tag := BlockTag(b).value;
      var tm := st.tagMap[tag := GetColor(BlockColor(b), BlockStyle(b))];
      match ThemeValueOf(ToUpper(b.name))
      case Some(t) =>
        LoadState(tm, st.settings[t := Setting(tag, BlockColor(b), BlockStyle(b))], st.unclaimed - {t})
      case None => LoadState(tm, st.settings, st.unclaimed)
    else st
  }

  function LoadBlocks(st: LoadState, doc: seq<Block>): LoadState
    decreases |doc|
  {
    if |doc| == 0 then st else LoadBlocks(Step(st, doc[0]), doc[1..])
  }

  /** The defaults loop: each unclaimed theme, in declaration order, `putIfAbsent`s its tag. */
  function AddDefaults(tagMap: map<char, string>, settings: Settings, order: seq<Theme>,
                       unclaimed: set<Theme>): map<char, string>
    decreases |order|
  {
    if |order| == 0 then tagMap
    else
      var t := order[0];
      var tm := if t in unclaimed && SettingOf(settings, t).tag !in tagMap
                then tagMap[SettingOf(settings, t).tag := ThemeCode(settings, t)] else tagMap;
      AddDefaults(tm, settings, order[1..], unclaimed)
  }

  /** `loadTheme`: the new tag table and theme settings, starting from a cleared table. */
  function LoadTheme(settings: Settings, doc: seq<Block>): (r: (map<char, string>, Settings))
  {
    var st := LoadBlocks(LoadState(map[], settings, set t: Theme | t in ALL_THEMES), doc);
    (AddDefaults(st.tagMap, st.settings, ALL_THEMES, st.unclaimed), st.settings)
  }

  /** The colour of the first qualifying block with tag `k`. */
  function FirstColorFor(doc: seq<Block>, k: char): Option<string> {
    if |doc| == 0 then None
    else if Qualifies(doc[0]) && BlockTag(doc[0]).value == k
    then Some(GetColor(BlockColor(doc[0]), BlockStyle(doc[0])))
    else FirstColorFor(doc[1..], k)
  }

  /** First wins: an entry already in the table is never replaced, and a new tag gets the
      colour of the first qualifying block that names it. */
  lemma {:induction false} LoadBlocksFirstWins(st: LoadState, doc: seq<Block>)
    ensures var r := LoadBlocks(st, doc);
      forall k :: ((k in r.tagMap <==> k in st.tagMap || FirstColorFor(doc, k).Some?)
                   && (k in r.tagMap ==> r.tagMap[k] == if k in st.tagMap then st.tagMap[k]
                                                       else FirstColorFor(doc, k).value))
    decreases |doc|
  {
    if |doc| > 0 {
      LoadBlocksFirstWins(Step(st, doc[0]), doc[1..]);
    }
  }

  /** Claimed themes are registered under their own tag with their own colour. */
  predicate ClaimedRegistered(st: LoadState) {
    forall t :: t !in st.unclaimed ==>
      SettingOf(st.settings, t).tag in st.tagMap
      && st.tagMap[SettingOf(st.settings, t).tag] == ThemeCode(st.settings, t)
  }

  lemma StepClaimed(st: LoadState, b: Block)
    requires ClaimedRegistered(st)
    ensures ClaimedRegistered(Step(st, b)) && Step(st, b).unclaimed <= st.unclaimed
  {
    if Qualifies(b) && BlockTag(b).value !in st.tagMap {
      var tag := BlockTag(b).value;
      var tm := st.tagMap[tag := GetColor(BlockColor(b), BlockStyle(b))];
      match ThemeValueOf(ToUpper(b.name))
      case None =>
        assert Step(st, b) == LoadState(tm, st.settings, st.unclaimed);
        NewTagKeepsClaimed(st, tag, tm, st.settings, st.unclaimed, None);
      case Some(t0) =>
        var settings := st.settings[t0 := Setting(tag, BlockColor(b), BlockStyle(b))];
        assert Step(st, b) == LoadState(tm, settings, st.unclaimed - {t0});
        assert SettingOf(settings, t0).tag == tag && ThemeCode(settings, t0) == tm[tag];
        NewTagKeepsClaimed(st, tag, tm, settings, st.unclaimed - {t0}, Some(t0));
    }
  }

  /** A tag that was free enters the table, and at most one theme, now claimed, is set to it:
      every theme claimed before keeps its registration. */
  lemma NewTagKeepsClaimed(st: LoadState, tag: char, tm: map<char, string>, settings: Settings,
                           unclaimed: set<Theme>, named: Option<Theme>)
    requires ClaimedRegistered(st) && tag !in st.tagMap
    requires tm.Keys == st.tagMap.Keys + {tag} && forall k :: k in st.tagMap ==> tm[k] == st.tagMap[k]
    requires named.None? ==> settings == st.settings && unclaimed == st.unclaimed
    requires named.Some? ==> unclaimed == st.unclaimed - {named.value}
                             && SettingOf(settings, named.value).tag == tag
                             && ThemeCode(settings, named.value) == tm[tag]
                             && forall t :: t != named.value ==> SettingOf(settings, t) == SettingOf(st.settings, t)
    ensures ClaimedRegistered(LoadState(tm, settings, unclaimed)) && unclaimed <= st.unclaimed
  {
    forall t | t !in unclaimed
      ensures SettingOf(settings, t).tag in tm
      ensures tm[SettingOf(settings, t).tag] == ThemeCode(settings, t)
    {
      if !(named.Some? && named.value == t) {
        assert t !in st.unclaimed;
        assert SettingOf(settings, t) == SettingOf(st.settings, t);
      }
    }
  }

  lemma {:induction false} LoadBlocksClaimed(st: LoadState, doc: seq<Block>)
    requires ClaimedRegistered(st)
    ensures ClaimedRegistered(LoadBlocks(st, doc)) && LoadBlocks(st, doc).unclaimed <= st.unclaimed
    decreases |doc|
  {
    if |doc| > 0 {
      StepClaimed(st, doc[0]);
      LoadBlocksClaimed(Step(st, doc[0]), doc[1..]);
    }
  }

  /** The defaults loop only adds, and adds every unclaimed theme's tag. */
  lemma {:induction false} AddDefaultsCovers(tagMap: map<char, string>, settings: Settings,
                                             order: seq<Theme>, unclaimed: set<Theme>)
    ensures var r := AddDefaults(tagMap, settings, order, unclaimed);
      (forall k :: k in tagMap ==> k in r && r[k] == tagMap[k])
      && (forall t :: t in order && t in unclaimed ==> SettingOf(settings, t).tag in r)
    decreases |order|
  {
    if |order| > 0 {
      var t := order[0];
      var tm := if t in unclaimed && SettingOf(settings, t).tag !in tagMap
                then tagMap[SettingOf(settings, t).tag := ThemeCode(settings, t)] else tagMap;
      AddDefaultsCovers(tm, settings, order[1..], unclaimed);
      var r := AddDefaults(tm, settings, order[1..], unclaimed);
      assert AddDefaults(tagMap, settings, order, unclaimed) == r;
      assert forall k :: k in tagMap ==> k in tm && tm[k] == tagMap[k];
      forall u | u in order && u in unclaimed ensures SettingOf(settings, u).tag in r {
        if u == t {
          assert SettingOf(settings, t).tag in tm;
        } else {
          assert u in order[1..];
        }
      }
    }
  }

  /** After `loadTheme` every theme's tag is in the table, and each tag used by the document
      maps to the colour of the first qualifying block with that tag. */
  lemma LoadThemeProperties(settings: Settings, doc: seq<Block>)
    ensures var (tm, s') := LoadTheme(settings, doc);
      (forall t :: SettingOf(s', t).tag in tm)
      && (forall k :: FirstColorFor(doc, k).Some? ==> k in tm && tm[k] == FirstColorFor(doc, k).value)
  {
    var st0 := LoadState(map[], settings, set t: Theme | t in ALL_THEMES);
    LoadBlocksFirstWins(st0, doc);
    LoadBlocksClaimed(st0, doc);
    var st := LoadBlocks(st0, doc);
    AddDefaultsCovers(st.tagMap, st.settings, ALL_THEMES, st.unclaimed);
    var tm := AddDefaults(st.tagMap, st.settings, ALL_THEMES, st.unclaimed);
    assert LoadTheme(settings, doc) == (tm, st.settings);
    forall t ensures SettingOf(st.settings, t).tag in tm {
      AllThemesListed(t);
    }
    forall k | FirstColorFor(doc, k).Some? ensures k in tm && tm[k] == FirstColorFor(doc, k).value {
      assert k in st.tagMap && st.tagMap[k] == FirstColorFor(doc, k).value;
    }
  }

  // ---------------------------------------------------------------------------
  // parseMessage
  // ---------------------------------------------------------------------------

  const THEME_MARKER: char := '$'
  const THEME_ESCAPE_CHAR: char := '\\'

  /** The loop of `parseMessage` over all characters but the last; `prev` is the character
      the loop last looked at.  A marker not preceded by the escape character and followed
      by a known tag becomes the tag's code, and both characters are consumed. */
  function ScanTags(tagMap: map<char, string>, s: string, prev: char): string
    decreases |s|
  {
    if |s| <= 1 then ""
    else if s[0] == THEME_MARKER && prev != THEME_ESCAPE_CHAR && s[1] in tagMap then
      tagMap[s[1]] + ScanTags(tagMap, s[2..], s[0])
    else [s[0]] + ScanTags(tagMap, s[1..], s[0])
  }

  /** `parseMessage` as written: the loop, then the last character appended unconditionally,
      even when the loop already consumed it as a tag. */
  function ParseMessage(tagMap: map<char, string>, s: string): (r: string)
    ensures |s| == 0 ==> r == ""
    ensures |s| > 0 ==> |r| > 0 && r[|r| - 1] == s[|s| - 1]
  {
    ScanTags(tagMap, s, ' ') + (if |s| > 0 then [s[|s| - 1]] else "")
  }

  /** The corrected expansion: the final character is kept only when it was not consumed
      as a tag. */
  function ScanTagsFixed(tagMap: map<char, string>, s: string, prev: char): string
    decreases |s|
  {
    if |s| <= 1 then s
    else if s[0] == THEME_MARKER && prev != THEME_ESCAPE_CHAR && s[1] in tagMap then
      tagMap[s[1]] + ScanTagsFixed(tagMap, s[2..], s[0])
    else [s[0]] + ScanTagsFixed(tagMap, s[1..], s[0])
  }

  function ParseMessageFixed(tagMap: map<char, string>, s: string): (r: string)
    ensures |s| == 0 ==> r == ""
  {
    ScanTagsFixed(tagMap, s, ' ')
  }

  /** Only an escape character before the marker matters, so the scans ignore any other
      previous character. */
  lemma PrevIrrelevant(tagMap: map<char, string>, s: string, p: char, q: char)
    requires p != THEME_ESCAPE_CHAR && q != THEME_ESCAPE_CHAR
    ensures ScanTags(tagMap, s, p) == ScanTags(tagMap, s, q)
    ensures ScanTagsFixed(tagMap, s, p) == ScanTagsFixed(tagMap, s, q)
  {
  }

  /** `$` and a known tag become the tag's code, and the scan goes on after the tag. */
  lemma ParseTag(tagMap: map<char, string>, k: char, rest: string)
    requires k in tagMap && |rest| > 0
    ensures ParseMessage(tagMap, "$" + [k] + rest) == tagMap[k] + ParseMessage(tagMap, rest)
    ensures ParseMessageFixed(tagMap, "$" + [k] + rest) == tagMap[k] + ParseMessageFixed(tagMap, rest)
  {
    var s := "$" + [k] + rest;
    assert s[2..] == rest;
    PrevIrrelevant(tagMap, rest, '$', ' ');
  }

  /** `$` and an unknown character are copied, and the scan advances by one. */
  lemma ParseUnknownTag(tagMap: map<char, string>, k: char, rest: string)
    requires k !in tagMap
    ensures ParseMessage(tagMap, "$" + [k] + rest) == "$" + ParseMessage(tagMap, [k] + rest)
    ensures ParseMessageFixed(tagMap, "$" + [k] + rest) == "$" + ParseMessageFixed(tagMap, [k] + rest)
  {
    var s := "$" + [k] + rest;
    assert s[1..] == [k] + rest;
    PrevIrrelevant(tagMap, [k] + rest, '$', ' ');
  }

  /** An escaped marker is copied together with the escape character. */
  lemma ParseEscaped(tagMap: map<char, string>, rest: string)
    requires |rest| > 0
    ensures ParseMessage(tagMap, "\\$" + rest) == "\\$" + ParseMessage(tagMap, rest)
  {
    var s := "\\$" + rest;
    assert s[0] == THEME_ESCAPE_CHAR && s[1] == THEME_MARKER;
    assert s[1..] == "$" + rest && s[1..][1..] == rest;
    assert ScanTags(tagMap, s, ' ') == "\\" + ScanTags(tagMap, s[1..], s[0]);
    assert ScanTags(tagMap, s[1..], s[0]) == "$" + ScanTags(tagMap, rest, '$');
    assert s[|s| - 1] == rest[|rest| - 1];
    PrevIrrelevant(tagMap, rest, '$', ' ');
  }

  /** Text without the marker is returned unchanged by both versions. */
  lemma {:induction false} ParseNoMarker(tagMap: map<char, string>, s: string, p: char)
    requires THEME_MARKER !in s
    ensures ScanTagsFixed(tagMap, s, p) == s
    ensures |s| > 0 ==> ScanTags(tagMap, s, p) == s[..|s| - 1]
    decreases |s|
  {
    if |s| > 1 {
      assert s[0] in s;
      forall c | c in s[1..] ensures c in s { }
      ParseNoMarker(tagMap, s[1..], s[0]);
      assert s == [s[0]] + s[1..];
    }
  }

  lemma ParseMessageNoMarker(tagMap: map<char, string>, s: string)
    requires THEME_MARKER !in s
    ensures ParseMessage(tagMap, s) == s && ParseMessageFixed(tagMap, s) == s
  {
    ParseNoMarker(tagMap, s, ' ');
    if |s| > 0 {
      assert s[..|s| - 1] + [s[|s| - 1]] == s;
    }
  }

  /** The two versions differ at most by the duplicated last character. */
  lemma {:induction false} ScanVersions(tagMap: map<char, string>, s: string, p: char)
    requires |s| > 0
    ensures ScanTags(tagMap, s, p) + [s[|s| - 1]] == ScanTagsFixed(tagMap, s, p)
         || ScanTags(tagMap, s, p) == ScanTagsFixed(tagMap, s, p)
    decreases |s|
  {
    if |s| > 1 {
      if s[0] == THEME_MARKER && p != THEME_ESCAPE_CHAR && s[1] in tagMap {
        if |s| > 2 {
          ScanVersions(tagMap, s[2..], s[0]);
          assert s[2..][|s[2..]| - 1] == s[|s| - 1];
        }
      } else {
        ScanVersions(tagMap, s[1..], s[0]);
        assert s[1..][|s[1..]| - 1] == s[|s| - 1];
      }
    }
  }

  lemma ParseVersions(tagMap: map<char, string>, s: string)
    requires |s| > 0
    ensures ParseMessage(tagMap, s) == ParseMessageFixed(tagMap, s)
         || ParseMessage(tagMap, s) == ParseMessageFixed(tagMap, s) + [s[|s| - 1]]
  {
    ScanVersions(tagMap, s, ' ');
  }

  /** A message that ends in a tag gets the tag character appended after the code. */
  lemma ParseTagAtEnd(tagMap: map<char, string>, k: char)
    requires k in tagMap
    ensures ParseMessage(tagMap, "$" + [k]) == tagMap[k] + [k]
    ensures ParseMessageFixed(tagMap, "$" + [k]) == tagMap[k]
  {
    var s := "$" + [k];
    assert s[0] == THEME_MARKER && s[1] == k && s[2..] == "";
    assert ScanTags(tagMap, s, ' ') == tagMap[k] + ScanTags(tagMap, "", s[0]);
    assert ScanTagsFixed(tagMap, s, ' ') == tagMap[k] + ScanTagsFixed(tagMap, "", s[0]);
  }
}
