/** The closed table of chat formatting codes (`ChatColor`) and the text operations on it:
    alternate-code translation, trailing-colour extraction and colour stripping. */
module ChatColors {
  import opened Wrappers
  import opened Strings

  /** The section sign that prefixes every code. */
  const COLOR_CHAR: char := '§'

  datatype ChatColor =
    | BLACK | DARK_BLUE | DARK_GREEN | DARK_AQUA | DARK_RED | DARK_PURPLE | GOLD | GRAY
    | DARK_GRAY | BLUE | GREEN | AQUA | RED | LIGHT_PURPLE | YELLOW | WHITE
    | MAGIC | BOLD | STRIKETHROUGH | UNDERLINE | ITALIC
    | RESET

  /** The entries in declaration order (`values()`). */
  const ALL: seq<ChatColor> := [
    BLACK, DARK_BLUE, DARK_GREEN, DARK_AQUA, DARK_RED, DARK_PURPLE, GOLD, GRAY,
    DARK_GRAY, BLUE, GREEN, AQUA, RED, LIGHT_PURPLE, YELLOW, WHITE,
    MAGIC, BOLD, STRIKETHROUGH, UNDERLINE, ITALIC,
    RESET]

  lemma AllListed(c: ChatColor)
    ensures c in ALL
  {
  }

  /** The code character of each entry. */
  function Code(c: ChatColor): char {
    match c
    case BLACK => '0'          case DARK_BLUE => '1'     case DARK_GREEN => '2'
    case DARK_AQUA => '3'      case DARK_RED => '4'      case DARK_PURPLE => '5'
    case GOLD => '6'           case GRAY => '7'          case DARK_GRAY => '8'
    case BLUE => '9'           case GREEN => 'a'         case AQUA => 'b'
    case RED => 'c'            case LIGHT_PURPLE => 'd'  case YELLOW => 'e'
    case WHITE => 'f'          case MAGIC => 'k'         case BOLD => 'l'
    case STRIKETHROUGH => 'm'  case UNDERLINE => 'n'     case ITALIC => 'o'
    case RESET => 'r'
  }

  /** The numeric code of each entry. */
  function IntCode(c: ChatColor): nat {
    match c
    case BLACK => 0x00         case DARK_BLUE => 0x1     case DARK_GREEN => 0x2
    case DARK_AQUA => 0x3      case DARK_RED => 0x4      case DARK_PURPLE => 0x5
    case GOLD => 0x6           case GRAY => 0x7          case DARK_GRAY => 0x8
    case BLUE => 0x9           case GREEN => 0xA         case AQUA => 0xB
    case RED => 0xC            case LIGHT_PURPLE => 0xD  case YELLOW => 0xE
    case WHITE => 0xF          case MAGIC => 0x10        case BOLD => 0x11
    case STRIKETHROUGH => 0x12 case UNDERLINE => 0x13    case ITALIC => 0x14
    case RESET => 0x15
  }

  /** The enum constant's name (what `valueOf` matches). */
  function Name(c: ChatColor): string {
    match c
    case BLACK => "BLACK"                  case DARK_BLUE => "DARK_BLUE"
    case DARK_GREEN => "DARK_GREEN"        case DARK_AQUA => "DARK_AQUA"
    case DARK_RED => "DARK_RED"            case DARK_PURPLE => "DARK_PURPLE"
    case GOLD => "GOLD"                    case GRAY => "GRAY"
    case DARK_GRAY => "DARK_GRAY"          case BLUE => "BLUE"
    case GREEN => "GREEN"                  case AQUA => "AQUA"
    case RED => "RED"                      case LIGHT_PURPLE => "LIGHT_PURPLE"
    case YELLOW => "YELLOW"                case WHITE => "WHITE"
    case MAGIC => "MAGIC"                  case BOLD => "BOLD"
    case STRIKETHROUGH => "STRIKETHROUGH"  case UNDERLINE => "UNDERLINE"
    case ITALIC => "ITALIC"                case RESET => "RESET"
  }

  predicate IsFormat(c: ChatColor) {
    c.MAGIC? || c.BOLD? || c.STRIKETHROUGH? || c.UNDERLINE? || c.ITALIC?
  }

  /** `isColor`: neither a format code nor RESET; exactly the sixteen codes `0`-`9`, `a`-`f`. */
  function IsColor(c: ChatColor): (r: bool)
    ensures r <==> Code(c) in "0123456789abcdef"
    ensures r <==> IntCode(c) < 0x10
  {
    !IsFormat(c) && c != RESET
  }

  /** `toString`: the section sign followed by the code character. */
  function ToString(c: ChatColor): string {
    [COLOR_CHAR, Code(c)]
  }

  /** `valueOf(name)`: the entry with exactly that constant name. */
  function ValueOf(name: string): (r: Option<ChatColor>)
    ensures r.Some? ==> Name(r.value) == name
    ensures r.None? ==> forall c :: Name(c) != name
  {
    var r := FindByName(ALL, name);
    if r.None? then
      assert forall c :: Name(c) != name by {
        forall c ensures Name(c) != name { AllListed(c); }
      }
      r
    else r
  }

  function FindByName(table: seq<ChatColor>, name: string): (r: Option<ChatColor>)
    ensures r.Some? ==> Name(r.value) == name
    ensures r.None? ==> forall c :: c in table ==> Name(c) != name
  {
    if |table| == 0 then None
    else if Name(table[0]) == name then Some(table[0])
    else FindByName(table[1..], name)
  }

  // ---------------------------------------------------------------------------
  // getByChar: the BY_CHAR table filled from `values()`, later entries overwriting
  // ---------------------------------------------------------------------------

  function FindByChar(table: seq<ChatColor>, ch: char): (r: Option<ChatColor>)
    ensures r.Some? ==> r.value in table && Code(r.value) == ch
    ensures r.None? ==> forall c :: c in table ==> Code(c) != ch
  {
    if |table| == 0 then None
    else if Code(table[|table| - 1]) == ch then Some(table[|table| - 1])
    else FindByChar(table[..|table| - 1], ch)
  }

  /** `getByChar`: the entry whose code character is `ch`, if any; the table is injective,
      so each entry is found by its own character and by no other. */
  function GetByChar(ch: char): (r: Option<ChatColor>)
    ensures r.Some? ==> Code(r.value) == ch
    ensures r.None? ==> forall c :: Code(c) != ch
  {
    var r := FindByChar(ALL, ch);
    if r.None? then
      assert forall c :: Code(c) != ch by {
        forall c ensures Code(c) != ch { AllListed(c); }
      }
      r
    else r
  }

  lemma GetByCharCode(c: ChatColor)
    ensures GetByChar(Code(c)) == Some(c)
  {
    var r := GetByChar(Code(c));
    assert r.Some?;
    CodeInjective(r.value, c);
  }

  /** The entry of a code character, case by case: the inverse of `Code`. */
  function EntryOf(ch: char): Option<ChatColor> {
    match ch
    case '0' => Some(BLACK)          case '1' => Some(DARK_BLUE)     case '2' => Some(DARK_GREEN)
    case '3' => Some(DARK_AQUA)      case '4' => Some(DARK_RED)      case '5' => Some(DARK_PURPLE)
    case '6' => Some(GOLD)           case '7' => Some(GRAY)          case '8' => Some(DARK_GRAY)
    case '9' => Some(BLUE)           case 'a' => Some(GREEN)         case 'b' => Some(AQUA)
    case 'c' => Some(RED)            case 'd' => Some(LIGHT_PURPLE)  case 'e' => Some(YELLOW)
    case 'f' => Some(WHITE)          case 'k' => Some(MAGIC)         case 'l' => Some(BOLD)
    case 'm' => Some(STRIKETHROUGH)  case 'n' => Some(UNDERLINE)     case 'o' => Some(ITALIC)
    case 'r' => Some(RESET)
    case _ => None
  }

  /** No two entries share a code character. */
  lemma CodeInjective(a: ChatColor, b: ChatColor)
    requires Code(a) == Code(b)
    ensures a == b
  {
    assert EntryOf(Code(a)) == Some(a);
    assert EntryOf(Code(b)) == Some(b);
  }

  /** The characters `translateAlternateColorCodes` accepts after the alternate char;
      `stripColor`'s case-insensitive class `[0-9A-FK-OR]` is the same set. */
  predicate IsCodeChar(ch: char) {
    ('0' <= ch <= '9') || ('a' <= ch <= 'f') || ('A' <= ch <= 'F')
    || ('k' <= ch <= 'o') || ('K' <= ch <= 'O') || ch == 'r' || ch == 'R'
  }

  /** The section sign itself names no entry. */
  lemma MarkerIsNoCode()
    ensures GetByChar(COLOR_CHAR) == None
  {
  }

  // ---------------------------------------------------------------------------
  // translateAlternateColorCodes
  // ---------------------------------------------------------------------------

  /** The in-place scan of `translateAlternateColorCodes`: at each index below the last, an
      `alt` followed by a code character becomes the section sign and the code character
      is lower-cased in place, where the next step sees it. */
  function TranslateAlternateColorCodes(alt: char, s: string): (r: string)
    ensures |r| == |s|
    ensures |s| > 0 ==> r[|s| - 1] == s[|s| - 1] || r[|s| - 1] == LowerChar(s[|s| - 1])
    decreases |s|
  {
    if |s| < 2 then s
    else if s[0] == alt && IsCodeChar(s[1]) then
      [COLOR_CHAR] + TranslateAlternateColorCodes(alt, [LowerChar(s[1])] + s[2..])
    else
      [s[0]] + TranslateAlternateColorCodes(alt, s[1..])
  }

  /** What position `j` of the translation holds when `alt` is not itself a code character. */
  predicate TranslatedAt(alt: char, s: string, r: string, j: int)
    requires |r| == |s| && 0 <= j < |s|
  {
    r[j] ==
      if s[j] == alt && j + 1 < |s| && IsCodeChar(s[j + 1]) then COLOR_CHAR
      else if j > 0 && s[j - 1] == alt && IsCodeChar(s[j]) then LowerChar(s[j])
      else s[j]
  }

  lemma LowerCodeChar(ch: char)
    requires IsCodeChar(ch)
    ensures IsCodeChar(LowerChar(ch))
  {
  }

  /** With an ordinary alternate character (the usual `&`), exactly the pairs of `alt` and a
      code character are rewritten: the `alt` becomes the section sign and the code
      character is lower-cased; every other character is kept. */
  lemma {:induction false} TranslatePairs(alt: char, s: string)
    requires !IsCodeChar(alt)
    ensures forall j :: 0 <= j < |s| ==> TranslatedAt(alt, s, TranslateAlternateColorCodes(alt, s), j)
    decreases |s|
  {
    var r := TranslateAlternateColorCodes(alt, s);
    if |s| < 2 {
    } else if s[0] == alt && IsCodeChar(s[1]) {
      var t := [LowerChar(s[1])] + s[2..];
      TranslatePairs(alt, t);
      LowerCodeChar(s[1]);
      var rt := TranslateAlternateColorCodes(alt, t);
      assert r == [COLOR_CHAR] + rt;
      forall j | 0 <= j < |s| ensures TranslatedAt(alt, s, r, j) {
        if j >= 1 {
          assert TranslatedAt(alt, t, rt, j - 1);
          if j >= 2 { assert t[j - 1] == s[j]; }
          if j >= 3 { assert t[j - 2] == s[j - 1]; }
          if j + 1 < |s| { assert t[j] == s[j + 1]; }
        }
      }
    } else {
      var t := s[1..];
      TranslatePairs(alt, t);
      var rt := TranslateAlternateColorCodes(alt, t);
      assert r == [s[0]] + rt;
      forall j | 0 <= j < |s| ensures TranslatedAt(alt, s, r, j) {
        if j >= 1 {
          assert TranslatedAt(alt, t, rt, j - 1);
        }
      }
    }
  }

  /** The source's loop over a mutable character array, proved to compute the scan above. */
  method TranslateInPlace(alt: char, s: string) returns (r: string)
    ensures r == TranslateAlternateColorCodes(alt, s)
  {
    var b := s;
    if |b| < 2 {
      return b;
    }
    var i := 0;
    TranslateStart(alt, s);
    while i <= |b| - 2
      invariant 0 <= i <= |s| - 1 && |b| == |s|
      invariant TranslatedUpTo(alt, s, b, i)
    {
      ghost var before := b;
      if b[i] == alt && IsCodeChar(b[i + 1]) {
        b := b[i := COLOR_CHAR][i + 1 := LowerChar(b[i + 1])];
      }
      TranslateStep(alt, s, before, b, i);
      i := i + 1;
    }
    TranslateEnd(alt, s, b, i);
    r := b;
  }

  /** The loop's invariant: the array up to `i`, followed by the scan of the rest, is the
      translation of the original text. */
  predicate TranslatedUpTo(alt: char, s: string, b: string, i: nat)
    requires i <= |b|
  {
    b[..i] + TranslateAlternateColorCodes(alt, b[i..]) == TranslateAlternateColorCodes(alt, s)
  }

  lemma TranslateStart(alt: char, s: string)
    ensures TranslatedUpTo(alt, s, s, 0)
  {
    assert s[..0] == [] && s[0..] == s;
  }

  /** At the last index the scan of the rest is that one character. */
  lemma TranslateEnd(alt: char, s: string, b: string, i: nat)
    requires |b| == |s| && i == |s| - 1 && TranslatedUpTo(alt, s, b, i)
    ensures b == TranslateAlternateColorCodes(alt, s)
  {
    assert b[i..] == [b[i]];
    assert b[..i] + b[i..] == b;
  }

  /** One iteration of the in-place loop keeps the prefix-plus-scan invariant. */
  lemma TranslateStep(alt: char, s: string, b: string, b': string, i: nat)
    requires i + 1 < |b| && |b'| == |b|
    requires b' == if b[i] == alt && IsCodeChar(b[i + 1])
                   then b[i := COLOR_CHAR][i + 1 := LowerChar(b[i + 1])] else b
    requires TranslatedUpTo(alt, s, b, i)
    ensures TranslatedUpTo(alt, s, b', i + 1)
  {
    if b[i] == alt && IsCodeChar(b[i + 1]) {
      TranslateRewrites(alt, b, b', i);
    } else {
      TranslateKeeps(alt, b, i);
    }
  }

  /** The step that rewrites a pair. */
  lemma TranslateRewrites(alt: char, b: string, b': string, i: nat)
    requires i + 1 < |b| && b[i] == alt && IsCodeChar(b[i + 1])
    requires b' == b[i := COLOR_CHAR][i + 1 := LowerChar(b[i + 1])]
    ensures b'[..i + 1] + TranslateAlternateColorCodes(alt, b'[i + 1..])
            == b[..i] + TranslateAlternateColorCodes(alt, b[i..])
  {
    var rest := [LowerChar(b[i + 1])] + b[i + 2..];
    PairAt(alt, b[i..], rest);
    UpdatedPair(b, b', i, rest);
  }

  /** The scan at an `alt` and a code character. */
  lemma PairAt(alt: char, u: string, rest: string)
    requires |u| >= 2 && u[0] == alt && IsCodeChar(u[1]) && rest == [LowerChar(u[1])] + u[2..]
    ensures TranslateAlternateColorCodes(alt, u) == [COLOR_CHAR] + TranslateAlternateColorCodes(alt, rest)
  {
  }

  /** The array after the pair at `i` is rewritten. */
  lemma UpdatedPair(b: string, b': string, i: nat, rest: string)
    requires i + 1 < |b| && b' == b[i := COLOR_CHAR][i + 1 := LowerChar(b[i + 1])]
    requires rest == [LowerChar(b[i + 1])] + b[i + 2..]
    ensures b'[i + 1..] == rest && b'[..i + 1] == b[..i] + [COLOR_CHAR] && b[i..][2..] == b[i + 2..]
  {
    assert b'[i + 1..] == rest;
    assert b'[..i + 1] == b[..i] + [COLOR_CHAR];
  }

  /** The step that leaves the character alone. */
  lemma TranslateKeeps(alt: char, b: string, i: nat)
    requires i + 1 < |b| && !(b[i] == alt && IsCodeChar(b[i + 1]))
    ensures b[..i + 1] + TranslateAlternateColorCodes(alt, b[i + 1..])
            == b[..i] + TranslateAlternateColorCodes(alt, b[i..])
  {
    var u := b[i..];
    assert u[0] == b[i] && u[1] == b[i + 1];
    assert u[1..] == b[i + 1..];
    assert TranslateAlternateColorCodes(alt, u) == [b[i]] + TranslateAlternateColorCodes(alt, b[i + 1..]);
    assert b[..i + 1] == b[..i] + [b[i]];
  }

  // ---------------------------------------------------------------------------
  // getLastColors
  // ---------------------------------------------------------------------------

  /** A run of format codes (`§k`..`§o`), each as its two-character string form. */
  predicate FormatRun(r: string)
    decreases |r|
  {
    r == [] || (|r| >= 2 && r[0] == COLOR_CHAR && GetByChar(r[1]).Some?
                && IsFormat(GetByChar(r[1]).value) && FormatRun(r[2..]))
  }

  /** Codes to carry over to a following line: any one code, then only format codes. */
  predicate CarriedCodes(r: string) {
    r == [] || (|r| >= 2 && r[0] == COLOR_CHAR && GetByChar(r[1]).Some? && FormatRun(r[2..]))
  }

  /** The backward scan from index `idx` down to 0 with the codes found so far in `acc`. */
  function ScanLastColors(s: string, idx: int, acc: string): (r: string)
    requires -1 <= idx < |s|
    decreases idx + 1
  {
    if idx < 0 then acc
    else if s[idx] == COLOR_CHAR && idx < |s| - 1 && GetByChar(s[idx + 1]).Some? then
      var c := GetByChar(s[idx + 1]).value;
      if IsColor(c) || c == RESET then ToString(c) + acc
      else ScanLastColors(s, idx - 1, ToString(c) + acc)
    else ScanLastColors(s, idx - 1, acc)
  }

  /** `getLastColors`: the codes in force at the end of `s`, collected backwards until the
      first colour or RESET; the format codes passed on the way are kept in front of it. */
  function GetLastColors(s: string): (r: string)
    ensures CarriedCodes(r)
    ensures COLOR_CHAR !in s ==> r == ""
  {
    ScanCarried(s, |s| - 1, "");
    ScanNoMarker(s, |s| - 1, "");
    ScanLastColors(s, |s| - 1, "")
  }

  lemma {:induction false} ScanCarried(s: string, idx: int, acc: string)
    requires -1 <= idx < |s| && FormatRun(acc)
    ensures CarriedCodes(ScanLastColors(s, idx, acc))
    decreases idx + 1
  {
    if idx < 0 {
      assert acc == [] || acc[2..] == acc[2..];
    } else if s[idx] == COLOR_CHAR && idx < |s| - 1 && GetByChar(s[idx + 1]).Some? {
      var c := GetByChar(s[idx + 1]).value;
      var acc' := ToString(c) + acc;
      assert acc'[2..] == acc;
      assert GetByChar(acc'[1]) == Some(c) by { GetByCharCode(c); }
      if !(IsColor(c) || c == RESET) {
        ScanCarried(s, idx - 1, acc');
      }
    } else {
      ScanCarried(s, idx - 1, acc);
    }
  }

  lemma {:induction false} ScanNoMarker(s: string, idx: int, acc: string)
    requires -1 <= idx < |s|
    ensures COLOR_CHAR !in s ==> ScanLastColors(s, idx, acc) == acc
    decreases idx + 1
  {
    if idx >= 0 && COLOR_CHAR !in s {
      ScanNoMarker(s, idx - 1, acc);
    }
  }

  /** Codes found earlier in the scan stay behind the ones found later. */
  lemma {:induction false} ScanAppend(s: string, idx: int, acc: string, tail: string)
    requires -1 <= idx < |s|
    ensures ScanLastColors(s, idx, acc + tail) == ScanLastColors(s, idx, acc) + tail
    decreases idx + 1
  {
    if idx < 0 {
    } else if s[idx] == COLOR_CHAR && idx < |s| - 1 && GetByChar(s[idx + 1]).Some? {
      var c := GetByChar(s[idx + 1]).value;
      assert ToString(c) + (acc + tail) == (ToString(c) + acc) + tail;
      if !(IsColor(c) || c == RESET) {
        ScanAppend(s, idx - 1, ToString(c) + acc, tail);
      }
    } else {
      ScanAppend(s, idx - 1, acc, tail);
    }
  }

  /** Appending a code string does not change how the earlier text is scanned. */
  lemma {:induction false} ScanExtended(s: string, c: ChatColor, idx: int, acc: string)
    requires -1 <= idx < |s|
    ensures ScanLastColors(s + ToString(c), idx, acc) == ScanLastColors(s, idx, acc)
    decreases idx + 1
  {
    var t := s + ToString(c);
    if idx >= 0 {
      assert t[idx] == s[idx];
      if idx == |s| - 1 {
        assert t[idx + 1] == COLOR_CHAR;
        MarkerIsNoCode();
      } else {
        assert t[idx + 1] == s[idx + 1];
      }
      if s[idx] == COLOR_CHAR && idx < |s| - 1 && GetByChar(s[idx + 1]).Some? {
        var g := GetByChar(s[idx + 1]).value;
        if !(IsColor(g) || g == RESET) {
          ScanExtended(s, c, idx - 1, ToString(g) + acc);
        }
      } else {
        ScanExtended(s, c, idx - 1, acc);
      }
    }
  }

  /** The scan at a section sign followed by an entry's code character. */
  lemma ScanAtCode(t: string, idx: int, acc: string, c: ChatColor)
    requires 0 <= idx < |t| - 1 && t[idx] == COLOR_CHAR && t[idx + 1] == Code(c)
    ensures IsColor(c) || c == RESET ==> ScanLastColors(t, idx, acc) == ToString(c) + acc
    ensures !(IsColor(c) || c == RESET) ==> ScanLastColors(t, idx, acc) == ScanLastColors(t, idx - 1, ToString(c) + acc)
  {
    GetByCharCode(c);
  }

  /** The last character is never the start of a code. */
  lemma ScanAtEnd(t: string, acc: string, n: nat)
    requires n == |t| - 1
    ensures ScanLastColors(t, n, acc) == ScanLastColors(t, n - 1, acc)
  {
  }

  /** A colour or RESET at the very end is all that carries over; a format code at the end
      is carried on top of whatever the text before it carries. */
  lemma LastColorsOfAppended(s: string, c: ChatColor)
    ensures !IsFormat(c) ==> GetLastColors(s + ToString(c)) == ToString(c)
    ensures IsFormat(c) ==> GetLastColors(s + ToString(c)) == GetLastColors(s) + ToString(c)
  {
    var t := s + ToString(c);
    assert t[|s|] == COLOR_CHAR && t[|s| + 1] == Code(c);
    assert |t| - 1 == |s| + 1;
    assert GetLastColors(t) == ScanLastColors(t, |s| + 1, "");
    ScanAtEnd(t, "", |s| + 1);
    assert ScanLastColors(t, |s| + 1, "") == ScanLastColors(t, |s|, "");
    ScanAtCode(t, |s|, "", c);
    if IsFormat(c) {
      assert ScanLastColors(t, |s|, "") == ScanLastColors(t, |s| - 1, ToString(c) + "");
      assert ToString(c) + "" == ToString(c);
      FormatCarried(s, c, t);
    } else {
      assert ToString(c) + "" == ToString(c);
    }
  }

  /** A format code at the end: the scan goes on into the text before it. */
  lemma FormatCarried(s: string, c: ChatColor, t: string)
    requires IsFormat(c) && t == s + ToString(c)
    ensures ScanLastColors(t, |s| - 1, ToString(c)) == GetLastColors(s) + ToString(c)
  {
    ScanExtended(s, c, |s| - 1, ToString(c));
    ScanAppend(s, |s| - 1, "", ToString(c));
    assert "" + ToString(c) == ToString(c);
  }

  // ---------------------------------------------------------------------------
  // stripColor
  // ---------------------------------------------------------------------------

  /** `stripColor`: every section sign followed by a code character (either case) is removed
      together with that character, scanning left to right without overlap. */
  function StripColor(s: string): (r: string)
    decreases |s|
  {
    if |s| < 2 then s
    else if s[0] == COLOR_CHAR && IsCodeChar(s[1]) then StripColor(s[2..])
    else [s[0]] + StripColor(s[1..])
  }

  /** The string form of a sequence of codes. */
  function Codes(cs: seq<ChatColor>): string {
    if |cs| == 0 then "" else ToString(cs[0]) + Codes(cs[1..])
  }

  /** Codes in front of a text are removed entirely by stripping. */
  lemma {:induction false} StripLeadingCodes(cs: seq<ChatColor>, s: string)
    ensures StripColor(Codes(cs) + s) == StripColor(s)
  {
    if |cs| > 0 {
      var t := Codes(cs) + s;
      assert t == ToString(cs[0]) + (Codes(cs[1..]) + s);
      assert t[0] == COLOR_CHAR && t[1] == Code(cs[0]);
      assert IsCodeChar(Code(cs[0]));
      assert t[2..] == Codes(cs[1..]) + s;
      assert StripColor(t) == StripColor(t[2..]);
      StripLeadingCodes(cs[1..], s);
    } else {
      assert Codes(cs) + s == s;
    }
  }

  /** Codes inserted in front of a character that neither is a code character nor the
      section sign disappear under stripping, whatever precedes them. */
  lemma {:induction false} StripInsert(x: string, cs: seq<ChatColor>, y: string)
    requires |y| > 0 && !IsCodeChar(y[0]) && y[0] != COLOR_CHAR
    ensures StripColor(x + Codes(cs) + y) == StripColor(x + y)
    decreases |x|, 1
  {
    if |x| == 0 {
      InsertFirst(x, cs, y);
    } else if |cs| == 0 {
      InsertNothing(x, cs, y);
    } else {
      StripInsertFrom(x, cs, y);
    }
  }

  lemma InsertFirst(x: string, cs: seq<ChatColor>, y: string)
    requires |x| == 0
    ensures StripColor(x + Codes(cs) + y) == StripColor(x + y)
  {
    StripLeadingCodes(cs, y);
    EmptyFront(x, Codes(cs));
    EmptyFront(x, y);
  }

  lemma EmptyFront(x: string, a: string)
    requires |x| == 0
    ensures x + a == a
  {
  }

  lemma InsertNothing(x: string, cs: seq<ChatColor>, y: string)
    requires |cs| == 0
    ensures StripColor(x + Codes(cs) + y) == StripColor(x + y)
  {
    assert Codes(cs) == "";
    assert x + Codes(cs) + y == x + y;
  }

  lemma {:induction false} StripInsertFrom(x: string, cs: seq<ChatColor>, y: string)
    requires |y| > 0 && !IsCodeChar(y[0]) && y[0] != COLOR_CHAR && |x| > 0 && |cs| > 0
    ensures StripColor(x + Codes(cs) + y) == StripColor(x + y)
    decreases |x|, 0
  {
    if |x| >= 2 && x[0] == COLOR_CHAR && IsCodeChar(x[1]) {
      PairBefore(x, Codes(cs), y);
      StripInsert(x[2..], cs, y);
    } else if |x| == 1 && x[0] == COLOR_CHAR {
      LoneMarkerBefore(x, cs, y);
      StripLeadingCodes(cs, y);
    } else {
      CodesStart(cs);
      CharBefore(x, Codes(cs), y);
      StripInsert(x[1..], cs, y);
    }
  }

  /** A non-empty code string starts with the section sign. */
  lemma CodesStart(cs: seq<ChatColor>)
    requires |cs| > 0
    ensures |Codes(cs)| >= 2 && Codes(cs)[0] == COLOR_CHAR
  {
  }

  /** A pair at the front of `x` is removed with or without the codes after `x`. */
  lemma PairBefore(x: string, m: string, y: string)
    requires |x| >= 2 && x[0] == COLOR_CHAR && IsCodeChar(x[1])
    ensures StripColor(x + m + y) == StripColor(x[2..] + m + y)
    ensures StripColor(x + y) == StripColor(x[2..] + y)
  {
    assert (x + m + y)[2..] == x[2..] + m + y;
    assert (x + y)[2..] == x[2..] + y;
  }

  /** A first character of `x` that starts no pair is kept, with or without the codes. */
  lemma CharBefore(x: string, m: string, y: string)
    requires |x| > 0 && |y| > 0 && !IsCodeChar(y[0])
    requires |m| >= 2 && m[0] == COLOR_CHAR
    requires !(|x| >= 2 && x[0] == COLOR_CHAR && IsCodeChar(x[1])) && !(|x| == 1 && x[0] == COLOR_CHAR)
    ensures StripColor(x + m + y) == [x[0]] + StripColor(x[1..] + m + y)
    ensures StripColor(x + y) == [x[0]] + StripColor(x[1..] + y)
  {
    var rest := x[1..];
    assert x + m + y == x + (m + y) && rest + m + y == rest + (m + y);
    TailOfConcat(x, m + y);
    TailOfConcat(x, y);
    FirstKept(x, x + (m + y), x[1..] + (m + y), if |x| >= 2 then x[1] else m[0]);
    FirstKept(x, x + y, x[1..] + y, if |x| >= 2 then x[1] else y[0]);
  }

  /** The text after the first character of a concatenation. */
  lemma TailOfConcat(a: string, b: string)
    requires |a| > 0
    ensures (a + b)[1..] == a[1..] + b && (a + b)[0] == a[0]
    ensures |a| >= 2 ==> (a + b)[1] == a[1]
    ensures |a| == 1 && |b| > 0 ==> (a + b)[1] == b[0]
  {
  }

  /** A text that starts like `x` and whose second character starts no pair with the first. */
  lemma FirstKept(x: string, t: string, rest: string, second: char)
    requires |x| > 0 && |t| >= 2 && t[0] == x[0] && t[1] == second && rest == t[1..]
    requires !(x[0] == COLOR_CHAR && IsCodeChar(second))
    ensures StripColor(t) == [x[0]] + StripColor(rest)
  {
    StripKeepsFirst(t, rest);
  }

  /** A lone section sign before the codes is kept, and so it is before `y`. */
  lemma LoneMarkerBefore(x: string, cs: seq<ChatColor>, y: string)
    requires x == [COLOR_CHAR] && |cs| > 0 && |y| > 0 && !IsCodeChar(y[0])
    ensures StripColor(x + Codes(cs) + y) == [COLOR_CHAR] + StripColor(Codes(cs) + y)
    ensures StripColor(x + y) == [COLOR_CHAR] + StripColor(y)
  {
    CodesStart(cs);
    LoneMarkerKept(x, Codes(cs) + y);
    assert x + Codes(cs) + y == x + (Codes(cs) + y);
    LoneMarkerKept(x, y);
  }

  /** A section sign followed by a character that is not a code character is kept. */
  lemma LoneMarkerKept(x: string, z: string)
    requires x == [COLOR_CHAR] && |z| > 0 && !IsCodeChar(z[0])
    ensures StripColor(x + z) == [COLOR_CHAR] + StripColor(z)
  {
    TailOfConcat(x, z);
    assert x[1..] + z == z;
    StripKeepsFirst(x + z, z);
  }

  /** Text without the section sign in front of any text survives stripping unchanged. */
  lemma {:induction false} StripPlainPrefix(x: string, y: string)
    requires COLOR_CHAR !in x
    ensures StripColor(x + y) == x + StripColor(y)
    decreases |x|, 1
  {
    if |x| > 0 {
      StripPlainFrom(x, y);
    } else {
      assert x + y == y;
    }
  }

  lemma {:induction false} StripPlainFrom(x: string, y: string)
    requires COLOR_CHAR !in x && |x| > 0
    ensures StripColor(x + y) == x + StripColor(y)
    decreases |x|, 0
  {
    NoMarkerTail(x, y);
    StripPlainPrefix(x[1..], y);
    StripKeepsFirst(x + y, x[1..] + y);
    ConsAgain(x, StripColor(y));
  }

  /** Stripping only removes characters: those of the result are drawn from the text. */
  lemma {:induction false} StripDrawn(s: string)
    ensures multiset(StripColor(s)) <= multiset(s)
    decreases |s|
  {
    if |s| >= 2 {
      SplitOne(s);
      if s[0] == COLOR_CHAR && IsCodeChar(s[1]) {
        StripDrawn(s[2..]);
        SplitOne(s[1..]);
        assert s[1..][1..] == s[2..];
      } else {
        var t := StripColor(s[1..]);
        StripDrawn(s[1..]);
        assert multiset([s[0]] + t) == multiset{s[0]} + multiset(t);
      }
    }
  }

  /** Stripping removes characters two at a time: the text is longer by an even number. */
  lemma {:induction false} StripLength(s: string)
    ensures |StripColor(s)| <= |s| && (|s| - |StripColor(s)|) % 2 == 0
    decreases |s|
  {
    if |s| >= 2 {
      if s[0] == COLOR_CHAR && IsCodeChar(s[1]) {
        StripLength(s[2..]);
        EvenPlusTwo(|s[2..]| - |StripColor(s[2..])|);
      } else {
        StripLength(s[1..]);
      }
    }
  }

  lemma EvenPlusTwo(x: int)
    requires x % 2 == 0
    ensures (x + 2) % 2 == 0
  {
  }

  lemma SplitOne(s: string)
    requires |s| > 0
    ensures multiset(s) == multiset{s[0]} + multiset(s[1..])
  {
    assert s == [s[0]] + s[1..];
  }

  /** A text without a section sign is unchanged by stripping. */
  lemma {:induction false} StripPlain(s: string)
    requires COLOR_CHAR !in s
    ensures StripColor(s) == s
    decreases |s|
  {
    if |s| >= 2 {
      NoMarkerTail(s, "");
      StripPlain(s[1..]);
      assert s == [s[0]] + s[1..];
    }
  }

  lemma NoMarkerTail(x: string, y: string)
    requires COLOR_CHAR !in x && |x| > 0
    ensures COLOR_CHAR !in x[1..] && (x + y)[0] != COLOR_CHAR && (x + y)[1..] == x[1..] + y
  {
    assert x[0] in x;
    forall c | c in x[1..] ensures c in x { }
  }

  lemma ConsAgain(x: string, z: string)
    requires |x| > 0
    ensures [x[0]] + (x[1..] + z) == x + z
  {
    assert [x[0]] + x[1..] == x;
  }

  /** A first character that starts no pair is kept. */
  lemma StripKeepsFirst(t: string, rest: string)
    requires |t| > 0 && !(|t| >= 2 && t[0] == COLOR_CHAR && IsCodeChar(t[1])) && rest == t[1..]
    ensures StripColor(t) == [t[0]] + StripColor(rest)
  {
  }
}
