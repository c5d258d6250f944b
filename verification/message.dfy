/** A localizable message: a dotted key split into path segments, a theme-expanded default
    text, and the number of `%s` arguments that text expects. */
module MessageValues {
  import opened Wrappers
  import opened Strings
  import Themes

  /** A key's path in the language tree. */
  type Key = seq<string>

  datatype Message = Message(key: Option<Key>, default: string, argCount: nat)

  /** A message bundled with preset arguments (their string forms). */
  datatype BundledMessage = BundledMessage(message: Message, args: seq<string>)

  /** `countArgs`: the number of `%s` found by a left-to-right search. */
  function CountArgs(s: string): nat {
    Count(s, "%s")
  }

  /** The number of positions at which `%s` starts. */
  function ArgPositions(s: string): nat
    decreases |s|
  {
    if |s| < 2 then 0
    else (if s[0] == '%' && s[1] == 's' then 1 else 0) + ArgPositions(s[1..])
  }

  /** `%s` cannot overlap itself, so the search finds every position where it starts. */
  lemma {:induction false} CountArgsPositions(s: string)
    ensures CountArgs(s) == ArgPositions(s)
    decreases |s|
  {
    if |s| >= 2 {
      if s[..2] == "%s" {
        assert s[0] == '%' && s[1] == 's';
        CountArgsPositions(s[2..]);
        assert s[1..][1..] == s[2..];
        assert ArgPositions(s[1..]) == ArgPositions(s[2..]);
      } else {
        assert s[..2] == [s[0], s[1]];
        CountArgsPositions(s[1..]);
      }
    }
  }

  /** A text without `%` expects no arguments. */
  lemma {:induction false} NoPercentNoArgs(s: string)
    requires '%' !in s
    ensures CountArgs(s) == 0
    decreases |s|
  {
    CountArgsPositions(s);
    if |s| >= 2 {
      assert '%' !in s[1..];
      NoPercentNoArgs(s[1..]);
      CountArgsPositions(s[1..]);
    }
  }

  /** The key path of a dotted key: Kotlin `split(".")` with trailing empty segments dropped. */
  function SplitKey(key: string): (r: Key)
    ensures |r| == 0 || r[|r| - 1] != ""
    ensures forall i :: 0 <= i < |r| ==> '.' !in r[i]
  {
    SplitOnPiecesFree(key, '.');
    KotlinSplit(key, ".")
  }

  /** A key that does not end in `.` is recovered by joining its segments with `.`. */
  lemma SplitKeyJoin(key: string)
    requires |key| == 0 || key[|key| - 1] != '.'
    ensures Join(SplitKey(key), ".") == key
  {
    var xs := SplitOn(key, ".");
    if |key| > 0 {
      if xs[|xs| - 1] == "" {
        SplitOnLastEmpty(key, '.');
      }
      assert DropTrailingEmpty(xs) == xs;
      JoinSplitOn(key, ".");
    }
  }

  /** Segments of a path without dots, the last non-empty, split back from their join. */
  lemma JoinSplitKey(path: Key)
    requires |path| > 0 && path[|path| - 1] != ""
    requires forall i :: 0 <= i < |path| ==> '.' !in path[i]
    ensures SplitKey(Join(path, ".")) == path
  {
    SplitJoin(path, '.');
  }

  /** The private constructor: the default is theme-expanded once, and the argument count
      is taken from the expanded text. */
  function NewMessage(tagMap: map<char, string>, key: Option<string>, text: string): (r: Message)
    ensures r.argCount == ArgPositions(r.default)
    ensures r.key.Some? <==> key.Some?
    ensures key.Some? ==> r.key.value == SplitKey(key.value)
    ensures Themes.THEME_MARKER !in text ==> r.default == text
  {
    var default := Themes.ParseMessage(tagMap, text);
    CountArgsPositions(default);
    assert Themes.THEME_MARKER !in text ==> default == text by {
      if Themes.THEME_MARKER !in text { Themes.ParseMessageNoMarker(tagMap, text); }
    }
    Message(if key.Some? then Some(SplitKey(key.value)) else None, default, CountArgs(default))
  }

  /** `createMessage`: the default and the additional lines joined with newlines. */
  function CreateMessage(tagMap: map<char, string>, key: string, default: string,
                         additionalLines: seq<string>): (r: Message)
    ensures r.key == Some(SplitKey(key))
    ensures r.argCount == ArgPositions(r.default)
  {
    NewMessage(tagMap, Some(key), Join([default] + additionalLines, "\n"))
  }

  /** `createStaticMessage`: like `createMessage`, with no key. */
  function CreateStaticMessage(tagMap: map<char, string>, message: string,
                               additionalLines: seq<string>): (r: Message)
    ensures r.key.None?
    ensures r.argCount == ArgPositions(r.default)
  {
    NewMessage(tagMap, None, Join([message] + additionalLines, "\n"))
  }

  /** Without theme markers, the stored default splits at newlines back into the lines
      the message was created from. */
  lemma CreatedLines(tagMap: map<char, string>, key: string, default: string, lines: seq<string>)
    requires Themes.THEME_MARKER !in Join([default] + lines, "\n")
    requires forall i :: 0 <= i < |[default] + lines| ==> '\n' !in ([default] + lines)[i]
    ensures SplitOn(CreateMessage(tagMap, key, default, lines).default, "\n") == [default] + lines
  {
    SplitJoin([default] + lines, '\n');
  }

  /** `bundle`: always a bundle of the message with the arguments; the boolean says whether
      the mismatch warning is logged. */
  function Bundle(m: Message, args: seq<string>): (r: (BundledMessage, bool))
    ensures r.0.message == m && r.0.args == args
    ensures r.1 <==> |args| != m.argCount
  {
    (BundledMessage(m, args), |args| != m.argCount)
  }

  /** A message whose recorded count matches its default, as every constructed one does. */
  predicate WellFormed(m: Message) {
    m.argCount == CountArgs(m.default)
  }

  lemma NewMessageWellFormed(tagMap: map<char, string>, key: Option<string>, text: string)
    ensures WellFormed(NewMessage(tagMap, key, text))
  {
    CountArgsPositions(NewMessage(tagMap, key, text).default);
  }
}
