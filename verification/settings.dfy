/** The plugin's own settings: the debug level with its validator, the first-run flag, and the
    locale, which is stored as its `toString` text and read back by splitting at `_`. */
module PluginSettings {
  import opened Wrappers
  import opened Strings

  /** A `java.util.Locale` of language, country and variant. */
  datatype Locale = Locale(language: string, country: string, variant: string)

  /** `new Locale(language, country, variant)`: the language lower-cased and the country
      upper-cased; the variant is kept. */
  function NewLocale(language: string, country: string, variant: string): (l: Locale)
    ensures |l.language| == |language| && |l.country| == |country| && l.variant == variant
  {
    Locale(ToLower(language), ToUpper(country), variant)
  }

  /** `Locale.toString`: the language; `_country` when there is a country, or a language and a
      variant; `_variant` when there is a variant and a language or country. */
  function LocaleToString(l: Locale): string {
    var lang := l.language != "";
    var region := l.country != "";
    var variant := l.variant != "";
    l.language
    + (if region || (lang && variant) then "_" + l.country else "")
    + (if variant && (lang || region) then "_" + l.variant else "")
  }

  /** `PropertyVetoException` with the invalid-debug message. */
  datatype SettingsError = InvalidDebug

  /** `DebugLevelValidator.validateChange`: no new value keeps the old one (or 0); 0 to 3 is
      taken; anything else is vetoed. */
  function ValidateDebugChange(newValue: Option<int>, oldValue: Option<int>): Result<int, SettingsError> {
    match newValue
    case None => Success(oldValue.GetOr(0))
    case Some(v) => if v >= 0 && v <= 3 then Success(v) else Failure(InvalidDebug)
  }

  /** The settings: the debug level as last stored (it starts at 0), the first-run flag and the
      locale. */
  datatype Settings = Settings(debugLevel: Option<int>, firstRun: bool, locale: Locale)

  /** A fresh settings object with the given default locale. */
  function NewSettings(defaultLocale: Locale): (s: Settings)
    ensures GetDebugLevel(s) == 0 && s.firstRun && s.locale == defaultLocale
  {
    Settings(Some(0), true, defaultLocale)
  }

  /** `getDebugLevel`: the stored level, 0 when there is none. */
  function GetDebugLevel(s: Settings): int {
    s.debugLevel.GetOr(0)
  }

  /** `setDebugLevel`: validated against the current level, then stored. */
  function SetDebugLevel(s: Settings, debugLevel: int): Result<Settings, SettingsError> {
    match ValidateDebugChange(Some(debugLevel), Some(GetDebugLevel(s)))
    case Failure(e) => Failure(e)
    case Success(v) => Success(s.(debugLevel := Some(v)))
  }

  /** `LocaleSerializer.serialize`: the locale's text, or the default locale's for none. */
  function SerializeLocale(l: Option<Locale>, defaultLocale: Locale): string {
    match l
    case Some(x) => LocaleToString(x)
    case None => LocaleToString(defaultLocale)
  }

  /** `LocaleSerializer.deserialize`: nothing gives the default locale; otherwise the text is
      split at `_` and one, two or three pieces make language, country and variant, while any
      other number makes the whole text the language. */
  function DeserializeLocale(text: Option<string>, defaultLocale: Locale): Locale {
    match text
    case None => defaultLocale
    case Some(t) =>
      var parts := JavaSplit(t, "_");
      if |parts| == 1 then NewLocale(parts[0], "", "")
      else if |parts| == 2 then NewLocale(parts[0], parts[1], "")
      else if |parts| == 3 then NewLocale(parts[0], parts[1], parts[2])
      else NewLocale(t, "", "")
  }

  // ---------------------------------------------------------------------------
  // Properties
  // ---------------------------------------------------------------------------

  /** The validator accepts exactly the levels 0 to 3, and keeps the old value, or 0, when
      given none. */
  lemma ValidateDebugRange(newValue: Option<int>, oldValue: Option<int>)
    ensures newValue.Some? ==>
              (ValidateDebugChange(newValue, oldValue).Success? <==> 0 <= newValue.value <= 3)
    ensures newValue.Some? && ValidateDebugChange(newValue, oldValue).Success? ==>
              ValidateDebugChange(newValue, oldValue).value == newValue.value
    ensures newValue.None? ==> ValidateDebugChange(newValue, oldValue) == Success(if oldValue.Some? then oldValue.value else 0)
  {
  }

  /** A level from 0 to 3 is stored and read back, and nothing else changes; any other level
      is refused. */
  lemma SetThenGetDebugLevel(s: Settings, debugLevel: int)
    ensures SetDebugLevel(s, debugLevel).Success? <==> 0 <= debugLevel <= 3
    ensures SetDebugLevel(s, debugLevel).Success? ==>
              GetDebugLevel(SetDebugLevel(s, debugLevel).value) == debugLevel
              && SetDebugLevel(s, debugLevel).value.(debugLevel := s.debugLevel) == s
  {
  }

  /** No locale is written as the default locale's text and no text is read as the default
      locale. */
  lemma NullLocale(defaultLocale: Locale)
    ensures SerializeLocale(None, defaultLocale) == LocaleToString(defaultLocale)
    ensures DeserializeLocale(None, defaultLocale) == defaultLocale
  {
  }

  /** A locale the constructor could have made, with no `_` in its parts and not a variant
      alone. */
  predicate WellFormedLocale(l: Locale) {
    ToLower(l.language) == l.language && ToUpper(l.country) == l.country
    && '_' !in l.language && '_' !in l.country && '_' !in l.variant
    && !(l.language == "" && l.country == "" && l.variant != "")
  }

  /** Splitting joined pieces without `_`, the last not empty, gives the pieces. */
  lemma SplitUnderscore(parts: seq<string>)
    requires |parts| >= 2 && parts[|parts| - 1] != ""
    requires forall i :: 0 <= i < |parts| ==> '_' !in parts[i]
    ensures JavaSplit(Join(parts, "_"), "_") == parts
  {
    var s := Join(parts, "_");
    SplitJoin(parts, '_');
    assert s == parts[0] + "_" + Join(parts[1..], "_");
    assert Contains(s, "_") by {
      ContainsChar(s, '_');
      assert s[|parts[0]|] == '_';
    }
  }

  lemma JoinThree(a: string, b: string, c: string)
    ensures Join([a, b, c], "_") == a + "_" + b + "_" + c
  {
    assert [a, b, c][1..] == [b, c];
    assert Join([b, c], "_") == b + "_" + c by {
      assert [b, c][1..] == [c];
    }
    assert Join([a, b, c], "_") == a + "_" + (b + "_" + c);
  }

  /** A well-formed locale written out and read back is the same locale. */
  lemma LocaleRoundTrip(l: Locale, defaultLocale: Locale)
    requires WellFormedLocale(l)
    ensures DeserializeLocale(Some(SerializeLocale(Some(l), defaultLocale)), defaultLocale) == l
  {
    var t := LocaleToString(l);
    if l.variant != "" {
      JoinThree(l.language, l.country, l.variant);
      assert t == l.language + "_" + l.country + "_" + l.variant;
      SplitUnderscore([l.language, l.country, l.variant]);
    } else if l.country != "" {
      assert t == Join([l.language, l.country], "_");
      SplitUnderscore([l.language, l.country]);
    } else {
      assert t == l.language;
      assert !Contains(t, "_") by {
        ContainsChar(t, '_');
      }
    }
  }

  /** A locale with only a variant is written as the empty text and comes back without its
      variant. */
  lemma VariantAloneLost(variant: string, defaultLocale: Locale)
    requires variant != ""
    ensures SerializeLocale(Some(Locale("", "", variant)), defaultLocale) == ""
    ensures DeserializeLocale(Some(""), defaultLocale) == Locale("", "", "")
  {
    assert !Contains("", "_");
  }

  /** Text with more than two `_` between non-empty pieces is taken whole, lower-cased, as the
      language. */
  lemma FourPartsIsLanguage(a: string, b: string, c: string, d: string, defaultLocale: Locale)
    requires d != "" && '_' !in a && '_' !in b && '_' !in c && '_' !in d
    ensures var t := a + "_" + b + "_" + c + "_" + d;
            DeserializeLocale(Some(t), defaultLocale) == Locale(ToLower(t), "", "")
  {
    var parts := [a, b, c, d];
    SplitUnderscore(parts);
    JoinThree(b, c, d);
    assert ToUpper("") == "";
    assert parts[1..] == [b, c, d];
    assert Join(parts, "_") == a + "_" + (b + "_" + c + "_" + d);
    var t := a + "_" + b + "_" + c + "_" + d;
    assert Join(parts, "_") == t;
    assert |JavaSplit(t, "_")| == 4;
  }
}
