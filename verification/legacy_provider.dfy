/** The properties-file message provider: a language file is reconciled with the registered
    messages (missing entries get their defaults, entries with the wrong number of `%s` are
    reset, unregistered entries are pruned), and lookups are `&`-translated and formatted. */
module LegacyMessageProvider {
  import opened Wrappers
  import opened Strings
  import MessageValues
  import ChatColors

  /** A language file: key to text. */
  type Language = map<string, string>

  /** What the registry knows of a key: its default text and its argument count. */
  datatype Registered = Registered(default: string, argCount: nat)

  type Registrations = map<string, Registered>

  /** Whether the entry for `k` must be (re)written with the default. */
  predicate NeedsDefault(language: Language, reg: Registrations, k: string)
    requires k in reg
  {
    k !in language || MessageValues.CountArgs(language[k]) != reg[k].argCount
  }

  /** One iteration of the reconciliation loop, for registered key `k`. */
  function RepairKey(language: Language, reg: Registrations, k: string): (r: Language)
    requires k in reg
    ensures r.Keys == language.Keys + {k}
    ensures forall j :: j in language && j != k ==> r[j] == language[j]
    ensures NeedsDefault(language, reg, k) ==> r[k] == reg[k].default
    ensures !NeedsDefault(language, reg, k) ==> r[k] == language[k]
  {
    if NeedsDefault(language, reg, k) then language[k := reg[k].default] else language
  }

  /** The reconciled file as a whole: the reference the loop is proved against. */
  function Repaired(language: Language, reg: Registrations): Language {
    map k | k in language.Keys + reg.Keys ::
      if k in reg && NeedsDefault(language, reg, k) then reg[k].default else language[k]
  }

  /** The reconciliation steps for `order`, applied left to right. */
  function RepairAll(language: Language, reg: Registrations, order: seq<string>): Language
    requires forall i :: 0 <= i < |order| ==> order[i] in reg
  {
    if |order| == 0 then language
    else RepairKey(RepairAll(language, reg, order[..|order| - 1]), reg, order[|order| - 1])
  }

  /** Over distinct registered keys, the steps touch each listed key once, reading the
      file's original entry, and leave every other entry alone. */
  lemma {:induction false} RepairAllSpec(language: Language, reg: Registrations, order: seq<string>)
    requires forall i :: 0 <= i < |order| ==> order[i] in reg
    requires forall i, j :: 0 <= i < j < |order| ==> order[i] != order[j]
    ensures forall k :: k in RepairAll(language, reg, order) <==> k in language || k in order
    ensures forall k :: k in language && k !in order ==> RepairAll(language, reg, order)[k] == language[k]
    ensures forall k :: k in order ==>
              RepairAll(language, reg, order)[k] == Repaired(language, reg)[k]
  {
    if |order| > 0 {
      var front := order[..|order| - 1];
      var k := order[|order| - 1];
      assert order == front + [k];
      RepairAllSpec(language, reg, front);
    }
  }

  /** Over an enumeration of all registered keys, the steps give the reconciled file. */
  lemma RepairAllComplete(language: Language, reg: Registrations, order: seq<string>)
    requires forall i :: 0 <= i < |order| ==> order[i] in reg
    requires forall k :: k in reg ==> k in order
    requires forall i, j :: 0 <= i < j < |order| ==> order[i] != order[j]
    ensures RepairAll(language, reg, order) == Repaired(language, reg)
  {
    RepairAllSpec(language, reg, order);
    var got := RepairAll(language, reg, order);
    var want := Repaired(language, reg);
    assert got.Keys == want.Keys;
    forall k | k in got ensures got[k] == want[k] {
      if k !in order {
        assert k !in reg;
      }
    }
  }

  /** `getProperties`: the loop over the registered keys, in the registry's order. */
  method GetProperties(language: Language, reg: Registrations, order: seq<string>) returns (r: Language)
    requires forall i :: 0 <= i < |order| ==> order[i] in reg
    requires forall k :: k in reg ==> k in order
    requires forall i, j :: 0 <= i < j < |order| ==> order[i] != order[j]
    ensures r == Repaired(language, reg)
  {
    r := language;
    var i := 0;
    while i < |order|
      invariant 0 <= i <= |order|
      invariant r == RepairAll(language, reg, order[..i])
    {
      assert order[..i + 1][..i] == order[..i];
      r := RepairKey(r, reg, order[i]);
      i := i + 1;
    }
    assert order[..i] == order;
    RepairAllComplete(language, reg, order);
  }

  /** `pruneLanguage`: entries whose key is not registered are removed. */
  function Prune(language: Language, reg: Registrations): (r: Language)
    ensures r.Keys == language.Keys * reg.Keys
    ensures forall k :: k in r ==> r[k] == language[k]
  {
    map k | k in language && k in reg :: language[k]
  }

  /** What the constructor leaves in memory (and stores back): repaired, then pruned. */
  function Load(language: Language, reg: Registrations): Language {
    Prune(Repaired(language, reg), reg)
  }

  /** After loading, the file holds exactly the registered keys; each entry keeps the file's
      text when its `%s` count was right and is the default otherwise. */
  lemma LoadContents(language: Language, reg: Registrations, k: string)
    ensures Load(language, reg).Keys == reg.Keys
    ensures k in reg && k in language && MessageValues.CountArgs(language[k]) == reg[k].argCount
            ==> Load(language, reg)[k] == language[k]
    ensures k in reg && (k !in language || MessageValues.CountArgs(language[k]) != reg[k].argCount)
            ==> Load(language, reg)[k] == reg[k].default
  {
  }

  /** A registration whose count is that of its own default, as every message constructs. */
  predicate Consistent(reg: Registrations) {
    forall k :: k in reg ==> reg[k].argCount == MessageValues.CountArgs(reg[k].default)
  }

  /** Loading an already loaded file changes nothing. */
  lemma LoadIdempotent(language: Language, reg: Registrations)
    ensures Load(Load(language, reg), reg) == Load(language, reg)
  {
    var once := Load(language, reg);
    var twice := Load(once, reg);
    assert twice.Keys == once.Keys;
    forall k | k in once ensures twice[k] == once[k] {
      if NeedsDefault(once, reg, k) {
        assert once[k] == reg[k].default;
      }
    }
  }

  /** With consistent registrations, every entry of a loaded file holds exactly as many
      `%s` as its message expects. */
  lemma LoadedCounts(language: Language, reg: Registrations, k: string)
    requires Consistent(reg) && k in reg
    ensures MessageValues.CountArgs(Load(language, reg)[k]) == reg[k].argCount
  {
  }

  /** `_getMessage`: the stored text, or "" when the key has no entry. */
  function GetMessage(language: Language, key: string): (r: string)
    ensures key in language ==> r == language[key]
    ensures key !in language ==> r == ""
  {
    if key in language then language[key] else ""
  }

  /** `format`: `&` codes are translated, then the locale formatter is applied; when it
      rejects the template, the translated template is returned unformatted. */
  function Format(fmt: (string, seq<string>) -> Option<string>, s: string, args: seq<string>): (r: string)
    ensures var t := ChatColors.TranslateAlternateColorCodes('&', s);
            fmt(t, args).Some? ==> r == fmt(t, args).value
    ensures var t := ChatColors.TranslateAlternateColorCodes('&', s);
            fmt(t, args).None? ==> r == t && |r| == |s|
  {
    var t := ChatColors.TranslateAlternateColorCodes('&', s);
    match fmt(t, args)
    case Some(formatted) => formatted
    case None => t
  }

  /** A template the formatter rejects comes back translated: same length, and every `&`
      followed by a code character is turned into the colour character. */
  lemma FormatFallback(fmt: (string, seq<string>) -> Option<string>, s: string, args: seq<string>, j: int)
    requires fmt(ChatColors.TranslateAlternateColorCodes('&', s), args).None?
    requires 0 <= j < |s|
    ensures var r := Format(fmt, s, args);
            |r| == |s| && ChatColors.TranslatedAt('&', s, r, j)
  {
    ChatColors.TranslatePairs('&', s);
  }

  /** `getLocalizedMessage`. */
  function GetLocalizedMessage(fmt: (string, seq<string>) -> Option<string>, language: Language,
                               key: string, args: seq<string>): (r: string)
    ensures key in language ==> r == Format(fmt, language[key], args)
    ensures key !in language ==> r == Format(fmt, "", args)
    ensures key !in language && fmt("", args).None? ==> r == ""
  {
    Format(fmt, GetMessage(language, key), args)
  }
}
