/** Converting an amount of seconds to and from its short (`5d 1h 15m 32s`) and long
    (`5 days 1 hour 15 minutes 32 seconds`) text forms, with Java `long` arithmetic. */
module TimeTools {
  import opened Wrappers
  import opened Strings

  // ---------------------------------------------------------------------------
  // Java integer division
  // ---------------------------------------------------------------------------

  /** Java's `/` with a positive divisor: the quotient is truncated toward zero. */
  function Quot(a: int, b: int): (q: int)
    requires b > 0
    ensures a >= 0 ==> 0 <= q && q * b <= a < q * b + b
    ensures a <= 0 ==> q <= 0 && q * b - b < a <= q * b
  {
    if a >= 0 then a / b else -((-a) / b)
  }

  /** Java's `%` with a positive divisor: the remainder takes the sign of the dividend. */
  function Rem(a: int, b: int): (r: int)
    requires b > 0
    ensures a == b * Quot(a, b) + r
    ensures a >= 0 ==> 0 <= r < b
    ensures a <= 0 ==> -b < r <= 0
  {
    a - b * Quot(a, b)
  }

  /** Days, hours, minutes and seconds, as both renderings compute them. */
  datatype Parts = Parts(day: int, hour: int, minute: int, second: int)

  /** The breakdown at the top of `toShortForm` and `toLongForm`: the parts add back up to
      the amount, every part below the day is smaller than its unit, and all parts share
      the amount's sign. */
  function Breakdown(n: int): (p: Parts)
    ensures p.day * 86400 + p.hour * 3600 + p.minute * 60 + p.second == n
    ensures -24 < p.hour < 24 && -60 < p.minute < 60 && -60 < p.second < 60
    ensures n >= 0 ==> p.day >= 0 && p.hour >= 0 && p.minute >= 0 && p.second >= 0
    ensures n <= 0 ==> p.day <= 0 && p.hour <= 0 && p.minute <= 0 && p.second <= 0
    ensures n == 0 <==> p == Parts(0, 0, 0, 0)
  {
    var minutes := Quot(n, 60);
    var hours := Quot(minutes, 60);
    Parts(Quot(hours, 24), Rem(hours, 24), Rem(minutes, 60), Rem(n, 60))
  }

  // ---------------------------------------------------------------------------
  // Rendering
  // ---------------------------------------------------------------------------

  /** One part followed by its unit, or nothing when the part is zero. */
  function Segment(v: int, unit: string): string {
    if v != 0 then IntToString(v) + unit else ""
  }

  /** `toShortForm`. As written the first segment, guarded by a non-zero day count, prints
      the hour count with the hour unit; `asWritten == false` prints the day count with the
      day unit instead. */
  function ShortForm(n: int, asWritten: bool): (r: string)
    ensures n == 0 ==> r == "0s"
    ensures |r| == 0 || (!IsBlank(r[0]) && !IsBlank(r[|r| - 1]))
  {
    if n == 0 then "0s" else ShortText(Breakdown(n), asWritten)
  }

  /** The short form of a non-zero amount from its parts. */
  function ShortText(p: Parts, asWritten: bool): string {
    var first := if p.day == 0 then "" else if asWritten then IntToString(p.hour) + "h " else IntToString(p.day) + "d ";
    Trim(first + Segment(p.hour, "h ") + Segment(p.minute, "m ") + Segment(p.second, "s"))
  }

  /** `toShortForm` as written: below a day it prints what the corrected form prints. */
  function ToShortForm(n: int): (r: string)
    ensures Breakdown(n).day == 0 ==> r == ToShortFormFixed(n)
  {
    ShortForm(n, true)
  }

  function ToShortFormFixed(n: int): string {
    ShortForm(n, false)
  }

  /** A part followed by its unit word, singular for one and plural above one; a negative
      part prints its number with no word. */
  function Worded(v: int, one: string, many: string): string {
    (if v != 0 then IntToString(v) else "") + (if v == 1 then one else if v > 1 then many else "")
  }

  /** `toLongForm`. */
  function ToLongForm(n: int): (r: string)
    ensures n == 0 ==> r == "0 seconds"
    ensures |r| == 0 || (!IsBlank(r[0]) && !IsBlank(r[|r| - 1]))
  {
    if n == 0 then "0 seconds" else LongText(Breakdown(n))
  }

  /** The long form of a non-zero amount from its parts. */
  function LongText(p: Parts): string {
    Trim(Worded(p.day, " day ", " days ") + Worded(p.hour, " hour ", " hours ")
         + Worded(p.minute, " minute ", " minutes ") + Worded(p.second, " second", " seconds"))
  }

  /** The singular and plural unit words: below a minute, the long form is the count and
      `second` or `seconds`. */
  lemma LongFormSeconds(n: int)
    requires 0 < n < 60
    ensures ToLongForm(n) == IntToString(n) + (if n == 1 then " second" else " seconds")
  {
    SmallBreakdown(n);
    SecondsText(n);
  }

  lemma SmallBreakdown(n: int)
    requires 0 <= n < 60
    ensures Breakdown(n) == Parts(0, 0, 0, n)
  {
    var q := Quot(n, 60);
    assert q == 0;
    assert Rem(n, 60) == n;
    assert Quot(0, 60) == 0 && Rem(0, 60) == 0;
    assert Quot(0, 24) == 0 && Rem(0, 24) == 0;
  }

  lemma SecondsText(n: int)
    requires 0 < n
    ensures LongText(Parts(0, 0, 0, n)) == IntToString(n) + (if n == 1 then " second" else " seconds")
  {
    var x := IntToString(n) + (if n == 1 then " second" else " seconds");
    assert Worded(0, " day ", " days ") + Worded(0, " hour ", " hours ")
           + Worded(0, " minute ", " minutes ") + Worded(n, " second", " seconds") == x + "";
    TrimAround(x, "");
  }

  // ---------------------------------------------------------------------------
  // Parsing
  // ---------------------------------------------------------------------------

  /** The exceptions the parsers let out: `ParseException` when no part was read, and the
      `ArrayIndexOutOfBoundsException` of indexing a split that came out too short. */
  datatype TimeError = InvalidFormat | IndexOutOfBounds

  /** One stage of a parser: the unit names it looks for, in order (`days` before `day`),
      the delimiter it reads the number before for each, and the unit's weight in seconds. */
  datatype Unit = Unit(keys: seq<string>, readKeys: seq<string>, weight: int)

  predicate ValidUnit(u: Unit) {
    |u.keys| == |u.readKeys| > 0
    && (forall i :: 0 <= i < |u.keys| ==> |u.keys[i]| > 0)
    && (forall i :: 0 <= i < |u.readKeys| ==> |u.readKeys[i]| > 0)
    && u.weight > 0
  }

  predicate ValidUnits(units: seq<Unit>) {
    forall j :: 0 <= j < |units| ==> ValidUnit(units[j])
  }

  /** `fromShortForm` as written: the hour stage reads the number before `d`. */
  const SHORT_AS_WRITTEN: seq<Unit> := [
    Unit(["d"], ["d"], 86400), Unit(["h"], ["d"], 3600), Unit(["m"], ["m"], 60), Unit(["s"], ["s"], 1)]

  /** `fromShortForm` with the hour stage reading the number before `h`. */
  const SHORT: seq<Unit> := [
    Unit(["d"], ["d"], 86400), Unit(["h"], ["h"], 3600), Unit(["m"], ["m"], 60), Unit(["s"], ["s"], 1)]

  /** `fromLongForm`: each stage tries the plural name, then the singular. */
  const LONG: seq<Unit> := [
    Unit(["days", "day"], ["days", "day"], 86400), Unit(["hours", "hour"], ["hours", "hour"], 3600),
    Unit(["minutes", "minute"], ["minutes", "minute"], 60),
    Unit(["seconds", "second"], ["seconds", "second"], 1)]

  /** The first of the names the text contains. */
  function FirstKey(s: string, keys: seq<string>): (r: Option<nat>)
    ensures r.Some? ==> r.value < |keys| && Contains(s, keys[r.value])
                        && forall j :: 0 <= j < r.value ==> !Contains(s, keys[j])
    ensures r.None? ==> forall j :: 0 <= j < |keys| ==> !Contains(s, keys[j])
  {
    if |keys| == 0 then None
    else if Contains(s, keys[0]) then Some(0)
    else match FirstKey(s, keys[1..])
      case None => None
      case Some(i) => Some(i + 1)
  }

  /** Whether the text names any of the later units, which decides whether a stage cuts the
      text after its own unit. */
  predicate AnyContains(s: string, keys: seq<string>) {
    exists j :: 0 <= j < |keys| && Contains(s, keys[j])
  }

  /** The names of all the given units. */
  function Follow(units: seq<Unit>): (r: seq<string>)
  {
    if |units| == 0 then []
    else units[0].keys + Follow(units[1..])
  }

  /** What a stage leaves: the text the later stages see and the number it read, if any. */
  datatype Step = Step(rest: string, value: Option<int>)

  /** One stage: when the text names the unit, the number before the read delimiter (spaces
      removed, as `Integer.parseInt` reads it; a failure is ignored), then, when a later unit
      is named too, the text after the unit's name. */
  function Stage(s: string, u: Unit, follow: seq<string>): (r: Result<Step, TimeError>)
    requires ValidUnit(u)
    ensures r.Success? && FirstKey(s, u.keys).None? ==> r.value == Step(s, None)
    ensures r.Success? && r.value.value.Some? ==> INT_MIN <= r.value.value.value <= INT_MAX
  {
    match FirstKey(s, u.keys)
    case None => Success(Step(s, None))
    case Some(i) =>
      var read := JavaSplit(s, u.readKeys[i]);
      if |read| == 0 then Failure(IndexOutOfBounds)
      else
        var v := ParseInt(Remove(read[0], ' '));
        if AnyContains(s, follow) then
          var cut := JavaSplit(s, u.keys[i]);
          if |cut| < 2 then Failure(IndexOutOfBounds) else Success(Step(cut[1], v))
        else Success(Step(s, v))
  }

  /** The sum of the weights of the given units. */
  function Weights(units: seq<Unit>): int {
    if |units| == 0 then 0 else units[0].weight + Weights(units[1..])
  }

  /** The total read so far and whether any number was read. */
  datatype Reading = Reading(total: int, valid: bool)

  /** What a stage adds to the total: the number read times the unit's weight. */
  function Amount(value: Option<int>, weight: int): int {
    if value.Some? then value.value * weight else 0
  }

  /** The reading after one stage: its amount added, and valid when it or a later one read. */
  function AddStage(step: Step, weight: int, rd: Reading): Reading {
    Reading(Amount(step.value, weight) + rd.total, step.value.Some? || rd.valid)
  }

  /** All stages in order, each on the text the previous one left. */
  function Scan(s: string, units: seq<Unit>): (r: Result<Reading, TimeError>)
    requires ValidUnits(units)
    decreases |units|
  {
    if |units| == 0 then Success(Reading(0, false))
    else
      match Stage(s, units[0], Follow(units[1..]))
      case Failure(e) => Failure(e)
      case Success(step) =>
        match Scan(step.rest, units[1..])
        case Failure(e) => Failure(e)
        case Success(rd) =>
          Success(AddStage(step, units[0].weight, rd))
  }

  /** The total is the weighted sum of `int` values, so it stays within the unit weights times
      the `int` range, and the `long` sum never overflows. */
  lemma {:induction false} ScanBounds(s: string, units: seq<Unit>)
    requires ValidUnits(units)
    ensures Scan(s, units).Success? ==>
              INT_MIN * Weights(units) <= Scan(s, units).value.total <= INT_MAX * Weights(units)
    decreases |units|
  {
    if |units| > 0 && Scan(s, units).Success? {
      var step := Stage(s, units[0], Follow(units[1..])).value;
      assert ValidUnits(units[1..]);
      ScanBounds(step.rest, units[1..]);
      ScaledBounds(if step.value.Some? then step.value.value else 0, units[0].weight);
    }
  }

  lemma ScaledBounds(v: int, w: int)
    requires INT_MIN <= v <= INT_MAX && w > 0
    ensures INT_MIN * w <= v * w <= INT_MAX * w
  {
    MulNonNegative(v - INT_MIN, w);
    MulNonNegative(INT_MAX - v, w);
  }

  lemma MulNonNegative(a: int, b: int)
    requires a >= 0 && b >= 0
    ensures a * b >= 0
  {
  }

  /** Both parsers: a failed stage propagates, and a text in which no number was read is a
      `ParseException`. */
  function FromForm(s: string, units: seq<Unit>): (r: Result<int, TimeError>)
    requires ValidUnits(units)
    ensures r.Success? ==> INT_MIN * Weights(units) <= r.value <= INT_MAX * Weights(units)
  {
    ScanBounds(s, units);
    match Scan(s, units)
    case Failure(e) => Failure(e)
    case Success(rd) => if rd.valid then Success(rd.total) else Failure(InvalidFormat)
  }

  /** Stages that read a number give their total. */
  lemma FormRead(s: string, units: seq<Unit>, total: int)
    requires ValidUnits(units) && Scan(s, units) == Success(Reading(total, true))
    ensures FromForm(s, units) == Success(total)
  {
  }

  /** Stages that read nothing give a `ParseException`. */
  lemma FormUnread(s: string, units: seq<Unit>, total: int)
    requires ValidUnits(units) && Scan(s, units) == Success(Reading(total, false))
    ensures FromForm(s, units) == Failure(InvalidFormat)
  {
  }

  function FromShortForm(s: string): Result<int, TimeError> {
    FromForm(s, SHORT_AS_WRITTEN)
  }

  function FromShortFormFixed(s: string): Result<int, TimeError> {
    FromForm(s, SHORT)
  }

  function FromLongForm(s: string): Result<int, TimeError> {
    FromForm(s, LONG)
  }

  /** The largest magnitude a parsed amount can reach stays far inside the `long` range. */
  lemma ParsedFitsLong(s: string)
    ensures FromShortForm(s).Success? ==> LONG_MIN <= FromShortForm(s).value <= LONG_MAX
    ensures FromShortFormFixed(s).Success? ==> LONG_MIN <= FromShortFormFixed(s).value <= LONG_MAX
    ensures FromLongForm(s).Success? ==> LONG_MIN <= FromLongForm(s).value <= LONG_MAX
  {
    UnitWeights();
    AsWrittenValid();
    ShortLetters();
    LongValid();
    FormFitsLong(s, SHORT_AS_WRITTEN);
    FormFitsLong(s, SHORT);
    FormFitsLong(s, LONG);
  }

  /** Each parser's weights add up to a day, an hour, a minute and a second. */
  lemma UnitWeights()
    ensures Weights(SHORT_AS_WRITTEN) == 90061 && Weights(SHORT) == 90061 && Weights(LONG) == 90061
  {
  }

  lemma FormFitsLong(s: string, units: seq<Unit>)
    requires ValidUnits(units) && Weights(units) == 90061
    ensures FromForm(s, units).Success? ==> LONG_MIN <= FromForm(s, units).value <= LONG_MAX
  {
  }

  /** The reading is marked valid whenever its total is not 0: a text in which no stage read a
      number totals 0. */
  lemma {:induction false} ScanUnreadZero(s: string, units: seq<Unit>)
    requires ValidUnits(units)
    ensures Scan(s, units).Success? && !Scan(s, units).value.valid ==> Scan(s, units).value.total == 0
    decreases |units|
  {
    if |units| > 0 && Scan(s, units).Success? {
      var step := Stage(s, units[0], Follow(units[1..])).value;
      ScanUnreadZero(step.rest, units[1..]);
    }
  }

  /** A text that names no unit at all reads as nothing. */
  lemma {:induction false} ScanNoKeys(s: string, units: seq<Unit>)
    requires ValidUnits(units)
    requires forall k :: k in Follow(units) ==> !Contains(s, k)
    ensures Scan(s, units) == Success(Reading(0, false))
    decreases |units|
  {
    if |units| > 0 {
      assert Follow(units) == units[0].keys + Follow(units[1..]);
      assert FirstKey(s, units[0].keys) == None;
      ScanNoKeys(s, units[1..]);
    }
  }

  // ---------------------------------------------------------------------------
  // The short form read back
  // ---------------------------------------------------------------------------

  /** Units named by single distinct letters that are neither digits, minus signs nor
      blanks, each read at its own letter. */
  predicate LetterUnits(units: seq<Unit>, keys: string) {
    && |units| == |keys|
    && (forall j :: 0 <= j < |units| ==> units[j].keys == [[keys[j]]] && units[j].readKeys == [[keys[j]]]
                                         && units[j].weight > 0)
    && (forall j :: 0 <= j < |keys| ==> !IsDigit(keys[j]) && keys[j] != '-' && !IsBlank(keys[j]))
    && (forall j, k :: 0 <= j < k < |keys| ==> keys[j] != keys[k])
  }

  /** The trimmed rendering of the parts from `i` on: each non-zero part with its letter,
      separated by single spaces. */
  function Render(vals: seq<int>, keys: string, i: nat): string
    requires |vals| == |keys| && i <= |vals|
    decreases |vals| - i
  {
    if i == |vals| then ""
    else
      var rest := Render(vals, keys, i + 1);
      if vals[i] == 0 then rest
      else IntToString(vals[i]) + [keys[i]] + (if rest == "" then "" else " " + rest)
  }

  /** A character the rendering from `i` on may hold: a digit, a minus sign, a space or the
      letter of a part from `i` on. */
  predicate RenderChar(c: char, keys: string, i: nat) {
    IsDigit(c) || c == '-' || c == ' ' || exists j :: i <= j < |keys| && c == keys[j]
  }

  /** Every character of `s` is one the rendering from `i` on may hold. */
  predicate RenderedFrom(s: string, keys: string, i: nat) {
    forall k :: 0 <= k < |s| ==> RenderChar(s[k], keys, i)
  }

  /** What the rendering is made of: digits, minus signs, spaces and the letters of the
      non-zero parts. */
  lemma {:induction false} RenderChars(vals: seq<int>, keys: string, i: nat)
    requires |vals| == |keys| && i <= |vals|
    ensures RenderedFrom(Render(vals, keys, i), keys, i)
    decreases |vals| - i
  {
    if i < |vals| {
      RenderChars(vals, keys, i + 1);
      if vals[i] != 0 {
        RenderCharsStep(vals, keys, i);
      } else {
        assert Render(vals, keys, i) == Render(vals, keys, i + 1);
        RenderedWiden(Render(vals, keys, i), keys, i);
      }
    }
  }

  lemma RenderedWiden(s: string, keys: string, i: nat)
    requires RenderedFrom(s, keys, i + 1)
    ensures RenderedFrom(s, keys, i)
  {
    forall k | 0 <= k < |s| ensures RenderChar(s[k], keys, i) {
      RenderCharWiden(s[k], keys, i);
    }
  }

  lemma RenderCharWiden(c: char, keys: string, i: nat)
    requires RenderChar(c, keys, i + 1)
    ensures RenderChar(c, keys, i)
  {
    if !(IsDigit(c) || c == '-' || c == ' ') {
      var j :| i + 1 <= j < |keys| && c == keys[j];
    }
  }

  /** The step of the above for a non-zero part: its number, its letter, and the rest. */
  lemma RenderCharsStep(vals: seq<int>, keys: string, i: nat)
    requires |vals| == |keys| && i < |vals| && vals[i] != 0
    requires RenderedFrom(Render(vals, keys, i + 1), keys, i + 1)
    ensures RenderedFrom(Render(vals, keys, i), keys, i)
  {
    var rest := Render(vals, keys, i + 1);
    var num := IntToString(vals[i]);
    RenderedWiden(rest, keys, i);
    var tail := if rest == "" then "" else " " + rest;
    assert RenderedFrom(tail, keys, i) by {
      if rest != "" {
        forall k | 0 <= k < |tail| ensures RenderChar(tail[k], keys, i) {
          if k > 0 { assert tail[k] == rest[k - 1]; }
        }
      }
    }
    assert RenderedFrom(num + [keys[i]], keys, i) by {
      forall k | 0 <= k < |num| + 1 ensures RenderChar((num + [keys[i]])[k], keys, i) {
        if k == |num| { assert RenderChar(keys[i], keys, i); }
      }
    }
    assert Render(vals, keys, i) == num + [keys[i]] + tail;
    RenderedConcat(num + [keys[i]], tail, keys, i);
  }

  lemma RenderedConcat(a: string, b: string, keys: string, i: nat)
    requires RenderedFrom(a, keys, i) && RenderedFrom(b, keys, i)
    ensures RenderedFrom(a + b, keys, i)
  {
    forall k | 0 <= k < |a + b| ensures RenderChar((a + b)[k], keys, i) {
      if k >= |a| { assert (a + b)[k] == b[k - |a|]; }
    }
  }

  /** The rendering is empty exactly when every part is zero; otherwise it starts with a
      visible character and ends with a letter. */
  predicate RenderEndsAt(vals: seq<int>, keys: string, i: nat)
    requires |vals| == |keys| && i <= |vals|
  {
    var r := Render(vals, keys, i);
    && (r == "" <==> !AnyNonZero(vals, i))
    && (r != "" ==> !IsBlank(r[0]) && exists j :: i <= j < |keys| && r[|r| - 1] == keys[j])
  }

  lemma {:induction false} RenderEnds(vals: seq<int>, keys: string, i: nat)
    requires |vals| == |keys| && i <= |vals|
    ensures RenderEndsAt(vals, keys, i)
    decreases |vals| - i, 1
  {
    if i < |vals| {
      RenderEndsFrom(vals, keys, i);
    }
  }

  lemma {:induction false} RenderEndsFrom(vals: seq<int>, keys: string, i: nat)
    requires |vals| == |keys| && i < |vals|
    ensures RenderEndsAt(vals, keys, i)
    decreases |vals| - i, 0
  {
    RenderEnds(vals, keys, i + 1);
    if vals[i] == 0 {
      RenderEndsZero(vals, keys, i);
    } else {
      RenderEndsPart(vals, keys, i);
    }
  }

  lemma RenderEndsZero(vals: seq<int>, keys: string, i: nat)
    requires |vals| == |keys| && i < |vals| && vals[i] == 0
    requires RenderEndsAt(vals, keys, i + 1)
    ensures RenderEndsAt(vals, keys, i)
  {
    var r := Render(vals, keys, i);
    assert r == Render(vals, keys, i + 1);
    if r != "" {
      var j :| i + 1 <= j < |keys| && r[|r| - 1] == keys[j];
    }
  }

  lemma RenderEndsPart(vals: seq<int>, keys: string, i: nat)
    requires |vals| == |keys| && i < |vals| && vals[i] != 0
    requires RenderEndsAt(vals, keys, i + 1)
    ensures RenderEndsAt(vals, keys, i)
  {
    var rest := Render(vals, keys, i + 1);
    var r := Render(vals, keys, i);
    var head := IntToString(vals[i]) + [keys[i]];
    var tail := if rest == "" then "" else " " + rest;
    assert r == head + tail;
    assert r[0] == head[0];
    if rest != "" {
      assert r[|r| - 1] == rest[|rest| - 1];
      var j :| i + 1 <= j < |keys| && rest[|rest| - 1] == keys[j];
    } else {
      assert r[|r| - 1] == keys[i];
    }
  }

  /** The rendering before trimming, as `toShortForm` builds it: every non-zero part with its
      letter and a space, except that the last part has no space. */
  function Untrimmed(vals: seq<int>, keys: string, i: nat): string
    requires |vals| == |keys| && i <= |vals|
    decreases |vals| - i
  {
    if i == |vals| then ""
    else Segment(vals[i], [keys[i]] + (if i + 1 < |vals| then " " else "")) + Untrimmed(vals, keys, i + 1)
  }

  /** The space the untrimmed rendering from `i` on carries after the trimmed one. */
  function TrailingSpace(vals: seq<int>, keys: string, i: nat): string
    requires |vals| == |keys| && i <= |vals| && |vals| > 0
  {
    if Render(vals, keys, i) != "" && vals[|vals| - 1] == 0 then " " else ""
  }

  /** Before trimming, the rendering from `i` on is the trimmed one and its trailing space. */
  predicate UntrimmedIsRender(vals: seq<int>, keys: string, i: nat)
    requires |vals| == |keys| && i <= |vals| && |vals| > 0
  {
    Untrimmed(vals, keys, i) == Render(vals, keys, i) + TrailingSpace(vals, keys, i)
  }

  /** Before trimming, the rendering carries one trailing space exactly when the last part is
      zero and an earlier one is not. */
  lemma {:induction false} UntrimmedRender(vals: seq<int>, keys: string, i: nat)
    requires |vals| == |keys| && i <= |vals| && |vals| > 0
    ensures UntrimmedIsRender(vals, keys, i)
    decreases |vals| - i, 1
  {
    if i == |vals| {
      UntrimmedEnd(vals, keys);
    } else {
      UntrimmedFrom(vals, keys, i);
    }
  }

  /** The inductive case of the above. */
  lemma {:induction false} UntrimmedFrom(vals: seq<int>, keys: string, i: nat)
    requires |vals| == |keys| && i < |vals|
    ensures UntrimmedIsRender(vals, keys, i)
    decreases |vals| - i, 0
  {
    UntrimmedRender(vals, keys, i + 1);
    UntrimmedStep(vals, keys, i);
  }

  lemma UntrimmedEnd(vals: seq<int>, keys: string)
    requires |vals| == |keys| && |vals| > 0
    ensures UntrimmedIsRender(vals, keys, |vals|)
  {
    assert Render(vals, keys, |vals|) == "";
  }

  /** One step of the above, from the rendering after `i` to the one from `i`. */
  lemma UntrimmedStep(vals: seq<int>, keys: string, i: nat)
    requires |vals| == |keys| && i < |vals|
    requires UntrimmedIsRender(vals, keys, i + 1)
    ensures UntrimmedIsRender(vals, keys, i)
  {
    if vals[i] == 0 {
      UntrimmedZero(vals, keys, i);
    } else if i + 1 < |vals| {
      UntrimmedMiddle(vals, keys, i);
    } else {
      UntrimmedLast(vals, keys, i);
    }
  }

  /** The step of the above for a zero part, which adds nothing. */
  lemma UntrimmedZero(vals: seq<int>, keys: string, i: nat)
    requires |vals| == |keys| && i < |vals| && vals[i] == 0
    requires UntrimmedIsRender(vals, keys, i + 1)
    ensures UntrimmedIsRender(vals, keys, i)
  {
    assert Untrimmed(vals, keys, i) == Untrimmed(vals, keys, i + 1);
    assert Render(vals, keys, i) == Render(vals, keys, i + 1);
  }

  /** The step of the above for a non-zero last part, which has no space after it. */
  lemma UntrimmedLast(vals: seq<int>, keys: string, i: nat)
    requires |vals| == |keys| && i + 1 == |vals| && vals[i] != 0
    ensures UntrimmedIsRender(vals, keys, i)
  {
    assert Untrimmed(vals, keys, i + 1) == "";
    assert Untrimmed(vals, keys, i) == IntToString(vals[i]) + [keys[i]];
    assert Render(vals, keys, i + 1) == "";
  }

  /** The step of the above for a non-zero part that is not the last. */
  lemma UntrimmedMiddle(vals: seq<int>, keys: string, i: nat)
    requires |vals| == |keys| && i + 1 < |vals| && vals[i] != 0
    requires UntrimmedIsRender(vals, keys, i + 1)
    ensures UntrimmedIsRender(vals, keys, i)
  {
    var head := IntToString(vals[i]) + [keys[i]];
    assert Segment(vals[i], [keys[i]] + " ") == head + " ";
    assert Untrimmed(vals, keys, i) == Segment(vals[i], [keys[i]] + " ") + Untrimmed(vals, keys, i + 1);
    if Render(vals, keys, i + 1) == "" {
      UntrimmedAlone(vals, keys, i, head);
    } else {
      UntrimmedBefore(vals, keys, i, head);
    }
  }

  /** A non-zero part followed only by zero parts keeps its separating space. */
  lemma UntrimmedAlone(vals: seq<int>, keys: string, i: nat, head: string)
    requires |vals| == |keys| && i + 1 < |vals| && vals[i] != 0
    requires head == IntToString(vals[i]) + [keys[i]]
    requires Render(vals, keys, i + 1) == ""
    requires Untrimmed(vals, keys, i + 1) == TrailingSpace(vals, keys, i + 1)
    requires Untrimmed(vals, keys, i) == head + " " + Untrimmed(vals, keys, i + 1)
    ensures Untrimmed(vals, keys, i) == Render(vals, keys, i) + TrailingSpace(vals, keys, i)
  {
    assert vals[|vals| - 1] == 0 by {
      RenderEnds(vals, keys, i + 1);
      AllZero(vals, i + 1);
    }
    assert Render(vals, keys, i) == head;
    assert TrailingSpace(vals, keys, i) == " ";
    assert Untrimmed(vals, keys, i + 1) == "";
  }

  /** A non-zero part followed by a printed one is separated from it by a space. */
  lemma UntrimmedBefore(vals: seq<int>, keys: string, i: nat, head: string)
    requires |vals| == |keys| && i + 1 < |vals| && vals[i] != 0
    requires head == IntToString(vals[i]) + [keys[i]]
    requires Render(vals, keys, i + 1) != ""
    requires Untrimmed(vals, keys, i + 1) == Render(vals, keys, i + 1) + TrailingSpace(vals, keys, i + 1)
    requires Untrimmed(vals, keys, i) == head + " " + Untrimmed(vals, keys, i + 1)
    ensures Untrimmed(vals, keys, i) == Render(vals, keys, i) + TrailingSpace(vals, keys, i)
  {
    var rest := Render(vals, keys, i + 1);
    var sp := TrailingSpace(vals, keys, i + 1);
    var r := Render(vals, keys, i);
    assert r == head + (" " + rest);
    assert TrailingSpace(vals, keys, i) == sp by {
      assert r != "";
    }
    SpaceBetween(head, rest, sp);
  }

  lemma SpaceBetween(head: string, rest: string, sp: string)
    ensures head + " " + (rest + sp) == head + (" " + rest) + sp
  {
  }

  /** The fixed short form of a non-zero amount is the trimmed rendering of its parts. */
  lemma ShortFormRender(n: int)
    requires n != 0
    ensures var p := Breakdown(n);
            ToShortFormFixed(n) == Render([p.day, p.hour, p.minute, p.second], "dhms", 0)
  {
    var p := Breakdown(n);
    assert ToShortFormFixed(n) == ShortText(p, false);
    PartsRender(p);
  }

  lemma PartsRender(p: Parts)
    requires p != Parts(0, 0, 0, 0)
    ensures ShortText(p, false) == Render([p.day, p.hour, p.minute, p.second], "dhms", 0)
  {
    SegmentsRender(p.day, p.hour, p.minute, p.second);
  }

  /** Trimming the four segments leaves the rendering of the four parts. */
  lemma SegmentsRender(d: int, h: int, m: int, s: int)
    requires d != 0 || h != 0 || m != 0 || s != 0
    ensures ShortText(Parts(d, h, m, s), false) == Render([d, h, m, s], "dhms", 0)
  {
    UntrimmedFour(d, h, m, s);
    RenderFourVisible(d, h, m, s);
    TrimUntrimmed([d, h, m, s], "dhms");
  }

  /** Trimming the untrimmed rendering of parts, not all zero, gives the rendering. */
  lemma TrimUntrimmed(vals: seq<int>, keys: string)
    requires |vals| == |keys| && |vals| > 0
    requires var r := Render(vals, keys, 0); r != "" && !IsBlank(r[0]) && !IsBlank(r[|r| - 1])
    ensures Trim(Untrimmed(vals, keys, 0)) == Render(vals, keys, 0)
  {
    UntrimmedRender(vals, keys, 0);
    var sp := TrailingSpace(vals, keys, 0);
    assert forall k :: 0 <= k < |sp| ==> IsBlank(sp[k]);
    TrimAround(Render(vals, keys, 0), sp);
  }

  /** The four segments of the fixed short form, before trimming. */
  lemma UntrimmedFour(d: int, h: int, m: int, s: int)
    ensures Untrimmed([d, h, m, s], "dhms", 0) == Segment(d, "d ") + Segment(h, "h ") + Segment(m, "m ") + Segment(s, "s")
  {
    var vals := [d, h, m, s];
    var sd, sh, sm, ss := Segment(d, "d "), Segment(h, "h "), Segment(m, "m "), Segment(s, "s");
    assert Untrimmed(vals, "dhms", 4) == "";
    assert Untrimmed(vals, "dhms", 3) == ss by {
      assert ["dhms"[3]] + "" == "s";
    }
    assert Untrimmed(vals, "dhms", 2) == sm + ss by {
      assert ["dhms"[2]] + " " == "m ";
    }
    assert Untrimmed(vals, "dhms", 1) == sh + (sm + ss) by {
      assert ["dhms"[1]] + " " == "h ";
    }
    assert Untrimmed(vals, "dhms", 0) == sd + (sh + (sm + ss)) by {
      assert ["dhms"[0]] + " " == "d ";
    }
    Regroup4(sd, sh, sm, ss);
  }

  /** Regrouping four texts, kept apart from the lemma above: stated inline there, it costs the
      solver far more with the literal keys in scope. */
  lemma Regroup4(a: string, b: string, c: string, d: string)
    ensures a + (b + (c + d)) == a + b + c + d
  {
  }

  /** Four parts not all zero render as visible text. */
  lemma RenderFourVisible(d: int, h: int, m: int, s: int)
    requires d != 0 || h != 0 || m != 0 || s != 0
    ensures var r := Render([d, h, m, s], "dhms", 0);
            r != "" && !IsBlank(r[0]) && !IsBlank(r[|r| - 1])
  {
    var vals := [d, h, m, s];
    RenderEnds(vals, "dhms", 0);
    assert AnyNonZero(vals, 0) by {
      if d == 0 && h == 0 && m == 0 {
        assert AnyNonZero(vals, 3);
      } else if d == 0 && h == 0 {
        assert AnyNonZero(vals, 2);
      } else if d == 0 {
        assert AnyNonZero(vals, 1);
      }
    }
  }

  /** The weighted sum of the parts from `i` on. */
  function WeightedSum(vals: seq<int>, units: seq<Unit>, i: nat): int
    requires |vals| == |units| && i <= |vals|
    decreases |vals| - i
  {
    if i == |vals| then 0 else vals[i] * units[i].weight + WeightedSum(vals, units, i + 1)
  }

  /** The names of the units from `i` on are their letters. */
  lemma {:induction false} FollowLetters(units: seq<Unit>, keys: string, i: nat)
    requires LetterUnits(units, keys) && i <= |units|
    ensures forall k :: k in Follow(units[i..]) ==> exists j :: i <= j < |keys| && k == [keys[j]]
    ensures forall j :: i <= j < |keys| ==> [keys[j]] in Follow(units[i..])
    decreases |units| - i
  {
    if i < |units| {
      FollowLetters(units, keys, i + 1);
      assert units[i..][0] == units[i] && units[i..][1..] == units[i + 1..];
      assert Follow(units[i..]) == [[keys[i]]] + Follow(units[i + 1..]);
    } else {
      assert units[i..] == [];
    }
  }

  /** Splitting `a`, a letter and `b` at that letter, when neither side holds it. */
  lemma SplitAtLetter(a: string, c: char, b: string)
    requires |a| > 0 && c !in a && c !in b
    ensures JavaSplit(a + [c] + b, [c]) == if b == "" then [a] else [a, b]
  {
    SplitOnFirst(a, [c], b);
    NotContainsWithoutFirst(b, [c]);
    SplitOnAbsent(b, [c]);
    ContainsChar(a + [c] + b, c);
    assert (a + [c] + b)[|a|] == c;
    var pieces := [a] + [b];
    assert SplitOn(a + [c] + b, [c]) == pieces;
    if b == "" {
      assert pieces[..1] == [a];
      assert DropTrailingEmpty(pieces) == DropTrailingEmpty([a]);
    }
  }

  /** Leading spaces then a rendered number read back as that number. */
  lemma ReadNumber(sp: string, v: int)
    requires forall i :: 0 <= i < |sp| ==> sp[i] == ' '
    requires INT_MIN <= v <= INT_MAX
    ensures ParseInt(Remove(sp + IntToString(v), ' ')) == Some(v)
  {
    RemoveConcat(sp, IntToString(v), ' ');
    RemoveAll(sp, ' ');
    RemoveAbsent(IntToString(v), ' ');
    assert "" + IntToString(v) == IntToString(v);
    ParseIntToString(v, INT_MIN, INT_MAX);
  }

  /** The shared setting of the stage lemmas below: letter units, `int` parts, and a run of
      spaces before the rendering from `i` on. */
  predicate RenderSetting(vals: seq<int>, units: seq<Unit>, keys: string, i: nat, sp: string) {
    && LetterUnits(units, keys) && ValidUnits(units) && |vals| == |units| && i < |vals|
    && (forall j :: 0 <= j < |vals| ==> INT_MIN <= vals[j] <= INT_MAX)
    && (forall j :: 0 <= j < |sp| ==> sp[j] == ' ')
  }

  /** A zero part is skipped: its letter is nowhere in the text. */
  lemma StageZero(vals: seq<int>, units: seq<Unit>, keys: string, i: nat, sp: string)
    requires RenderSetting(vals, units, keys, i, sp) && vals[i] == 0
    ensures Render(vals, keys, i) == Render(vals, keys, i + 1)
    ensures Stage(sp + Render(vals, keys, i), units[i], Follow(units[i + 1..]))
            == Success(Step(sp + Render(vals, keys, i), None))
  {
    var s := sp + Render(vals, keys, i);
    RenderChars(vals, keys, i + 1);
    NotRenderedLater(Render(vals, keys, i + 1), units, keys, i);
    assert keys[i] !in s;
    ContainsChar(s, keys[i]);
    assert FirstKey(s, units[i].keys) == None;
  }

  /** A letter is not among the characters the rendering after its own part may hold. */
  lemma NotRenderedLater(s: string, units: seq<Unit>, keys: string, i: nat)
    requires LetterUnits(units, keys) && i < |keys|
    requires RenderedFrom(s, keys, i + 1)
    ensures keys[i] !in s
  {
    forall k | 0 <= k < |s| ensures s[k] != keys[i] {
      assert RenderChar(s[k], keys, i + 1);
    }
  }

  /** A text without the letters of the units from `lo` on names none of them. */
  lemma NoLetterNoName(s: string, units: seq<Unit>, keys: string, lo: nat)
    requires LetterUnits(units, keys) && lo <= |units|
    requires forall m :: lo <= m < |keys| ==> keys[m] !in s
    ensures forall x :: x in Follow(units[lo..]) ==> !Contains(s, x)
  {
    FollowLetters(units, keys, lo);
    forall x | x in Follow(units[lo..]) ensures !Contains(s, x) {
      var m :| lo <= m < |keys| && x == [keys[m]];
      ContainsChar(s, keys[m]);
    }
  }

  /** A non-zero part followed by nothing names no later unit. */
  lemma LastNamesNoLater(vals: seq<int>, units: seq<Unit>, keys: string, i: nat, sp: string)
    requires RenderSetting(vals, units, keys, i, sp) && vals[i] != 0
    requires Render(vals, keys, i + 1) == ""
    ensures forall k :: k in Follow(units[i + 1..]) ==> !Contains(sp + Render(vals, keys, i), k)
  {
    var s := sp + Render(vals, keys, i);
    assert forall m :: i + 1 <= m < |keys| ==> keys[m] !in s by {
      assert s == sp + IntToString(vals[i]) + [keys[i]];
    }
    NoLetterNoName(s, units, keys, i + 1);
  }

  /** A stage for a one-letter unit on `a`, the letter and `tail`, with the letter only in the
      middle: the number in `a` is read, and the text after the letter is left when a later unit
      is named. */
  lemma StageReads(s: string, u: Unit, follow: seq<string>, a: string, k: char, tail: string, v: int)
    requires ValidUnit(u) && u.keys == [[k]] && u.readKeys == [[k]]
    requires s == a + [k] + tail && |a| > 0 && k !in a && k !in tail
    requires ParseInt(Remove(a, ' ')) == Some(v)
    requires tail != "" <==> AnyContains(s, follow)
    ensures Stage(s, u, follow) == Success(Step(if tail == "" then s else tail, Some(v)))
  {
    assert FirstKey(s, u.keys) == Some(0) by {
      assert s[|a|] == k;
      ContainsChar(s, k);
    }
    SplitAtLetter(a, k, tail);
    if tail != "" {
      assert JavaSplit(s, u.keys[0]) == [a, tail];
    }
  }

  /** The rendering from a non-zero part `i`: the spaces and the number, the letter, and the
      rest behind its space; the letter is in neither side. */
  lemma RenderAt(vals: seq<int>, units: seq<Unit>, keys: string, i: nat, sp: string, a: string, tail: string)
    requires RenderSetting(vals, units, keys, i, sp) && vals[i] != 0
    requires a == sp + IntToString(vals[i])
    requires tail == if Render(vals, keys, i + 1) == "" then "" else " " + Render(vals, keys, i + 1)
    ensures sp + Render(vals, keys, i) == a + [keys[i]] + tail
    ensures |a| > 0 && keys[i] !in a && keys[i] !in tail
    ensures units[i].keys == [[keys[i]]] && units[i].readKeys == [[keys[i]]]
    ensures ParseInt(Remove(a, ' ')) == Some(vals[i])
  {
    RenderChars(vals, keys, i + 1);
    NotRenderedLater(Render(vals, keys, i + 1), units, keys, i);
    RenderHead(vals, keys, i, sp);
    LetterNotInNumber(sp, vals[i], keys[i]);
    ReadNumber(sp, vals[i]);
  }

  /** The rendering from a non-zero part, behind spaces, split at the part's letter. */
  lemma RenderHead(vals: seq<int>, keys: string, i: nat, sp: string)
    requires |vals| == |keys| && i < |vals| && vals[i] != 0
    ensures var rest := Render(vals, keys, i + 1);
            sp + Render(vals, keys, i)
            == (sp + IntToString(vals[i])) + [keys[i]] + (if rest == "" then "" else " " + rest)
  {
    var rest := Render(vals, keys, i + 1);
    var tail := if rest == "" then "" else " " + rest;
    var num := IntToString(vals[i]);
    assert Render(vals, keys, i) == num + [keys[i]] + tail;
    assert sp + (num + [keys[i]] + tail) == (sp + num) + [keys[i]] + tail;
  }

  /** A character that is neither blank, digit nor minus sign is not in spaces and a number. */
  lemma LetterNotInNumber(sp: string, v: int, k: char)
    requires forall j :: 0 <= j < |sp| ==> sp[j] == ' '
    requires !IsDigit(k) && k != '-' && !IsBlank(k)
    ensures k !in sp + IntToString(v) && |sp + IntToString(v)| > 0
  {
    var a := sp + IntToString(v);
    forall j | 0 <= j < |a| ensures a[j] != k {
      if j >= |sp| { assert a[j] == IntToString(v)[j - |sp|]; }
    }
  }

  /** A non-zero part followed by nothing: the number is read and the text kept. */
  lemma StageLast(vals: seq<int>, units: seq<Unit>, keys: string, i: nat, sp: string)
    requires RenderSetting(vals, units, keys, i, sp) && vals[i] != 0
    requires Render(vals, keys, i + 1) == ""
    ensures Stage(sp + Render(vals, keys, i), units[i], Follow(units[i + 1..]))
            == Success(Step(sp + Render(vals, keys, i), Some(vals[i])))
  {
    RenderAt(vals, units, keys, i, sp, sp + IntToString(vals[i]), "");
    LastNamesNoLater(vals, units, keys, i, sp);
    StageReads(sp + Render(vals, keys, i), units[i], Follow(units[i + 1..]),
               sp + IntToString(vals[i]), keys[i], "", vals[i]);
  }

  /** A non-zero part followed by more names a later unit: the rest ends in its letter. */
  lemma MoreNamesLater(vals: seq<int>, units: seq<Unit>, keys: string, i: nat, s: string)
    requires LetterUnits(units, keys) && |vals| == |units| && i < |vals|
    requires Render(vals, keys, i + 1) != ""
    requires |s| > 0 && s[|s| - 1] == Render(vals, keys, i + 1)[|Render(vals, keys, i + 1)| - 1]
    ensures AnyContains(s, Follow(units[i + 1..]))
  {
    var rest := Render(vals, keys, i + 1);
    var follow := Follow(units[i + 1..]);
    RenderEnds(vals, keys, i + 1);
    var m :| i + 1 <= m < |keys| && rest[|rest| - 1] == keys[m];
    assert keys[m] in s by {
      assert s[|s| - 1] == keys[m];
    }
    ContainsChar(s, keys[m]);
    FollowLetters(units, keys, i + 1);
    NamedInFollow(s, follow, [keys[m]]);
  }

  lemma NamedInFollow(s: string, follow: seq<string>, x: string)
    requires x in follow && Contains(s, x)
    ensures AnyContains(s, follow)
  {
    var fj :| 0 <= fj < |follow| && follow[fj] == x;
  }

  /** A non-zero part followed by more: the number is read and the later stages see the
      rest, behind its separating space. */
  lemma StageMore(vals: seq<int>, units: seq<Unit>, keys: string, i: nat, sp: string)
    requires RenderSetting(vals, units, keys, i, sp) && vals[i] != 0
    requires Render(vals, keys, i + 1) != ""
    ensures Stage(sp + Render(vals, keys, i), units[i], Follow(units[i + 1..]))
            == Success(Step(" " + Render(vals, keys, i + 1), Some(vals[i])))
  {
    var s := sp + Render(vals, keys, i);
    var tail := " " + Render(vals, keys, i + 1);
    RenderAt(vals, units, keys, i, sp, sp + IntToString(vals[i]), tail);
    MoreNamesLater(vals, units, keys, i, s);
    StageReads(s, units[i], Follow(units[i + 1..]), sp + IntToString(vals[i]), keys[i], tail, vals[i]);
  }

  /** The stages read the rendering of the parts, behind any run of spaces, back into the
      weighted sum of the parts. */
  lemma {:induction false} ScanRender(vals: seq<int>, units: seq<Unit>, keys: string, i: nat, sp: string)
    requires LetterUnits(units, keys) && ValidUnits(units) && |vals| == |units| && i <= |vals|
    requires forall j :: 0 <= j < |vals| ==> INT_MIN <= vals[j] <= INT_MAX
    requires forall j :: 0 <= j < |sp| ==> sp[j] == ' '
    ensures Scan(sp + Render(vals, keys, i), units[i..])
            == Success(Reading(WeightedSum(vals, units, i), AnyNonZero(vals, i)))
    decreases |vals| - i
  {
    if i == |vals| {
      assert units[i..] == [];
    } else if vals[i] == 0 {
      ScanRender(vals, units, keys, i + 1, sp);
      ScanRenderZero(vals, units, keys, i, sp);
    } else if Render(vals, keys, i + 1) == "" {
      ScanRenderLast(vals, units, keys, i, sp);
    } else {
      ScanRender(vals, units, keys, i + 1, " ");
      ScanRenderMore(vals, units, keys, i, sp);
    }
  }

  /** The units from `i` on: the unit at `i`, then those after it. */
  lemma UnitsFrom(units: seq<Unit>, i: nat)
    requires ValidUnits(units) && i < |units|
    ensures var us := units[i..];
            |us| > 0 && us[0] == units[i] && us[1..] == units[i + 1..] && ValidUnits(us) && ValidUnits(us[1..])
  {
    var us := units[i..];
    assert us[0] == units[i] && us[1..] == units[i + 1..];
    assert forall j :: 0 <= j < |us| ==> us[j] == units[i + j];
  }

  /** The step of `ScanRender` for a zero part. */
  lemma ScanRenderZero(vals: seq<int>, units: seq<Unit>, keys: string, i: nat, sp: string)
    requires RenderSetting(vals, units, keys, i, sp) && vals[i] == 0
    requires Scan(sp + Render(vals, keys, i + 1), units[i + 1..])
             == Success(Reading(WeightedSum(vals, units, i + 1), AnyNonZero(vals, i + 1)))
    ensures Scan(sp + Render(vals, keys, i), units[i..])
            == Success(Reading(WeightedSum(vals, units, i), AnyNonZero(vals, i)))
  {
    var s := sp + Render(vals, keys, i);
    var us := units[i..];
    UnitsFrom(units, i);
    StageZero(vals, units, keys, i, sp);
    ScanCons(s, us, Step(s, None), Reading(WeightedSum(vals, units, i + 1), AnyNonZero(vals, i + 1)));
    assert WeightedSum(vals, units, i) == WeightedSum(vals, units, i + 1);
  }

  /** The step of `ScanRender` for a non-zero part followed only by zero parts. */
  lemma ScanRenderLast(vals: seq<int>, units: seq<Unit>, keys: string, i: nat, sp: string)
    requires RenderSetting(vals, units, keys, i, sp) && vals[i] != 0
    requires Render(vals, keys, i + 1) == ""
    ensures Scan(sp + Render(vals, keys, i), units[i..])
            == Success(Reading(WeightedSum(vals, units, i), AnyNonZero(vals, i)))
  {
    var s := sp + Render(vals, keys, i);
    var us := units[i..];
    UnitsFrom(units, i);
    StageLast(vals, units, keys, i, sp);
    LastNamesNoLater(vals, units, keys, i, sp);
    ScanNoKeys(s, units[i + 1..]);
    RenderEnds(vals, keys, i + 1);
    AllZero(vals, i + 1);
    WeightedSumZero(vals, units, i + 1);
    ScanCons(s, us, Step(s, Some(vals[i])), Reading(0, false));
    assert WeightedSum(vals, units, i) == vals[i] * units[i].weight;
  }

  /** The step of `ScanRender` for a non-zero part followed by more. */
  lemma ScanRenderMore(vals: seq<int>, units: seq<Unit>, keys: string, i: nat, sp: string)
    requires RenderSetting(vals, units, keys, i, sp) && vals[i] != 0
    requires Render(vals, keys, i + 1) != ""
    requires Scan(" " + Render(vals, keys, i + 1), units[i + 1..])
             == Success(Reading(WeightedSum(vals, units, i + 1), AnyNonZero(vals, i + 1)))
    ensures Scan(sp + Render(vals, keys, i), units[i..])
            == Success(Reading(WeightedSum(vals, units, i), AnyNonZero(vals, i)))
  {
    var s := sp + Render(vals, keys, i);
    var us := units[i..];
    UnitsFrom(units, i);
    StageMore(vals, units, keys, i, sp);
    ScanConsRead(s, us, " " + Render(vals, keys, i + 1), vals[i],
                 Reading(WeightedSum(vals, units, i + 1), AnyNonZero(vals, i + 1)), WeightedSum(vals, units, i));
  }

  /** One stage that reads a number, then the rest. */
  lemma ScanConsRead(s: string, units: seq<Unit>, rest: string, v: int, rd: Reading, total: int)
    requires ValidUnits(units) && |units| > 0
    requires Stage(s, units[0], Follow(units[1..])) == Success(Step(rest, Some(v)))
    requires Scan(rest, units[1..]) == Success(rd)
    requires total == v * units[0].weight + rd.total
    ensures Scan(s, units) == Success(Reading(total, true))
  {
    ScanCons(s, units, Step(rest, Some(v)), rd);
    StageRead(rest, v, units[0].weight, rd, total);
  }

  lemma StageRead(rest: string, v: int, w: int, rd: Reading, total: int)
    requires total == v * w + rd.total
    ensures AddStage(Step(rest, Some(v)), w, rd) == Reading(total, true)
  {
  }

  /** One stage, then the rest. */
  lemma ScanCons(s: string, units: seq<Unit>, step: Step, rd: Reading)
    requires ValidUnits(units) && |units| > 0
    requires Stage(s, units[0], Follow(units[1..])) == Success(step)
    requires Scan(step.rest, units[1..]) == Success(rd)
    ensures Scan(s, units) == Success(AddStage(step, units[0].weight, rd))
  {
  }

  /** Whether some part from `i` on is non-zero. */
  predicate AnyNonZero(vals: seq<int>, i: nat)
    decreases |vals| - i
  {
    i < |vals| && (vals[i] != 0 || AnyNonZero(vals, i + 1))
  }

  lemma {:induction false} AllZero(vals: seq<int>, i: nat)
    ensures !AnyNonZero(vals, i) <==> forall j :: i <= j < |vals| ==> vals[j] == 0
    decreases |vals| - i
  {
    if i < |vals| {
      AllZero(vals, i + 1);
    }
  }

  lemma {:induction false} WeightedSumZero(vals: seq<int>, units: seq<Unit>, i: nat)
    requires |vals| == |units| && i <= |vals|
    requires forall j :: i <= j < |vals| ==> vals[j] == 0
    ensures WeightedSum(vals, units, i) == 0
    decreases |vals| - i
  {
    if i < |vals| {
      WeightedSumZero(vals, units, i + 1);
    }
  }

  /** Corrected round trip: reading the fixed short form back gives the amount, for every
      amount whose day count is an `int`. */
  lemma ShortFormRoundTrip(n: int)
    requires INT_MIN <= Breakdown(n).day <= INT_MAX
    ensures FromShortFormFixed(ToShortFormFixed(n)) == Success(n)
  {
    if n == 0 {
      ZeroRoundTrip();
    } else {
      NonZeroRoundTrip(n);
    }
  }

  lemma NonZeroRoundTrip(n: int)
    requires n != 0 && INT_MIN <= Breakdown(n).day <= INT_MAX
    ensures FromShortFormFixed(ToShortFormFixed(n)) == Success(n)
  {
    ShortFormRender(n);
    BreakdownReadsBack(n, Breakdown(n));
  }

  /** `0s` reads back as zero. */
  lemma ZeroRoundTrip()
    ensures FromShortFormFixed("0s") == Success(0)
  {
    var s := "0s";
    ShortLetters();
    ZeroSkips(s);
    ZeroSecondsStage(s);
    ScanLastRead(s, SHORT, 0);
  }

  /** The day, hour and minute letters are missing from `0s`. */
  lemma ZeroSkips(s: string)
    requires s == "0s"
    ensures FirstKey(s, SHORT[0].keys).None? && FirstKey(s, SHORT[1].keys).None?
    ensures FirstKey(s, SHORT[2].keys).None?
  {
    ContainsChar(s, 'd');
    ContainsChar(s, 'h');
    ContainsChar(s, 'm');
  }

  /** The second stage reads `0s` as zero seconds. */
  lemma ZeroSecondsStage(s: string)
    requires s == "0s"
    ensures Stage(s, SHORT[3], []) == Success(Step(s, Some(0)))
  {
    assert FirstKey(s, ["s"]) == Some(0) by {
      ContainsChar(s, 's');
    }
    assert JavaSplit(s, "s") == ["0"] by {
      assert s == "0" + ['s'] + "";
      SplitAtLetter("0", 's', "");
    }
    assert ParseInt(Remove("0", ' ')) == Some(0) by {
      ReadNumber("", 0);
      assert "" + IntToString(0) == "0";
    }
    StageKeeps(s, SHORT[3], [], 0, 0);
  }

  /** A stage that finds its `i`-th name and reads `v` before its delimiter, with no later
      unit named, leaves the text as it is. */
  lemma StageKeeps(s: string, u: Unit, follow: seq<string>, i: nat, v: int)
    requires ValidUnit(u) && FirstKey(s, u.keys) == Some(i)
    requires var read := JavaSplit(s, u.readKeys[i]);
             |read| > 0 && ParseInt(Remove(read[0], ' ')) == Some(v)
    requires forall x :: x in follow ==> !Contains(s, x)
    ensures Stage(s, u, follow) == Success(Step(s, Some(v)))
  {
  }

  /** A stage whose names the text lacks reads nothing and leaves the rest of the scan as it is. */
  lemma ScanSkip(s: string, units: seq<Unit>)
    requires ValidUnits(units) && |units| > 0 && FirstKey(s, units[0].keys).None?
    ensures Scan(s, units) == Scan(s, units[1..])
  {
    assert Stage(s, units[0], Follow(units[1..])) == Success(Step(s, None));
  }

  /** Both short-form parsers look for the four letters in the same order. */
  lemma ShortNames()
    ensures Follow(SHORT) == ["d", "h", "m", "s"]
    ensures Follow(SHORT_AS_WRITTEN) == ["d", "h", "m", "s"]
  {
    FollowTwo(SHORT[2..]);
    assert SHORT[1..][1..] == SHORT[2..];
    assert SHORT_AS_WRITTEN[2..] == SHORT[2..];
    assert SHORT_AS_WRITTEN[1..][1..] == SHORT_AS_WRITTEN[2..];
  }

  lemma AsWrittenValid()
    ensures ValidUnits(SHORT_AS_WRITTEN)
  {
  }

  lemma LongValid()
    ensures ValidUnits(LONG)
  {
  }

  /** `1 second` in the long form is one second. */
  lemma LongFormOneSecond()
    ensures FromLongForm("1 second") == Success(1)
  {
    var s := "1 second";
    LongValid();
    OneSecondSkips(s);
    OneSecondStage(s);
    ScanLastRead(s, LONG, 1);
    assert LONG[3].weight == 1;
  }

  /** Three stages that find none of their names, then a last stage that reads `v`. */
  lemma ScanLastRead(s: string, units: seq<Unit>, v: int)
    requires ValidUnits(units) && |units| == 4
    requires FirstKey(s, units[0].keys).None? && FirstKey(s, units[1].keys).None?
    requires FirstKey(s, units[2].keys).None?
    requires Stage(s, units[3], []) == Success(Step(s, Some(v)))
    ensures Scan(s, units) == Success(Reading(v * units[3].weight, true))
  {
    ScanSkip(s, units);
    assert units[1..][0] == units[1] && units[1..][1..] == units[2..];
    ScanSkip(s, units[1..]);
    assert units[2..][0] == units[2] && units[2..][1..] == units[3..];
    ScanSkip(s, units[2..]);
    var last := units[3..];
    assert last[0] == units[3] && last[1..] == [];
    ScanCons(s, last, Step(s, Some(v)), Reading(0, false));
  }

  /** The day, hour and minute names are missing from `1 second`. */
  lemma OneSecondSkips(s: string)
    requires s == "1 second"
    ensures FirstKey(s, LONG[0].keys).None? && FirstKey(s, LONG[1].keys).None?
    ensures FirstKey(s, LONG[2].keys).None?
  {
    assert 'a' !in s && 'h' !in s && 'm' !in s;
    forall k | k in ["days", "day"] ensures !Contains(s, k) {
      if Contains(s, k) { ContainsChars(s, k, 'a'); }
    }
    forall k | k in ["hours", "hour"] ensures !Contains(s, k) {
      if Contains(s, k) { ContainsChars(s, k, 'h'); }
    }
    forall k | k in ["minutes", "minute"] ensures !Contains(s, k) {
      if Contains(s, k) { ContainsChars(s, k, 'm'); }
    }
  }

  /** The second stage on `1 second`: `seconds` is absent, `second` is found, and the number
      before it is one. */
  lemma OneSecondStage(s: string)
    requires s == "1 second"
    ensures Stage(s, LONG[3], []) == Success(Step(s, Some(1)))
  {
    OneSecondKey(s);
    OneSecondSplit(s);
    ReadsOne();
    StageKeeps(s, LONG[3], [], 1, 1);
  }

  lemma OneSecondKey(s: string)
    requires s == "1 second"
    ensures FirstKey(s, ["seconds", "second"]) == Some(1)
  {
    assert !Contains(s, "seconds") by {
      assert s[..7][0] == '1' && s[1..][..7][0] == ' ';
      assert !StartsWith(s, "seconds");
      assert !StartsWith(s[1..], "seconds");
      if Contains(s[1..][1..], "seconds") { ContainsShorter(s[1..][1..], "seconds"); }
    }
    assert s[2..8] == "second";
    ContainsAt(s, "second", 2);
  }

  lemma OneSecondSplit(s: string)
    requires s == "1 second"
    ensures JavaSplit(s, "second") == ["1 "]
  {
    assert s[2..8] == "second";
    ContainsAt(s, "second", 2);
    assert s == "1 " + "second" + "";
    SplitOnFirst("1 ", "second", "");
    assert SplitOn("", "second") == [""];
    assert DropTrailingEmpty(["1 ", ""]) == DropTrailingEmpty(["1 "]);
  }

  lemma ReadsOne()
    ensures ParseInt(Remove("1 ", ' ')) == Some(1)
  {
    assert Remove("1 ", ' ') == "1";
    ParseIntToString(1, INT_MIN, INT_MAX);
    assert IntToString(1) == "1" by {
      assert NatToString(1) == [DigitChar(1)];
    }
  }

  /** The fixed units are single distinct letters. */
  lemma ShortLetters()
    ensures LetterUnits(SHORT, "dhms") && ValidUnits(SHORT)
  {
  }

  /** The parts of a non-zero amount read back as the amount. */
  lemma BreakdownReadsBack(n: int, p: Parts)
    requires n != 0 && p == Breakdown(n) && INT_MIN <= p.day <= INT_MAX
    ensures FromShortFormFixed(Render([p.day, p.hour, p.minute, p.second], "dhms", 0)) == Success(n)
  {
    PartsRoundTrip(p, n);
  }

  /** The rendering of non-zero parts reads back as their weighted sum. */
  lemma PartsRoundTrip(p: Parts, n: int)
    requires p != Parts(0, 0, 0, 0)
    requires INT_MIN <= p.day <= INT_MAX && -24 < p.hour < 24 && -60 < p.minute < 60 && -60 < p.second < 60
    requires n == p.day * 86400 + p.hour * 3600 + p.minute * 60 + p.second
    ensures FromShortFormFixed(Render([p.day, p.hour, p.minute, p.second], "dhms", 0)) == Success(n)
  {
    var vals := [p.day, p.hour, p.minute, p.second];
    assert AnyNonZero(vals, 0) by {
      if p.day == 0 && p.hour == 0 && p.minute == 0 {
        assert AnyNonZero(vals, 3);
      } else if p.day == 0 && p.hour == 0 {
        assert AnyNonZero(vals, 2);
      } else if p.day == 0 {
        assert AnyNonZero(vals, 1);
      }
    }
    assert WeightedSum(vals, SHORT, 0) == n by {
      WeightedFour(vals, SHORT);
      ShortWeights();
    }
    ShortLetters();
    RenderReadsBack(vals, SHORT, "dhms", n);
  }

  /** The weights of the fixed units, one day down to one second. */
  lemma ShortWeights()
    ensures |SHORT| == 4
    ensures SHORT[0].weight == 86400 && SHORT[1].weight == 3600 && SHORT[2].weight == 60 && SHORT[3].weight == 1
  {
  }

  /** The weighted sum of four parts, written out. */
  lemma WeightedFour(vals: seq<int>, units: seq<Unit>)
    requires |vals| == |units| == 4
    ensures WeightedSum(vals, units, 0)
            == vals[0] * units[0].weight + vals[1] * units[1].weight + vals[2] * units[2].weight + vals[3] * units[3].weight
  {
    assert WeightedSum(vals, units, 3) == vals[3] * units[3].weight;
    assert WeightedSum(vals, units, 2) == vals[2] * units[2].weight + vals[3] * units[3].weight;
    assert WeightedSum(vals, units, 1) == vals[1] * units[1].weight + WeightedSum(vals, units, 2);
  }

  /** The rendering of parts, not all zero, reads back as their weighted sum. */
  lemma RenderReadsBack(vals: seq<int>, units: seq<Unit>, keys: string, n: int)
    requires LetterUnits(units, keys) && ValidUnits(units) && |vals| == |units|
    requires forall j :: 0 <= j < |vals| ==> INT_MIN <= vals[j] <= INT_MAX
    requires AnyNonZero(vals, 0) && n == WeightedSum(vals, units, 0)
    ensures FromForm(Render(vals, keys, 0), units) == Success(n)
  {
    var r := Render(vals, keys, 0);
    ScanRender(vals, units, keys, 0, "");
    assert "" + r == r;
    assert units[0..] == units;
  }

  // ---------------------------------------------------------------------------
  // The two defects, on concrete inputs
  // ---------------------------------------------------------------------------

  /** As written, a whole day renders as `0h`: the hour count under the day guard. */
  lemma ShortFormPrintsHourForDay()
    ensures ToShortForm(86400) == "0h"
    ensures ToShortFormFixed(86400) == "1d"
  {
    assert Breakdown(86400) == Parts(1, 0, 0, 0) by {
      assert Quot(86400, 60) == 1440 && Quot(1440, 60) == 24;
    }
    DayText();
  }

  lemma DayText()
    ensures ShortText(Parts(1, 0, 0, 0), true) == "0h"
    ensures ShortText(Parts(1, 0, 0, 0), false) == "1d"
  {
    SmallNumbers();
    OnlyFirstSegment(Parts(1, 0, 0, 0), true);
    OnlyFirstSegment(Parts(1, 0, 0, 0), false);
  }

  lemma SmallNumbers()
    ensures IntToString(0) == "0" && IntToString(1) == "1"
  {
    assert NatToString(0) == [DigitChar(0)];
    assert NatToString(1) == [DigitChar(1)];
  }

  lemma AppendSpace(a: string, c: char)
    ensures a + [c, ' '] == a + [c] + " "
  {
  }

  /** A whole number of days: only the first segment is printed. */
  lemma OnlyFirstSegment(p: Parts, asWritten: bool)
    requires p.day != 0 && p.hour == 0 && p.minute == 0 && p.second == 0
    ensures ShortText(p, asWritten) == if asWritten then IntToString(0) + "h" else IntToString(p.day) + "d"
  {
    var x := if asWritten then IntToString(0) + "h" else IntToString(p.day) + "d";
    var first := if asWritten then IntToString(p.hour) + "h " else IntToString(p.day) + "d ";
    var u := first + Segment(p.hour, "h ") + Segment(p.minute, "m ") + Segment(p.second, "s");
    assert ShortText(p, asWritten) == Trim(u);
    assert Segment(p.hour, "h ") == "" && Segment(p.minute, "m ") == "" && Segment(p.second, "s") == "";
    assert u == first;
    AppendSpace(if asWritten then IntToString(p.hour) else IntToString(p.day), if asWritten then 'h' else 'd');
    TrimAround(x, " ");
  }

  /** A stage that reads nothing and leaves the text as it is adds nothing to the scan. */
  lemma ScanPass(s: string, units: seq<Unit>)
    requires ValidUnits(units) && |units| > 0
    requires Stage(s, units[0], Follow(units[1..])) == Success(Step(s, None))
    ensures Scan(s, units) == Scan(s, units[1..])
  {
    var rest := Scan(s, units[1..]);
    if rest.Success? {
      ScanCons(s, units, Step(s, None), rest.value);
    }
  }

  /** The names of two units, in order. */
  lemma FollowTwo(units: seq<Unit>)
    requires |units| == 2
    ensures Follow(units) == units[0].keys + units[1].keys
  {
    assert units[1..][1..] == [];
    assert Follow(units[1..]) == units[1].keys + [];
  }

  /** As written, a number of hours does not parse: the hour stage reads the number before
      `d`, which is the whole text, and the parse finds no number at all. */
  lemma HoursUnreadAsWritten(c: char)
    requires IsDigit(c)
    ensures FromShortForm([c, 'h']) == Failure(InvalidFormat)
  {
    var s := [c, 'h'];
    AsWrittenValid();
    DayStagePasses(s, SHORT_AS_WRITTEN);
    AsWrittenHourStage(c);
    MinutesSecondsUnread(s);
    ScanTwoPasses(s, SHORT_AS_WRITTEN, Success(Reading(0, false)));
  }

  /** A text without `d` passes the day stage of either short form untouched. */
  lemma DayStagePasses(s: string, units: seq<Unit>)
    requires units == SHORT || units == SHORT_AS_WRITTEN
    requires 'd' !in s
    ensures Stage(s, units[0], Follow(units[1..])) == Success(Step(s, None))
  {
    ContainsChar(s, 'd');
    assert units[0].keys == ["d"];
    assert FirstKey(s, ["d"]).None?;
  }

  /** Two leading stages that read nothing leave the scan to the stages after them. */
  lemma ScanTwoPasses(s: string, units: seq<Unit>, r: Result<Reading, TimeError>)
    requires ValidUnits(units) && |units| >= 2
    requires Stage(s, units[0], Follow(units[1..])) == Success(Step(s, None))
    requires Stage(s, units[1], Follow(units[2..])) == Success(Step(s, None))
    requires Scan(s, units[2..]) == r
    ensures Scan(s, units) == r
  {
    ScanPass(s, units);
    assert units[1..][0] == units[1] && units[1..][1..] == units[2..];
    ScanPass(s, units[1..]);
  }

  /** The as-written hour stage on a digit and `h`: it finds `h`, reads before `d`, and reads
      no number. */
  lemma AsWrittenHourStage(c: char)
    requires IsDigit(c)
    ensures Stage([c, 'h'], SHORT_AS_WRITTEN[1], Follow(SHORT_AS_WRITTEN[2..])) == Success(Step([c, 'h'], None))
  {
    var s := [c, 'h'];
    ContainsChar(s, 'h');
    ContainsChar(s, 'm');
    ContainsChar(s, 's');
    assert FirstKey(s, ["h"]) == Some(0);
    assert JavaSplit(s, "d") == [s] by {
      ContainsChar(s, 'd');
      SplitOnAbsent(s, "d");
    }
    assert ParseInt(Remove(s, ' ')) == None by {
      RemoveAbsent(s, ' ');
      assert !IsDigit(s[1]);
    }
    assert Follow(SHORT_AS_WRITTEN[2..]) == ["m", "s"] by {
      FollowTwo(SHORT_AS_WRITTEN[2..]);
    }
    assert !AnyContains(s, ["m", "s"]);
  }

  /** A text without `m` and `s` reads nothing in the minute and second stages. */
  lemma MinutesSecondsUnread(s: string)
    requires 'm' !in s && 's' !in s
    ensures Scan(s, SHORT[2..]) == Success(Reading(0, false))
    ensures Scan(s, SHORT_AS_WRITTEN[2..]) == Success(Reading(0, false))
  {
    var units := [Unit(["m"], ["m"], 60), Unit(["s"], ["s"], 1)];
    assert SHORT[2..] == units && SHORT_AS_WRITTEN[2..] == units;
    TwoLettersUnread(s, units, 'm', 's');
  }

  /** Two one-letter stages whose letters the text lacks read nothing. */
  lemma TwoLettersUnread(s: string, units: seq<Unit>, a: char, b: char)
    requires ValidUnits(units) && |units| == 2
    requires units[0].keys == [[a]] && units[1].keys == [[b]] && a !in s && b !in s
    ensures Scan(s, units) == Success(Reading(0, false))
  {
    LetterSkips(s, units, a);
    LetterSkips(s, units[1..], b);
    assert units[1..][1..] == [];
  }

  /** A one-letter stage whose letter the text lacks reads nothing. */
  lemma LetterSkips(s: string, units: seq<Unit>, a: char)
    requires ValidUnits(units) && |units| > 0 && units[0].keys == [[a]] && a !in s
    ensures Scan(s, units) == Scan(s, units[1..])
  {
    ContainsChar(s, a);
    assert FirstKey(s, units[0].keys).None?;
    ScanSkip(s, units);
  }

  /** With the hour stage reading before `h`, `2h` is two hours. */
  lemma HoursReadFixed()
    ensures FromShortFormFixed("2h") == Success(7200)
  {
    var s := "2h";
    DayStagePasses(s, SHORT);
    FixedHourStage();
    MinutesSecondsUnread(s);
    ShortLetters();
    ScanPassThenRead(s, SHORT, 2, Reading(0, false));
    assert SHORT[1].weight == 3600;
  }

  /** A leading stage that reads nothing, then one that reads `v` and leaves the text as it is. */
  lemma ScanPassThenRead(s: string, units: seq<Unit>, v: int, rd: Reading)
    requires ValidUnits(units) && |units| >= 2
    requires Stage(s, units[0], Follow(units[1..])) == Success(Step(s, None))
    requires Stage(s, units[1], Follow(units[2..])) == Success(Step(s, Some(v)))
    requires Scan(s, units[2..]) == Success(rd)
    ensures Scan(s, units) == Success(Reading(v * units[1].weight + rd.total, true))
  {
    ScanPass(s, units);
    assert units[1..][0] == units[1] && units[1..][1..] == units[2..];
    ScanConsRead(s, units[1..], s, v, rd, v * units[1].weight + rd.total);
  }

  lemma FixedHourStage()
    ensures Stage("2h", SHORT[1], Follow(SHORT[2..])) == Success(Step("2h", Some(2)))
  {
    var s := "2h";
    assert FirstKey(s, ["h"]) == Some(0) by {
      ContainsChar(s, 'h');
    }
    assert JavaSplit(s, "h") == ["2"] by {
      assert s == "2" + ['h'] + "";
      SplitAtLetter("2", 'h', "");
    }
    assert ParseInt(Remove("2", ' ')) == Some(2) by {
      ReadNumber("", 2);
      assert "" + IntToString(2) == "2";
    }
    MinuteSecondNames(s);
    StageKeeps(s, SHORT[1], Follow(SHORT[2..]), 0, 2);
  }

  /** A text without `m` and `s` names neither of the last two short units. */
  lemma MinuteSecondNames(s: string)
    requires 'm' !in s && 's' !in s
    ensures forall x :: x in Follow(SHORT[2..]) ==> !Contains(s, x)
  {
    ContainsChar(s, 'm');
    ContainsChar(s, 's');
    FollowTwo(SHORT[2..]);
  }

  /** As written, `2h` does not parse; the corrected stage reads it as two hours. */
  lemma ShortFormHoursUnread()
    ensures FromShortForm("2h") == Failure(InvalidFormat)
    ensures FromShortFormFixed("2h") == Success(7200)
  {
    HoursUnreadAsWritten('2');
    assert ['2', 'h'] == "2h";
    HoursReadFixed();
  }

  /** So, as written, an hour rendered in the short form does not read back. */
  lemma ShortFormRoundTripBroken()
    ensures ToShortForm(3600) == "1h"
    ensures FromShortForm(ToShortForm(3600)) == Failure(InvalidFormat)
  {
    assert Breakdown(3600) == Parts(0, 1, 0, 0) by {
      assert Quot(3600, 60) == 60 && Quot(60, 60) == 1;
    }
    assert ShortText(Parts(0, 1, 0, 0), true) == "1h" by {
      assert IntToString(1) == "1" by {
        assert NatToString(1) == [DigitChar(1)];
      }
      assert ShortText(Parts(0, 1, 0, 0), true) == Trim("1h" + " ") by {
        assert "" + (IntToString(1) + "h ") + "" + "" == "1h" + " ";
      }
      TrimAround("1h", " ");
    }
    HoursUnreadAsWritten('1');
    assert ['1', 'h'] == "1h";
  }
}
