/** A length of time kept in milliseconds, built from seconds, from milliseconds, or from
    text in the short form, as a plain number of seconds, or in the long form. */
module Durations {
  import opened Wrappers
  import opened Strings
  import opened TimeTools

  const TWO_TO_64: int := 0x1_0000_0000_0000_0000

  /** A Java `long` result: the value reduced into the `long` range modulo 2^64. */
  function WrapLong(x: int): (r: int)
    ensures LONG_MIN <= r <= LONG_MAX
    ensures LONG_MIN <= x <= LONG_MAX ==> r == x
    ensures (x - r) % TWO_TO_64 == 0
  {
    var m := (x - LONG_MIN) % TWO_TO_64;
    m + LONG_MIN
  }

  /** The length of time, in milliseconds, as a `long`. */
  datatype Duration = Duration(millis: int)

  predicate ValidDuration(d: Duration) {
    LONG_MIN <= d.millis <= LONG_MAX
  }

  /** `valueOf(long)`: the milliseconds as given. */
  function ValueOfMillis(m: int): (d: Duration)
    requires LONG_MIN <= m <= LONG_MAX
    ensures ValidDuration(d) && AsMilliseconds(d) == m
  {
    Duration(m)
  }

  /** `fromSeconds`: the seconds times 1000, in `long` arithmetic. */
  function FromSeconds(s: int): (d: Duration)
    ensures ValidDuration(d)
    ensures LONG_MIN <= s * 1000 <= LONG_MAX ==> d.millis == s * 1000
  {
    Duration(WrapLong(s * 1000))
  }

  function AsMilliseconds(d: Duration): int {
    d.millis
  }

  /** `asSeconds`: whole seconds, truncated toward zero. */
  function AsSeconds(d: Duration): (s: int)
    ensures d.millis >= 0 ==> 0 <= s * 1000 <= d.millis < s * 1000 + 1000
    ensures d.millis <= 0 ==> s * 1000 - 1000 < d.millis <= s * 1000 <= 0
  {
    Quot(d.millis, 1000)
  }

  /** `asSimpleString`, and `toString`, which returns the same text: the short form of the
      whole seconds. */
  function AsSimpleString(d: Duration): (r: string)
    ensures -1000 < d.millis < 1000 ==> r == "0s"
    ensures |r| == 0 || (!IsBlank(r[0]) && !IsBlank(r[|r| - 1]))
  {
    ToShortForm(AsSeconds(d))
  }

  /** `asVerboseString`: the long form of the whole seconds. */
  function AsVerboseString(d: Duration): (r: string)
    ensures -1000 < d.millis < 1000 ==> r == "0 seconds"
    ensures |r| == 0 || (!IsBlank(r[0]) && !IsBlank(r[|r| - 1]))
  {
    ToLongForm(AsSeconds(d))
  }

  /** The short form with the corrected day segment. */
  function AsSimpleStringFixed(d: Duration): (r: string)
    ensures -1000 < d.millis < 1000 ==> r == "0s"
  {
    ToShortFormFixed(AsSeconds(d))
  }

  /** The number a parse stage hands on: its value, or -1 for a `ParseException`. */
  function OrMinusOne(r: Result<int, TimeError>): int {
    if r.Success? then r.value else -1
  }

  /** `valueOf(String)` as written. A parse exception from either form is caught and read as
      -1; the index exception the short-form parser can raise is not caught and escapes. */
  function ValueOf(text: string): (r: Result<Duration, TimeError>)
    ensures r.Success? ==> ValidDuration(r.value)
    ensures r.Failure? && r.error == IndexOutOfBounds ==>
              FromShortForm(text) == Failure(IndexOutOfBounds) || FromLongForm(text) == Failure(IndexOutOfBounds)
    ensures r.Success? ==> exists t :: 0 <= t <= LONG_MAX && r.value == Duration(WrapLong(t * 1000))
  {
    ParsedFitsLong(text);
    var short := FromShortForm(text);
    if short == Failure(IndexOutOfBounds) then Failure(IndexOutOfBounds)
    else
      var t1 := OrMinusOne(short);
      var t2 := if t1 == -1 then (match ParseLong(text) case Some(v) => v case None => -1) else t1;
      if t2 == -1 && FromLongForm(text) == Failure(IndexOutOfBounds) then Failure(IndexOutOfBounds)
      else
        var t3 := if t2 == -1 then OrMinusOne(FromLongForm(text)) else t2;
        if t3 < 0 then Failure(InvalidFormat)
        else
          assert 0 <= t3 <= LONG_MAX;
          Success(Duration(WrapLong(t3 * 1000)))
  }

  /** `valueOf(String)` with every failure of a form read as "not this form", and with the
      corrected short-form parser. */
  function ValueOfFixed(text: string): (r: Result<Duration, TimeError>)
    ensures r.Success? ==> ValidDuration(r.value)
    ensures r.Failure? ==> r.error == InvalidFormat
  {
    var t1 := OrMinusOne(FromShortFormFixed(text));
    var t2 := if t1 == -1 then (match ParseLong(text) case Some(v) => v case None => -1) else t1;
    var t3 := if t2 == -1 then OrMinusOne(FromLongForm(text)) else t2;
    if t3 < 0 then Failure(InvalidFormat) else Success(Duration(WrapLong(t3 * 1000)))
  }

  // ---------------------------------------------------------------------------
  // Properties
  // ---------------------------------------------------------------------------

  /** Seconds turned into a duration and back are the same seconds, while the milliseconds
      fit in a `long`. */
  lemma FromSecondsRoundTrip(s: int)
    requires LONG_MIN <= s * 1000 <= LONG_MAX
    ensures AsSeconds(FromSeconds(s)) == s
  {
    var d := FromSeconds(s);
    assert d.millis == s * 1000;
  }

  /** Past the `long` range the multiplication wraps, and the seconds do not come back. */
  lemma FromSecondsOverflow()
    ensures AsSeconds(FromSeconds(LONG_MAX)) != LONG_MAX
  {
    var d := FromSeconds(LONG_MAX);
    assert LONG_MIN <= d.millis <= LONG_MAX;
  }

  /** A plain non-negative number of seconds is read as that many seconds. */
  lemma ValueOfSeconds(n: int)
    requires 0 <= n && n * 1000 <= LONG_MAX
    ensures ValueOf(IntToString(n)) == Success(FromSeconds(n))
    ensures ValueOfFixed(IntToString(n)) == Success(FromSeconds(n))
  {
    var s := IntToString(n);
    NoUnitLetters(s);
    ParseIntToString(n, LONG_MIN, LONG_MAX);
  }

  /** A negative number is read as a negative count of seconds, which `valueOf` refuses. */
  lemma ValueOfNegative(n: int)
    requires 0 < n <= LONG_MAX
    ensures ValueOf("-" + IntToString(n)) == Failure(InvalidFormat)
  {
    var s := "-" + IntToString(n);
    assert s == IntToString(-n);
    NoUnitLetters(s);
    NoLongNames(s);
    ParseIntToString(-n, LONG_MIN, LONG_MAX);
  }

  /** A number names none of the long-form units, so the long-form parser reads nothing. */
  lemma NoLongNames(s: string)
    requires forall i :: 0 <= i < |s| ==> IsDigit(s[i]) || s[i] == '-'
    ensures FromLongForm(s) == Failure(InvalidFormat)
  {
    LongValid();
    LongNamesAbsent(s);
    ScanNoKeys(s, LONG);
    FormUnread(s, LONG, 0);
  }

  /** A number holds none of the long-form unit names. */
  lemma LongNamesAbsent(s: string)
    requires forall i :: 0 <= i < |s| ==> IsDigit(s[i]) || s[i] == '-'
    ensures forall k :: k in Follow(LONG) ==> !Contains(s, k)
  {
    LongInitials();
    LettersAbsent(s, Follow(LONG));
  }

  /** A number holds no name that starts with one of the unit letters. */
  lemma LettersAbsent(s: string, keys: seq<string>)
    requires forall i :: 0 <= i < |s| ==> IsDigit(s[i]) || s[i] == '-'
    requires forall k :: k in keys ==> |k| > 0 && (k[0] == 'd' || k[0] == 'h' || k[0] == 'm' || k[0] == 's')
    ensures forall k :: k in keys ==> !Contains(s, k)
  {
    forall k | k in keys ensures !Contains(s, k) {
      assert k[0] !in s by {
        forall i | 0 <= i < |s| ensures s[i] != k[0] { }
      }
      NotContainsWithoutFirst(s, k);
    }
  }

  /** Every long-form unit name starts with one of the letters `d`, `h`, `m`, `s`. */
  lemma LongInitials()
    ensures forall k :: k in Follow(LONG) ==> |k| > 0 && (k[0] == 'd' || k[0] == 'h' || k[0] == 'm' || k[0] == 's')
  {
    FollowTwo(LONG[2..]);
    assert LONG[1..][1..] == LONG[2..];
    assert LONG[1..][0] == LONG[1];
    assert Follow(LONG[1..]) == LONG[1].keys + Follow(LONG[2..]);
    assert Follow(LONG) == LONG[0].keys + Follow(LONG[1..]);
  }

  /** A number has none of the unit letters, so neither short-form parser reads anything. */
  lemma NoUnitLetters(s: string)
    requires forall i :: 0 <= i < |s| ==> IsDigit(s[i]) || s[i] == '-'
    ensures FromShortForm(s) == Failure(InvalidFormat)
    ensures FromShortFormFixed(s) == Failure(InvalidFormat)
  {
    assert forall k :: k in ["d", "h", "m", "s"] ==> !Contains(s, k) by {
      forall k | k in ["d", "h", "m", "s"] ensures !Contains(s, k) {
        assert k == [k[0]];
        ContainsChar(s, k[0]);
      }
    }
    ShortNames();
    assert FromShortForm(s) == Failure(InvalidFormat) by {
      AsWrittenValid();
      ScanNoKeys(s, SHORT_AS_WRITTEN);
    }
    assert FromShortFormFixed(s) == Failure(InvalidFormat) by {
      ShortLetters();
      ScanNoKeys(s, SHORT);
    }
  }

  /** With the corrections, the simple string of a whole number of seconds reads back as the
      same duration. */
  lemma SimpleStringRoundTrip(n: int)
    requires 0 <= n && n * 1000 <= LONG_MAX && Breakdown(n).day <= INT_MAX
    ensures ValueOfFixed(AsSimpleStringFixed(FromSeconds(n))) == Success(FromSeconds(n))
  {
    FromSecondsRoundTrip(n);
    assert Breakdown(n).day >= 0;
    ShortFormRoundTrip(n);
  }

  /** As written, the long form `1 second` escapes as an index exception: the day stage of the
      short-form parser finds the `d` of `second`, and the text after it is missing. */
  lemma ValueOfLongFormCrashes()
    ensures ValueOf("1 second") == Failure(IndexOutOfBounds)
  {
    var s := "1 second";
    assert FromShortForm(s) == Failure(IndexOutOfBounds) by {
      DayStageCut(s);
      AsWrittenValid();
    }
  }

  /** Corrected, the same text falls through to the long form and reads as one second. */
  lemma ValueOfFixedReadsLongForm()
    ensures ValueOfFixed("1 second") == Success(Duration(1000))
  {
    var s := "1 second";
    assert FromShortFormFixed(s).Failure? by {
      DayStageCut(s);
      ShortLetters();
    }
    assert ParseLong(s) == None by {
      assert !IsDigit(s[1]) && s[0] != '-' && s[0] != '+';
      assert !AllDigits(s);
    }
    LongFormOneSecond();
  }

  /** The day stage of either short-form parser on `1 second`: `d` is found, splitting at it
      leaves one piece, and a later letter is present, so the second piece is indexed. */
  lemma DayStageCut(s: string)
    requires s == "1 second"
    ensures Stage(s, SHORT_AS_WRITTEN[0], Follow(SHORT_AS_WRITTEN[1..])) == Failure(IndexOutOfBounds)
    ensures Stage(s, SHORT[0], Follow(SHORT[1..])) == Failure(IndexOutOfBounds)
  {
    var day := Unit(["d"], ["d"], 86400);
    assert SHORT_AS_WRITTEN[0] == day && SHORT[0] == day;
    assert Follow(SHORT_AS_WRITTEN[1..]) == ["h", "m", "s"] && Follow(SHORT[1..]) == ["h", "m", "s"] by {
      ShortNames();
    }
    DayStageOn(s, day, ["h", "m", "s"]);
  }

  /** The day stage on `1 second`, with the hour, minute and second letters after it. */
  lemma DayStageOn(s: string, u: Unit, follow: seq<string>)
    requires s == "1 second" && u == Unit(["d"], ["d"], 86400) && follow == ["h", "m", "s"]
    ensures Stage(s, u, follow) == Failure(IndexOutOfBounds)
  {
    ContainsChar(s, 'd');
    ContainsChar(s, 's');
    assert FirstKey(s, ["d"]) == Some(0);
    assert JavaSplit(s, "d") == ["1 secon"] by {
      assert s == "1 secon" + ['d'] + "";
      SplitAtLetter("1 secon", 'd', "");
    }
    assert Contains(s, follow[2]);
  }
}
