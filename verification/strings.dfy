/** Text primitives with the semantics of the JVM library calls the source relies on:
    literal `split` (Java drops trailing empty pieces, Kotlin's `dropLastWhile` does the
    same), `join`, `trim`, ASCII case mapping, occurrence counting, and `Integer.parseInt`. */
module Strings {
  import opened Wrappers

  // ---------------------------------------------------------------------------
  // Prefixes and occurrences
  // ---------------------------------------------------------------------------

  /** The characters the regular-expression dot does not match. */
  predicate IsLineTerminator(c: char) {
    c == '\n' || c == '\r' || c == '\U{0085}' || c == '\U{2028}' || c == '\U{2029}'
  }

  predicate StartsWith(s: string, p: string) {
    |p| <= |s| && s[..|p|] == p
  }

  predicate EndsWith(s: string, p: string) {
    |p| <= |s| && s[|s| - |p|..] == p
  }

  /** `s.contains(d)`: some position of `s` starts an occurrence of `d`. */
  predicate Contains(s: string, d: string)
    decreases |s|
  {
    StartsWith(s, d) || (|s| > 0 && Contains(s[1..], d))
  }

  lemma ContainsAt(s: string, d: string, i: nat)
    requires i + |d| <= |s| && s[i..i + |d|] == d
    ensures Contains(s, d)
    decreases i
  {
    if i > 0 {
      assert s[1..][i - 1..i - 1 + |d|] == s[i..i + |d|];
      ContainsAt(s[1..], d, i - 1);
    }
  }

  /** A one-character text occurs exactly when its character does. */
  lemma ContainsChar(s: string, c: char)
    ensures Contains(s, [c]) <==> c in s
  {
    if c in s {
      var i :| 0 <= i < |s| && s[i] == c;
      assert s[i..i + 1] == [c];
      ContainsAt(s, [c], i);
    } else {
      NotContainsWithoutFirst(s, [c]);
    }
  }

  /** A string without the first character of `d` does not contain `d`. */
  lemma NotContainsWithoutFirst(s: string, d: string)
    requires |d| > 0 && d[0] !in s
    ensures !Contains(s, d)
    decreases |s|
  {
    if |s| > 0 {
      assert s[0] in s;
      assert s[1..] <= s[1..];
      forall c | c in s[1..] ensures c in s { }
      NotContainsWithoutFirst(s[1..], d);
    }
  }

  /** Every character of an occurring text is a character of the text it occurs in. */
  lemma {:induction false} ContainsChars(s: string, d: string, c: char)
    requires Contains(s, d) && c in d
    ensures c in s
    decreases |s|
  {
    if StartsWith(s, d) {
      var i :| 0 <= i < |d| && d[i] == c;
      assert s[i] == d[i];
    } else {
      ContainsChars(s[1..], d, c);
      var i :| 0 <= i < |s[1..]| && s[1..][i] == c;
      assert s[i + 1] == c;
    }
  }

  /** A text never contains a longer one. */
  lemma {:induction false} ContainsShorter(s: string, d: string)
    requires Contains(s, d)
    ensures |d| <= |s|
    decreases |s|
  {
    if !StartsWith(s, d) {
      ContainsShorter(s[1..], d);
    }
  }

  /** `lastIndexOf(c)`: the last position holding `c`, or -1. */
  function LastIndexOf(s: string, c: char): (r: int)
    ensures -1 <= r < |s|
    ensures r >= 0 ==> s[r] == c && c !in s[r + 1..]
    ensures r < 0 ==> c !in s
    decreases |s|
  {
    if |s| == 0 then -1
    else if s[|s| - 1] == c then |s| - 1
    else LastIndexOf(s[..|s| - 1], c)
  }

  // ---------------------------------------------------------------------------
  // Splitting and joining on a literal delimiter
  // ---------------------------------------------------------------------------

  /** All pieces of `s` between left-to-right, non-overlapping occurrences of `d`,
      empty pieces included (the split before any trailing-empty removal). */
  function SplitOn(s: string, d: string): (r: seq<string>)
    requires |d| > 0
    ensures |r| >= 1
    decreases |s|
  {
    if |s| < |d| then [s]
    else if s[..|d|] == d then [""] + SplitOn(s[|d|..], d)
    else
      var rest := SplitOn(s[1..], d);
      [[s[0]] + rest[0]] + rest[1..]
  }

  /** `String.join(d, xs)`. */
  function Join(xs: seq<string>, d: string): string
    decreases |xs|
  {
    if |xs| == 0 then ""
    else if |xs| == 1 then xs[0]
    else xs[0] + d + Join(xs[1..], d)
  }

  /** Joining the pieces with the delimiter they were cut at gives the text back. */
  lemma {:induction false} JoinSplitOn(s: string, d: string)
    requires |d| > 0
    ensures Join(SplitOn(s, d), d) == s
    decreases |s|
  {
    if |s| < |d| {
    } else if s[..|d|] == d {
      var rest := SplitOn(s[|d|..], d);
      assert SplitOn(s, d) == [""] + rest;
      JoinSplitOn(s[|d|..], d);
      assert ([""] + rest)[1..] == rest;
      assert Join([""] + rest, d) == "" + d + Join(rest, d);
      assert s == d + s[|d|..];
    } else {
      var rest := SplitOn(s[1..], d);
      var xs := [[s[0]] + rest[0]] + rest[1..];
      assert SplitOn(s, d) == xs;
      JoinSplitOn(s[1..], d);
      if |rest| == 1 {
        assert Join(xs, d) == [s[0]] + Join(rest, d);
      } else {
        assert xs[1..] == rest[1..];
        assert Join(xs, d) == [s[0]] + rest[0] + d + Join(rest[1..], d);
        assert Join(rest, d) == rest[0] + d + Join(rest[1..], d);
        assert Join(xs, d) == [s[0]] + Join(rest, d);
      }
      assert s == [s[0]] + s[1..];
    }
  }

  /** A join cut after its `j`-th piece: the first pieces, the delimiter, the rest. */
  lemma {:induction false} JoinSplitAt(xs: seq<string>, j: nat, d: string)
    requires 0 < j < |xs|
    ensures Join(xs[..j], d) + d + Join(xs[j..], d) == Join(xs, d)
    decreases j
  {
    if j > 1 {
      JoinSplitAt(xs[1..], j - 1, d);
      assert xs[1..][..j - 1] == xs[..j][1..];
      assert xs[1..][j - 1..] == xs[j..];
    }
  }

  /** A text without the delimiter is a single piece. */
  lemma {:induction false} SplitOnAbsent(s: string, d: string)
    requires |d| > 0 && !Contains(s, d)
    ensures SplitOn(s, d) == [s]
    decreases |s|
  {
    if |s| >= |d| {
      assert !StartsWith(s, d);
      SplitOnAbsent(s[1..], d);
      assert s == [s[0]] + s[1..];
    }
  }

  /** A text that is `a`, the delimiter, then `b` is first cut at that occurrence when
      `a` does not hold the delimiter's first character. */
  lemma {:induction false} SplitOnFirst(a: string, d: string, b: string)
    requires |d| > 0 && d[0] !in a
    ensures SplitOn(a + d + b, d) == [a] + SplitOn(b, d)
    decreases |a|
  {
    var s := a + d + b;
    if |a| == 0 {
      assert s == d + b;
      assert s[..|d|] == d;
      assert s[|d|..] == b;
    } else {
      assert s[0] == a[0];
      assert s[..|d|] != d by { assert s[..|d|][0] == a[0]; }
      assert s[1..] == a[1..] + d + b;
      assert a[0] in a;
      forall c | c in a[1..] ensures c in a { }
      SplitOnFirst(a[1..], d, b);
      assert [s[0]] + a[1..] == a;
    }
  }

  /** Pieces cut at a one-character delimiter never contain it. */
  lemma {:induction false} SplitOnPiecesFree(s: string, c: char)
    ensures forall i :: 0 <= i < |SplitOn(s, [c])| ==> c !in SplitOn(s, [c])[i]
    decreases |s|
  {
    var d := [c];
    if |s| < 1 {
    } else if s[..1] == d {
      SplitOnPiecesFree(s[1..], c);
      assert SplitOn(s, d) == [""] + SplitOn(s[1..], d);
    } else {
      SplitOnPiecesFree(s[1..], c);
      var rest := SplitOn(s[1..], d);
      assert s[0] != c by { assert s[..1] == [s[0]]; }
      assert SplitOn(s, d) == [[s[0]] + rest[0]] + rest[1..];
      forall i | 0 <= i < |SplitOn(s, d)| ensures c !in SplitOn(s, d)[i] {
        if i > 0 { assert SplitOn(s, d)[i] == rest[i]; }
      }
    }
  }

  /** The last piece is empty only when the text is empty or ends with the delimiter. */
  lemma {:induction false} SplitOnLastEmpty(s: string, c: char)
    requires |s| > 0
    requires SplitOn(s, [c])[|SplitOn(s, [c])| - 1] == ""
    ensures s[|s| - 1] == c
    decreases |s|
  {
    var d := [c];
    var xs := SplitOn(s, d);
    if s[..1] == d {
      var t := s[1..];
      if |t| > 0 {
        assert xs == [""] + SplitOn(t, d);
        SplitOnLastEmpty(t, c);
      } else {
        assert s == [s[0]];
      }
    } else {
      var rest := SplitOn(s[1..], d);
      assert xs == [[s[0]] + rest[0]] + rest[1..];
      if |rest| > 1 {
        assert xs[|xs| - 1] == rest[|rest| - 1];
        assert |s[1..]| > 0;
        SplitOnLastEmpty(s[1..], c);
      }
    }
  }

  /** Splitting a join at a one-character delimiter that no piece contains gives the pieces. */
  lemma {:induction false} SplitJoin(xs: seq<string>, c: char)
    requires |xs| > 0 && forall i :: 0 <= i < |xs| ==> c !in xs[i]
    ensures SplitOn(Join(xs, [c]), [c]) == xs
    decreases |xs|
  {
    if |xs| == 1 {
      NotContainsWithoutFirst(xs[0], [c]);
      SplitOnAbsent(xs[0], [c]);
    } else {
      SplitJoin(xs[1..], c);
      SplitOnFirst(xs[0], [c], Join(xs[1..], [c]));
      assert xs == [xs[0]] + xs[1..];
    }
  }

  /** The pieces after dropping trailing empty ones (`dropLastWhile { it.isEmpty() }`). */
  function DropTrailingEmpty(xs: seq<string>): (r: seq<string>)
    ensures |r| <= |xs| && r == xs[..|r|]
    ensures |r| == 0 || r[|r| - 1] != ""
    ensures forall i :: |r| <= i < |xs| ==> xs[i] == ""
    decreases |xs|
  {
    if |xs| == 0 then []
    else if xs[|xs| - 1] == "" then DropTrailingEmpty(xs[..|xs| - 1])
    else xs
  }

  /** Java `String.split(d)` with a literal delimiter and limit 0: a text without the
      delimiter is returned whole, otherwise trailing empty pieces are removed. */
  function JavaSplit(s: string, d: string): (r: seq<string>)
    requires |d| > 0
  {
    if Contains(s, d) then DropTrailingEmpty(SplitOn(s, d)) else [s]
  }

  /** Kotlin `split(d).dropLastWhile { it.isEmpty() }`. */
  function KotlinSplit(s: string, d: string): seq<string>
    requires |d| > 0
  {
    DropTrailingEmpty(SplitOn(s, d))
  }

  // ---------------------------------------------------------------------------
  // Counting occurrences
  // ---------------------------------------------------------------------------

  /** Number of left-to-right, non-overlapping matches of `p` (a `Matcher.find` loop). */
  function Count(s: string, p: string): nat
    requires |p| > 0
    decreases |s|
  {
    if |s| < |p| then 0
    else if s[..|p|] == p then 1 + Count(s[|p|..], p)
    else Count(s[1..], p)
  }

  /** One more piece than there are matches. */
  lemma {:induction false} SplitOnCount(s: string, p: string)
    requires |p| > 0
    ensures |SplitOn(s, p)| == Count(s, p) + 1
    decreases |s|
  {
    if |s| < |p| {
    } else if s[..|p|] == p {
      SplitOnCount(s[|p|..], p);
    } else {
      SplitOnCount(s[1..], p);
    }
  }

  // ---------------------------------------------------------------------------
  // Case mapping (ASCII) and trimming
  // ---------------------------------------------------------------------------

  function LowerChar(c: char): char {
    if 'A' <= c <= 'Z' then (c as int + 32) as char else c
  }

  function UpperChar(c: char): char {
    if 'a' <= c <= 'z' then (c as int - 32) as char else c
  }

  function ToLower(s: string): (r: string)
    ensures |r| == |s| && forall i :: 0 <= i < |s| ==> r[i] == LowerChar(s[i])
  {
    seq(|s|, i requires 0 <= i < |s| => LowerChar(s[i]))
  }

  function ToUpper(s: string): (r: string)
    ensures |r| == |s| && forall i :: 0 <= i < |s| ==> r[i] == UpperChar(s[i])
  {
    seq(|s|, i requires 0 <= i < |s| => UpperChar(s[i]))
  }

  lemma LowerConcat(a: string, b: string)
    ensures ToLower(a + b) == ToLower(a) + ToLower(b)
  {
  }

  lemma LowerIdempotent(s: string)
    ensures ToLower(ToLower(s)) == ToLower(s)
  {
  }

  predicate IsBlank(c: char) {
    c <= ' '
  }

  function TrimStart(s: string): (r: string)
    ensures |r| <= |s| && r == s[|s| - |r|..]
    ensures |r| == 0 || !IsBlank(r[0])
    ensures forall i :: 0 <= i < |s| - |r| ==> IsBlank(s[i])
    decreases |s|
  {
    if |s| > 0 && IsBlank(s[0]) then TrimStart(s[1..]) else s
  }

  function TrimEnd(s: string): (r: string)
    ensures |r| <= |s| && r == s[..|r|]
    ensures |r| == 0 || !IsBlank(r[|r| - 1])
    ensures forall i :: |r| <= i < |s| ==> IsBlank(s[i])
    decreases |s|
  {
    if |s| > 0 && IsBlank(s[|s| - 1]) then TrimEnd(s[..|s| - 1]) else s
  }

  /** `String.trim()`: removes every character `<= ' '` from both ends. */
  function Trim(s: string): (r: string)
    ensures |r| == 0 || (!IsBlank(r[0]) && !IsBlank(r[|r| - 1]))
  {
    TrimEnd(TrimStart(s))
  }

  /** Trimming text that already starts and ends with a visible character, followed by
      blanks, removes exactly the blanks. */
  lemma TrimAround(x: string, sp: string)
    requires |x| > 0 && !IsBlank(x[0]) && !IsBlank(x[|x| - 1])
    requires forall i :: 0 <= i < |sp| ==> IsBlank(sp[i])
    ensures Trim(x + sp) == x
  {
    assert TrimStart(x + sp) == x + sp;
    TrimEndBlanks(x, sp);
  }

  lemma {:induction false} TrimEndBlanks(x: string, sp: string)
    requires |x| > 0 && !IsBlank(x[|x| - 1])
    requires forall i :: 0 <= i < |sp| ==> IsBlank(sp[i])
    ensures TrimEnd(x + sp) == x
    decreases |sp|
  {
    if |sp| == 0 {
      assert x + sp == x;
    } else {
      var sp' := sp[..|sp| - 1];
      assert (x + sp)[..|x + sp| - 1] == x + sp';
      TrimEndBlanks(x, sp');
    }
  }

  /** `s.replaceAll(" ", "")`: every occurrence of `c` removed. */
  function Remove(s: string, c: char): (r: string)
    ensures c !in r && |r| <= |s|
    decreases |s|
  {
    if |s| == 0 then ""
    else if s[0] == c then Remove(s[1..], c)
    else [s[0]] + Remove(s[1..], c)
  }

  lemma {:induction false} RemoveConcat(a: string, b: string, c: char)
    ensures Remove(a + b, c) == Remove(a, c) + Remove(b, c)
    decreases |a|
  {
    if |a| > 0 {
      assert (a + b)[1..] == a[1..] + b;
      RemoveConcat(a[1..], b, c);
    } else {
      assert a + b == b;
    }
  }

  /** Removing a character from a run of that character leaves nothing. */
  lemma {:induction false} RemoveAll(s: string, c: char)
    requires forall i :: 0 <= i < |s| ==> s[i] == c
    ensures Remove(s, c) == ""
    decreases |s|
  {
    if |s| > 0 {
      RemoveAll(s[1..], c);
    }
  }

  lemma RemoveAbsent(s: string, c: char)
    requires c !in s
    ensures Remove(s, c) == s
  {
    if |s| > 0 {
      assert s[0] in s;
      forall x | x in s[1..] ensures x in s { }
      RemoveAbsent(s[1..], c);
      assert s == [s[0]] + s[1..];
    }
  }

  // ---------------------------------------------------------------------------
  // Decimal numbers
  // ---------------------------------------------------------------------------

  const INT_MIN: int := -0x8000_0000
  const INT_MAX: int := 0x7FFF_FFFF
  const LONG_MIN: int := -0x8000_0000_0000_0000
  const LONG_MAX: int := 0x7FFF_FFFF_FFFF_FFFF

  predicate IsDigit(c: char) {
    '0' <= c <= '9'
  }

  predicate AllDigits(s: string) {
    forall i :: 0 <= i < |s| ==> IsDigit(s[i])
  }

  function DigitChar(d: nat): char
    requires d < 10
  {
    ('0' as int + d) as char
  }

  /** Value of a run of decimal digits. */
  function DigitsValue(s: string): nat
    requires AllDigits(s)
    decreases |s|
  {
    if |s| == 0 then 0
    else DigitsValue(s[..|s| - 1]) * 10 + (s[|s| - 1] as int - '0' as int)
  }

  /** Decimal rendering of a natural number, without leading zeros. */
  function NatToString(n: nat): (r: string)
    ensures |r| > 0 && AllDigits(r)
    ensures DigitsValue(r) == n
    decreases n
  {
    if n < 10 then [DigitChar(n)]
    else
      var r := NatToString(n / 10) + [DigitChar(n % 10)];
      assert r[..|r| - 1] == NatToString(n / 10);
      r
  }

  /** Java's decimal rendering of an integer (`"" + n`): digits, behind a minus sign when
      negative. */
  function IntToString(n: int): (r: string)
    ensures |r| > 0 && (IsDigit(r[0]) || r[0] == '-') && IsDigit(r[|r| - 1])
    ensures forall i :: 0 <= i < |r| ==> IsDigit(r[i]) || r[i] == '-'
  {
    if n < 0 then "-" + NatToString(-n) else NatToString(n)
  }

  /** A signed decimal in the range [lo, hi], as `Integer.parseInt` (lo, hi = int range) and
      `Long.parseLong` (long range) read it: an optional sign, then at least one digit. */
  function ParseIntegral(s: string, lo: int, hi: int): (r: Option<int>)
    ensures r.Some? ==> lo <= r.value <= hi
  {
    if |s| == 0 then None
    else if (s[0] == '-' || s[0] == '+') && |s| > 1 && AllDigits(s[1..]) then
      var v := if s[0] == '-' then -(DigitsValue(s[1..]) as int) else DigitsValue(s[1..]);
      if lo <= v <= hi then Some(v) else None
    else if AllDigits(s) then
      var v := DigitsValue(s);
      if lo <= v <= hi then Some(v) else None
    else None
  }

  function ParseInt(s: string): Option<int> {
    ParseIntegral(s, INT_MIN, INT_MAX)
  }

  function ParseLong(s: string): Option<int> {
    ParseIntegral(s, LONG_MIN, LONG_MAX)
  }

  /** Rendering an integer and parsing it back gives the integer, in the parser's range. */
  lemma ParseIntToString(n: int, lo: int, hi: int)
    requires lo <= n <= hi
    ensures ParseIntegral(IntToString(n), lo, hi) == Some(n)
  {
    if n < 0 {
      var s := IntToString(n);
      assert s[1..] == NatToString(-n);
    } else {
      ParseNatToString(n, lo, hi);
    }
  }

  /** Rendering a natural number and parsing it back gives the number. */
  lemma ParseNatToString(n: nat, lo: int, hi: int)
    requires lo <= n <= hi
    ensures ParseIntegral(NatToString(n), lo, hi) == Some(n)
  {
    var s := NatToString(n);
    assert IsDigit(s[0]);
  }
}
