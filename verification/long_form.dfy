/** The long form of an amount of seconds (`2 days 1 hour 5 seconds`): the words it prints
    for each part, and the long-form parser reading them back. */
module LongForms {
  import opened Wrappers
  import opened Strings
  import opened TimeTools

  // ---------------------------------------------------------------------------
  // The unit words
  // ---------------------------------------------------------------------------

  /** The unit words, day down to second, singular and plural. */
  const ONE: seq<string> := ["day", "hour", "minute", "second"]
  const MANY: seq<string> := ["days", "hours", "minutes", "seconds"]

  /** For each unit, a letter of its word that no other unit word holds, and where it sits. */
  const MARK: string := "yhmc"
  const MARK_AT: seq<nat> := [2, 0, 0, 2]

  /** The word for `v` of unit `i`: singular for one, plural otherwise. */
  function Word(i: nat, v: int): (r: string)
    requires i < 4
    ensures r == ONE[i] || r == MANY[i]
  {
    if v == 1 then ONE[i] else MANY[i]
  }

  /** The long form of the parts from `i` on as it is meant to read: each non-zero part, a
      space and its unit word, singular for one and plural above one, separated by single
      spaces. */
  function Spoken(vals: seq<int>, i: nat): string
    requires |vals| == 4 && i <= 4
    decreases 4 - i
  {
    if i == 4 then ""
    else
      var rest := Spoken(vals, i + 1);
      if vals[i] == 0 then rest
      else IntToString(vals[i]) + " " + Word(i, vals[i]) + (if rest == "" then "" else " " + rest)
  }

  /** A visible letter: neither blank, digit nor minus sign. */
  predicate Letter(c: char) {
    !IsBlank(c) && !IsDigit(c) && c != '-'
  }

  /** What the parser relies on about the words of unit `i`. */
  predicate WordShape(i: nat)
    requires i < 4
  {
    && MANY[i] == ONE[i] + "s"
    && MARK_AT[i] < |ONE[i]| && ONE[i][MARK_AT[i]] == MARK[i]
    && (forall k :: 0 <= k < |ONE[i]| && k != MARK_AT[i] ==> ONE[i][k] != MARK[i])
    && (forall k :: 0 <= k < |MANY[i]| ==> Letter(MANY[i][k]))
    && (forall j :: 0 <= j < 4 && j != i ==> MARK[j] !in MANY[i])
  }

  lemma Words(i: nat)
    requires i < 4
    ensures WordShape(i) && Letter(MARK[i])
    ensures forall k :: 0 <= k < |ONE[i]| ==> Letter(ONE[i][k])
    ensures forall j :: 0 <= j < 4 && j != i ==> MARK[j] !in ONE[i]
  {
    if i == 0 {
      assert MANY[0] == ONE[0] + "s";
    } else if i == 1 {
      assert MANY[1] == ONE[1] + "s";
    } else if i == 2 {
      assert MANY[2] == ONE[2] + "s";
    } else {
      assert MANY[3] == ONE[3] + "s";
    }
    forall j | 0 <= j < 4 && j != i ensures MARK[j] !in ONE[i] {
      assert forall c :: c in ONE[i] ==> c in MANY[i];
    }
  }

  /** The parser's units are the words, plural first, with their weights. */
  lemma LongUnit(i: nat)
    requires i < 4
    ensures LONG[i].keys == [MANY[i], ONE[i]] && LONG[i].readKeys == [MANY[i], ONE[i]]
    ensures LONG[i].weight == [86400, 3600, 60, 1][i]
  {
  }

  /** The names the stages after `i - 1` look for are the words of the units from `i` on. */
  lemma {:induction false} LongFollow(i: nat)
    requires i <= 4
    ensures forall x :: x in Follow(LONG[i..]) ==> exists j :: i <= j < 4 && (x == ONE[j] || x == MANY[j])
    ensures forall j :: i <= j < 4 ==> ONE[j] in Follow(LONG[i..]) && MANY[j] in Follow(LONG[i..])
    decreases 4 - i
  {
    if i < 4 {
      LongFollow(i + 1);
      LongUnit(i);
      assert LONG[i..][0] == LONG[i] && LONG[i..][1..] == LONG[i + 1..];
      assert Follow(LONG[i..]) == [MANY[i], ONE[i]] + Follow(LONG[i + 1..]);
    } else {
      assert LONG[i..] == [];
    }
  }

  // ---------------------------------------------------------------------------
  // Occurrences
  // ---------------------------------------------------------------------------

  /** An occurring text sits at some position. */
  lemma {:induction false} ContainsIndex(s: string, d: string) returns (p: nat)
    requires Contains(s, d)
    ensures p + |d| <= |s| && s[p..p + |d|] == d
    decreases |s|
  {
    if StartsWith(s, d) {
      p := 0;
    } else {
      var q := ContainsIndex(s[1..], d);
      p := q + 1;
      assert s[p..p + |d|] == s[1..][q..q + |d|];
    }
  }

  /** A text occurring in `s` occurs in anything that ends with `s`. */
  lemma {:induction false} ContainsBehind(pre: string, s: string, d: string)
    requires Contains(s, d)
    ensures Contains(pre + s, d)
    decreases |pre|
  {
    if |pre| > 0 {
      ContainsBehind(pre[1..], s, d);
      assert (pre + s)[1..] == pre[1..] + s;
    } else {
      assert pre + s == s;
    }
  }

  /** A text that lacks a character of `d` does not contain `d`. */
  lemma LacksChar(s: string, d: string, c: char)
    requires c in d && c !in s
    ensures !Contains(s, d)
  {
    if Contains(s, d) {
      ContainsChars(s, d, c);
    }
  }

  /** Splitting `a`, a word and `b` at the word, when `a` lacks its first character and `b`
      does not contain it. */
  lemma SplitAtWord(a: string, w: string, b: string)
    requires |a| > 0 && |w| > 0 && w[0] !in a && !Contains(b, w)
    ensures JavaSplit(a + w + b, w) == if b == "" then [a] else [a, b]
  {
    var s := a + w + b;
    SplitOnFirst(a, w, b);
    SplitOnAbsent(b, w);
    assert s[|a|..|a| + |w|] == w;
    ContainsAt(s, w, |a|);
    var pieces := [a] + [b];
    assert SplitOn(s, w) == pieces;
    if b == "" {
      assert pieces[..1] == [a];
      assert DropTrailingEmpty(pieces) == DropTrailingEmpty([a]);
    }
  }

  /** The singular word followed by something other than `s` does not hold the plural, when
      the word's mark is nowhere else. */
  lemma SingularOnly(a: string, i: nat, tail: string)
    requires i < 4 && WordShape(i)
    requires MARK[i] !in a && MARK[i] !in tail
    requires tail == "" || tail[0] != 's'
    ensures !Contains(a + ONE[i] + tail, MANY[i])
  {
    var s := a + ONE[i] + tail;
    if Contains(s, MANY[i]) {
      var p := ContainsIndex(s, MANY[i]);
      NoPluralAt(a, i, tail, p);
      assert false;
    }
  }

  /** No position of that text starts the plural: either the mark is not where the plural
      has it, or the singular is followed by something other than `s`. */
  lemma NoPluralAt(a: string, i: nat, tail: string, p: nat)
    requires i < 4 && WordShape(i)
    requires MARK[i] !in a && MARK[i] !in tail
    requires tail == "" || tail[0] != 's'
    requires p + |MANY[i]| <= |a + ONE[i] + tail|
    ensures (a + ONE[i] + tail)[p..p + |MANY[i]|] != MANY[i]
  {
    var s := a + ONE[i] + tail;
    var w := ONE[i];
    var q := p + MARK_AT[i];
    var m := MANY[i];
    assert m[MARK_AT[i]] == MARK[i];
    if q < |a| {
      assert s[q] == a[q] != MARK[i];
      assert s[p..p + |m|][MARK_AT[i]] != m[MARK_AT[i]];
    } else if q >= |a| + |w| {
      assert s[q] == tail[q - |a| - |w|] != MARK[i];
      assert s[p..p + |m|][MARK_AT[i]] != m[MARK_AT[i]];
    } else if q - |a| != MARK_AT[i] {
      assert s[q] == w[q - |a|] != MARK[i];
      assert s[p..p + |m|][MARK_AT[i]] != m[MARK_AT[i]];
    } else {
      assert p == |a|;
      assert m[|w|] == 's';
      assert s[p + |w|] == tail[0] != 's';
      assert s[p..p + |m|][|w|] != m[|w|];
    }
  }

  // ---------------------------------------------------------------------------
  // The rendering
  // ---------------------------------------------------------------------------

  /** A unit's mark is a letter that the words of the other units lack. */
  lemma MarkElsewhere(i: nat, j: nat, v: int)
    requires i < 4 && j < 4 && i != j
    ensures Letter(MARK[i]) && MARK[i] !in Word(j, v)
  {
    Words(i);
    Words(j);
  }

  /** The mark of a unit is not in the rendering of the later parts. */
  lemma {:induction false} SpokenMarkFree(vals: seq<int>, i: nat, j: nat)
    requires |vals| == 4 && i < j <= 4
    ensures MARK[i] !in Spoken(vals, j)
    decreases 4 - j
  {
    if j < 4 {
      SpokenMarkFree(vals, i, j + 1);
      if vals[j] != 0 {
        var num := IntToString(vals[j]);
        var rest := Spoken(vals, j + 1);
        var s := num + " " + Word(j, vals[j]) + (if rest == "" then "" else " " + rest);
        MarkElsewhere(i, j, vals[j]);
        assert MARK[i] !in num by {
          forall k | 0 <= k < |num| ensures num[k] != MARK[i] { }
        }
        assert Spoken(vals, j) == s;
      }
    }
  }

  /** The rendering is empty exactly when every part from `i` on is zero. */
  lemma {:induction false} SpokenEmpty(vals: seq<int>, i: nat)
    requires |vals| == 4 && i <= 4
    ensures Spoken(vals, i) == "" <==> !AnyNonZero(vals, i)
    decreases 4 - i
  {
    if i < 4 {
      SpokenEmpty(vals, i + 1);
    }
  }

  /** A unit word ends in a letter. */
  lemma WordEnds(i: nat, v: int)
    requires i < 4
    ensures var w := Word(i, v);
            |w| > 0 && Letter(w[|w| - 1])
  {
    Words(i);
  }

  /** The ends of a number, a space, a word and a tail. */
  lemma Ends(num: string, w: string, tail: string)
    requires |num| > 0 && |w| > 0
    ensures var s := num + " " + w + tail;
            s[0] == num[0] && s[|s| - 1] == (if tail == "" then w[|w| - 1] else tail[|tail| - 1])
  {
  }

  /** A non-empty rendering starts with the number of its first part and ends in a letter. */
  lemma {:induction false} SpokenEnds(vals: seq<int>, i: nat)
    requires |vals| == 4 && i <= 4
    ensures Spoken(vals, i) != "" ==> !IsBlank(Spoken(vals, i)[0]) && Letter(Spoken(vals, i)[|Spoken(vals, i)| - 1])
    decreases 4 - i
  {
    if i < 4 {
      SpokenEnds(vals, i + 1);
      if vals[i] != 0 {
        var num := IntToString(vals[i]);
        var w := Word(i, vals[i]);
        var rest := Spoken(vals, i + 1);
        var tail := if rest == "" then "" else " " + rest;
        assert Spoken(vals, i) == num + " " + w + tail;
        WordEnds(i, vals[i]);
        Ends(num, w, tail);
      }
    }
  }

  /** A non-empty rendering names some unit from `i` on by the word the parser looks for. */
  lemma {:induction false} SpokenNames(vals: seq<int>, i: nat) returns (m: nat)
    requires |vals| == 4 && i <= 4 && Spoken(vals, i) != ""
    ensures i <= m < 4 && Contains(Spoken(vals, i), Word(m, vals[m]))
    decreases 4 - i
  {
    if vals[i] == 0 {
      m := SpokenNames(vals, i + 1);
    } else {
      m := i;
      var num := IntToString(vals[i]);
      var w := Word(i, vals[i]);
      var rest := Spoken(vals, i + 1);
      var s := num + " " + w + (if rest == "" then "" else " " + rest);
      assert Spoken(vals, i) == s;
      assert s[|num| + 1..|num| + 1 + |w|] == w;
      ContainsAt(s, w, |num| + 1);
    }
  }

  // ---------------------------------------------------------------------------
  // The wording of `toLongForm`
  // ---------------------------------------------------------------------------

  /** The piece `toLongForm` appends for part `i`: nothing for zero, otherwise the number, a
      space and the word, with a space after it unless it is the seconds. */
  function Piece(i: nat, v: int): string
    requires i < 4
  {
    if v == 0 then "" else IntToString(v) + " " + Word(i, v) + (if i < 3 then " " else "")
  }

  /** All pieces from `i` on, before trimming. */
  function Pieces(vals: seq<int>, i: nat): string
    requires |vals| == 4 && i <= 4
    decreases 4 - i
  {
    if i == 4 then "" else Piece(i, vals[i]) + Pieces(vals, i + 1)
  }

  /** Before trimming, the pieces are the rendering with one space behind it when the last
      non-zero part is not the seconds. */
  lemma {:induction false} PiecesSpoken(vals: seq<int>, i: nat)
    requires |vals| == 4 && i <= 4
    ensures Pieces(vals, i) == Spoken(vals, i) + (if Spoken(vals, i) != "" && vals[3] == 0 then " " else "")
    decreases 4 - i
  {
    if i < 4 {
      PiecesSpoken(vals, i + 1);
      var rest, later, piece := Spoken(vals, i + 1), Pieces(vals, i + 1), Piece(i, vals[i]);
      assert Pieces(vals, i) == piece + later;
      if vals[i] != 0 {
        var head := IntToString(vals[i]) + " " + Word(i, vals[i]);
        if i == 3 {
          assert piece == head + "" && later == "";
          assert Spoken(vals, i) == head;
        } else if rest == "" {
          SpokenEmpty(vals, i + 1);
          AllZero(vals, i + 1);
          assert piece == head + " " && later == "";
          assert Spoken(vals, i) == head;
        } else {
          var sp := if vals[3] == 0 then " " else "";
          assert piece == head + " " && later == rest + sp;
          assert Spoken(vals, i) == head + (" " + rest);
          Regroup(head, rest, sp);
        }
      }
    }
  }

  /** One piece is the part `toLongForm` appends for that unit, given its padded words. */
  lemma PieceWorded(i: nat, v: int, one: string, many: string)
    requires i < 4 && v >= 0
    requires one == " " + ONE[i] + (if i < 3 then " " else "")
    requires many == " " + MANY[i] + (if i < 3 then " " else "")
    ensures Piece(i, v) == Worded(v, one, many)
  {
    if v != 0 {
      var tail := if i < 3 then " " else "";
      var w := Word(i, v);
      assert (if v == 1 then one else many) == " " + w + tail;
      assert IntToString(v) + " " + w + tail == IntToString(v) + (" " + w + tail);
    }
  }

  /** The pieces of `toLongForm` for non-negative parts are the ones it appends. */
  lemma PiecesWorded(p: Parts)
    requires p.day >= 0 && p.hour >= 0 && p.minute >= 0 && p.second >= 0
    ensures Pieces([p.day, p.hour, p.minute, p.second], 0)
            == Worded(p.day, " day ", " days ") + Worded(p.hour, " hour ", " hours ")
               + Worded(p.minute, " minute ", " minutes ") + Worded(p.second, " second", " seconds")
  {
    var vals := [p.day, p.hour, p.minute, p.second];
    PaddedWords();
    PieceWorded(0, p.day, " day ", " days ");
    PieceWorded(1, p.hour, " hour ", " hours ");
    PieceWorded(2, p.minute, " minute ", " minutes ");
    PieceWorded(3, p.second, " second", " seconds");
    PiecesJoin(vals);
  }

  /** The words `toLongForm` appends are the unit words with their spaces. */
  lemma PaddedWords()
    ensures " day " == " " + ONE[0] + " " && " days " == " " + MANY[0] + " "
    ensures " hour " == " " + ONE[1] + " " && " hours " == " " + MANY[1] + " "
    ensures " minute " == " " + ONE[2] + " " && " minutes " == " " + MANY[2] + " "
    ensures " second" == " " + ONE[3] + "" && " seconds" == " " + MANY[3] + ""
  {
  }

  /** The pieces side by side. */
  lemma PiecesJoin(vals: seq<int>)
    requires |vals| == 4
    ensures Pieces(vals, 0) == Piece(0, vals[0]) + Piece(1, vals[1]) + Piece(2, vals[2]) + Piece(3, vals[3])
  {
    PiecesNext(vals, 0);
    PiecesNext(vals, 1);
    PiecesNext(vals, 2);
    PiecesNext(vals, 3);
    assert Piece(3, vals[3]) + "" == Piece(3, vals[3]);
    Assoc4(Piece(0, vals[0]), Piece(1, vals[1]), Piece(2, vals[2]), Piece(3, vals[3]));
  }

  lemma PiecesNext(vals: seq<int>, i: nat)
    requires |vals| == 4 && i < 4
    ensures Pieces(vals, i) == Piece(i, vals[i]) + Pieces(vals, i + 1)
  {
  }

  lemma Regroup(head: string, rest: string, sp: string)
    ensures (head + " ") + (rest + sp) == head + (" " + rest) + sp
  {
  }

  lemma Assoc4(a: string, b: string, c: string, d: string)
    ensures a + (b + (c + d)) == a + b + c + d
  {
  }

  /** `toLongForm` of a positive amount: each non-zero part with its unit word, singular for
      one and plural above one, separated by single spaces. */
  lemma LongFormWords(n: int)
    requires n > 0
    ensures var p := Breakdown(n);
            ToLongForm(n) == Spoken([p.day, p.hour, p.minute, p.second], 0)
  {
    var p := Breakdown(n);
    assert ToLongForm(n) == LongText(p);
    LongTextSpoken(p);
  }

  /** The long text of non-negative parts, not all zero, is their rendering. */
  lemma LongTextSpoken(p: Parts)
    requires p.day >= 0 && p.hour >= 0 && p.minute >= 0 && p.second >= 0
    requires p != Parts(0, 0, 0, 0)
    ensures LongText(p) == Spoken([p.day, p.hour, p.minute, p.second], 0)
  {
    var vals := [p.day, p.hour, p.minute, p.second];
    PiecesWorded(p);
    assert AnyNonZero(vals, 0) by {
      if p.day == 0 && p.hour == 0 && p.minute == 0 {
        assert AnyNonZero(vals, 3);
      } else if p.day == 0 && p.hour == 0 {
        assert AnyNonZero(vals, 2);
      } else if p.day == 0 {
        assert AnyNonZero(vals, 1);
      }
    }
    TrimmedPieces(vals);
  }

  /** The rendering of parts that are not all zero starts and ends with a visible character. */
  lemma SpokenVisible(vals: seq<int>)
    requires |vals| == 4 && AnyNonZero(vals, 0)
    ensures var x := Spoken(vals, 0);
            x != "" && !IsBlank(x[0]) && !IsBlank(x[|x| - 1])
  {
    SpokenEmpty(vals, 0);
    SpokenEnds(vals, 0);
  }

  /** Trimming the pieces of parts that are not all zero leaves the rendering. */
  lemma TrimmedPieces(vals: seq<int>)
    requires |vals| == 4 && AnyNonZero(vals, 0)
    ensures Trim(Pieces(vals, 0)) == Spoken(vals, 0)
  {
    SpokenVisible(vals);
    PiecesSpoken(vals, 0);
    TrimPadded(Pieces(vals, 0), Spoken(vals, 0), vals[3] == 0);
  }

  /** Visible text with at most one space behind it trims to itself. */
  lemma TrimPadded(t: string, x: string, pad: bool)
    requires x != "" && !IsBlank(x[0]) && !IsBlank(x[|x| - 1])
    requires t == x + (if pad then " " else "")
    ensures Trim(t) == x
  {
    TrimAround(x, if pad then " " else "");
  }

  // ---------------------------------------------------------------------------
  // Reading the rendering back
  // ---------------------------------------------------------------------------

  /** The parts the long form reads: `int` values, none negative. */
  predicate ReadableParts(vals: seq<int>) {
    |vals| == 4 && forall j :: 0 <= j < 4 ==> 0 <= vals[j] <= INT_MAX
  }

  predicate Spaces(sp: string) {
    forall j :: 0 <= j < |sp| ==> sp[j] == ' '
  }

  /** Spaces, a number and a space read back as the number. */
  lemma ReadNumberSpace(sp: string, v: int)
    requires Spaces(sp) && INT_MIN <= v <= INT_MAX
    ensures ParseInt(Remove(sp + IntToString(v) + " ", ' ')) == Some(v)
  {
    ReadNumber(sp, v);
    RemoveConcat(sp + IntToString(v), " ", ' ');
    RemoveAll(" ", ' ');
    assert Remove(sp + IntToString(v), ' ') + "" == Remove(sp + IntToString(v), ' ');
  }

  /** The number in front of a word holds no letter. */
  lemma NumberNoLetter(sp: string, v: int, c: char)
    requires Spaces(sp) && Letter(c)
    ensures c !in sp + IntToString(v) + " "
  {
    var a := sp + IntToString(v) + " ";
    forall k | 0 <= k < |a| ensures a[k] != c {
      if |sp| <= k < |sp| + |IntToString(v)| {
        assert a[k] == IntToString(v)[k - |sp|];
      }
    }
  }

  /** A stage of the long form on the number `v`, its word and `tail`, with the unit's mark
      nowhere but in the word: the number is read, and the text after the word is left when
      a later unit is named. */
  lemma StageWord(s: string, i: nat, follow: seq<string>, sp: string, v: int, tail: string)
    requires i < 4 && Spaces(sp) && 0 <= v <= INT_MAX
    requires s == (sp + IntToString(v) + " ") + Word(i, v) + tail
    requires MARK[i] !in tail && (tail == "" || tail[0] == ' ')
    requires tail != "" <==> AnyContains(s, follow)
    ensures Stage(s, LONG[i], follow) == Success(Step(if tail == "" then s else tail, Some(v)))
  {
    var a := sp + IntToString(v) + " ";
    var w := Word(i, v);
    Words(i);
    LongUnit(i);
    NumberNoLetter(sp, v, MARK[i]);
    NumberNoLetter(sp, v, w[0]);
    assert s[|a|..|a| + |w|] == w;
    ContainsAt(s, w, |a|);
    if v == 1 {
      SingularOnly(a, i, tail);
      assert FirstKey(s, LONG[i].keys) == Some(1);
    } else {
      assert FirstKey(s, LONG[i].keys) == Some(0);
    }
    assert MARK[i] in w by {
      assert w[MARK_AT[i]] == MARK[i];
    }
    LacksChar(tail, w, MARK[i]);
    SplitAtWord(a, w, tail);
    ReadNumberSpace(sp, v);
  }

  /** The long-form stage of unit `i`, looking out for the units after it. */
  function LongStage(s: string, i: nat): Result<Step, TimeError>
    requires i < 4
  {
    LongValid();
    Stage(s, LONG[i], Follow(LONG[i + 1..]))
  }

  /** A zero part is skipped: its mark is nowhere in the text. */
  lemma StageSkip(vals: seq<int>, i: nat, sp: string)
    requires ReadableParts(vals) && i < 4 && Spaces(sp) && vals[i] == 0
    ensures LongStage(sp + Spoken(vals, i), i)
            == Success(Step(sp + Spoken(vals, i), None))
  {
    var s := sp + Spoken(vals, i);
    Words(i);
    LongUnit(i);
    SpokenMarkFree(vals, i, i + 1);
    assert MARK[i] !in s by {
      assert Spoken(vals, i) == Spoken(vals, i + 1);
      forall k | 0 <= k < |s| ensures s[k] != MARK[i] {
        if k >= |sp| { assert s[k] == Spoken(vals, i + 1)[k - |sp|]; }
      }
    }
    assert MARK[i] in ONE[i] && MARK[i] in MANY[i] by {
      assert ONE[i][MARK_AT[i]] == MARK[i];
      assert MANY[i][MARK_AT[i]] == MARK[i];
    }
    LacksChar(s, ONE[i], MARK[i]);
    LacksChar(s, MANY[i], MARK[i]);
    assert FirstKey(s, LONG[i].keys) == None;
  }

  /** The word of a unit after `i` holds that unit's mark, which a text may lack. */
  lemma LaterWordsAbsent(s: string, i: nat)
    requires i < 4
    requires forall j :: i < j < 4 ==> MARK[j] !in s
    ensures forall x :: x in Follow(LONG[i + 1..]) ==> !Contains(s, x)
  {
    LongFollow(i + 1);
    forall x | x in Follow(LONG[i + 1..]) ensures !Contains(s, x) {
      var j :| i + 1 <= j < 4 && (x == ONE[j] || x == MANY[j]);
      Words(j);
      assert ONE[j][MARK_AT[j]] == MARK[j];
      assert MANY[j][MARK_AT[j]] == MARK[j];
      LacksChar(s, x, MARK[j]);
    }
  }

  /** The long-form stages from unit `i` on. */
  function LongScan(s: string, i: nat): Result<Reading, TimeError>
    requires i <= 4
  {
    LongFrom(i);
    Scan(s, LONG[i..])
  }

  lemma LongFrom(i: nat)
    requires i <= 4
    ensures ValidUnits(LONG[i..])
  {
    LongValid();
    if i < 4 {
      UnitsFrom(LONG, i);
    } else {
      assert LONG[i..] == [];
    }
  }

  /** A non-zero part followed by nothing: the number is read and no later unit is named. */
  lemma ScanSpokenLast(vals: seq<int>, i: nat, sp: string)
    requires ReadableParts(vals) && i < 4 && Spaces(sp) && vals[i] != 0
    requires Spoken(vals, i + 1) == ""
    ensures LongScan(sp + Spoken(vals, i), i) == Success(Reading(WeightedSum(vals, LONG, i), true))
  {
    var v := vals[i];
    var s := sp + Spoken(vals, i);
    var w := Word(i, v);
    assert Spoken(vals, i) == IntToString(v) + " " + w + "";
    assert s == (sp + IntToString(v) + " ") + w + "";
    Words(i);
    forall j | i < j < 4 ensures MARK[j] !in s {
      Words(j);
      NumberNoLetter(sp, v, MARK[j]);
      assert MARK[j] !in w;
    }
    LaterWordsAbsent(s, i);
    StageWord(s, i, Follow(LONG[i + 1..]), sp, v, "");
    LongValid();
    UnitsFrom(LONG, i);
    ScanNoKeys(s, LONG[i + 1..]);
    SpokenEmpty(vals, i + 1);
    AllZero(vals, i + 1);
    WeightedSumZero(vals, LONG, i + 1);
    ScanConsRead(s, LONG[i..], s, v, Reading(0, false), WeightedSum(vals, LONG, i));
  }

  /** Text followed by the rendering of later parts, not all zero, names a later unit. */
  lemma LaterNamed(vals: seq<int>, i: nat, pre: string)
    requires ReadableParts(vals) && i < 4 && Spoken(vals, i + 1) != ""
    ensures AnyContains(pre + (" " + Spoken(vals, i + 1)), Follow(LONG[i + 1..]))
  {
    var rest := Spoken(vals, i + 1);
    var s := pre + (" " + rest);
    var m := SpokenNames(vals, i + 1);
    var x := Word(m, vals[m]);
    LongFollow(i + 1);
    ContainsBehind(" ", rest, x);
    ContainsBehind(pre, " " + rest, x);
    var follow := Follow(LONG[i + 1..]);
    assert x in follow;
    var fj :| 0 <= fj < |follow| && follow[fj] == x;
    assert Contains(s, follow[fj]);
  }

  /** A non-zero part followed by more: the number is read and the later stages see the rest
      behind its separating space. */
  lemma ScanSpokenMore(vals: seq<int>, i: nat, sp: string)
    requires ReadableParts(vals) && i < 4 && Spaces(sp) && vals[i] != 0
    requires Spoken(vals, i + 1) != ""
    requires LongScan(" " + Spoken(vals, i + 1), i + 1)
             == Success(Reading(WeightedSum(vals, LONG, i + 1), AnyNonZero(vals, i + 1)))
    ensures LongScan(sp + Spoken(vals, i), i) == Success(Reading(WeightedSum(vals, LONG, i), true))
  {
    var s := sp + Spoken(vals, i);
    MoreStage(vals, i, sp);
    LongValid();
    UnitsFrom(LONG, i);
    ScanConsRead(s, LONG[i..], " " + Spoken(vals, i + 1), vals[i],
                 Reading(WeightedSum(vals, LONG, i + 1), AnyNonZero(vals, i + 1)), WeightedSum(vals, LONG, i));
  }

  /** The stage of a non-zero part followed by more reads its number and leaves the rest
      behind the separating space. */
  lemma MoreStage(vals: seq<int>, i: nat, sp: string)
    requires ReadableParts(vals) && i < 4 && Spaces(sp) && vals[i] != 0
    requires Spoken(vals, i + 1) != ""
    ensures LongStage(sp + Spoken(vals, i), i)
            == Success(Step(" " + Spoken(vals, i + 1), Some(vals[i])))
  {
    var v := vals[i];
    var s := sp + Spoken(vals, i);
    var tail := " " + Spoken(vals, i + 1);
    MoreShape(vals, i, sp);
    StageWord(s, i, Follow(LONG[i + 1..]), sp, v, tail);
  }

  /** The text such a stage sees: the number, its word and the rest, which lacks the unit's
      mark and names a later unit. */
  lemma MoreShape(vals: seq<int>, i: nat, sp: string)
    requires ReadableParts(vals) && i < 4 && vals[i] != 0
    requires Spoken(vals, i + 1) != ""
    ensures var tail := " " + Spoken(vals, i + 1);
            && sp + Spoken(vals, i) == (sp + IntToString(vals[i]) + " ") + Word(i, vals[i]) + tail
            && MARK[i] !in tail
            && AnyContains(sp + Spoken(vals, i), Follow(LONG[i + 1..]))
  {
    var v := vals[i];
    var w := Word(i, v);
    var tail := " " + Spoken(vals, i + 1);
    assert Spoken(vals, i) == IntToString(v) + " " + w + tail;
    assert sp + Spoken(vals, i) == (sp + IntToString(v) + " ") + w + tail;
    SpokenMarkFree(vals, i, i + 1);
    Words(i);
    assert MARK[i] !in tail;
    LaterNamed(vals, i, sp + IntToString(v) + " " + w);
  }

  /** A zero part is skipped and the rest read as before. */
  lemma ScanSpokenZero(vals: seq<int>, i: nat, sp: string)
    requires ReadableParts(vals) && i < 4 && Spaces(sp) && vals[i] == 0
    requires LongScan(sp + Spoken(vals, i + 1), i + 1)
             == Success(Reading(WeightedSum(vals, LONG, i + 1), AnyNonZero(vals, i + 1)))
    ensures LongScan(sp + Spoken(vals, i), i)
            == Success(Reading(WeightedSum(vals, LONG, i), AnyNonZero(vals, i)))
  {
    var s := sp + Spoken(vals, i);
    LongValid();
    UnitsFrom(LONG, i);
    StageSkip(vals, i, sp);
    ScanCons(s, LONG[i..], Step(s, None), Reading(WeightedSum(vals, LONG, i + 1), AnyNonZero(vals, i + 1)));
  }

  /** The stages read the rendering of the parts from `i` on, behind any run of spaces, as
      the weighted sum of those parts. */
  lemma {:induction false} ScanSpoken(vals: seq<int>, i: nat, sp: string)
    requires ReadableParts(vals) && i <= 4 && Spaces(sp)
    ensures LongScan(sp + Spoken(vals, i), i)
            == Success(Reading(WeightedSum(vals, LONG, i), AnyNonZero(vals, i)))
    decreases 4 - i
  {
    LongValid();
    if i == 4 {
      assert LONG[i..] == [];
    } else if vals[i] == 0 {
      ScanSpoken(vals, i + 1, sp);
      ScanSpokenZero(vals, i, sp);
    } else if Spoken(vals, i + 1) == "" {
      ScanSpokenLast(vals, i, sp);
    } else {
      ScanSpoken(vals, i + 1, " ");
      ScanSpokenMore(vals, i, sp);
    }
  }

  /** The weighted sum over the long-form units is days times 86400 plus hours times 3600
      plus minutes times 60 plus seconds. */
  lemma LongTotal(vals: seq<int>)
    requires |vals| == 4
    ensures WeightedSum(vals, LONG, 0) == vals[0] * 86400 + vals[1] * 3600 + vals[2] * 60 + vals[3]
  {
    WeightedFour(vals, LONG);
    assert LONG[0].weight == 86400 && LONG[1].weight == 3600 && LONG[2].weight == 60 && LONG[3].weight == 1;
  }

  /** When all long-form stages read a number, `fromLongForm` gives their total. */
  lemma LongRead(s: string, total: int)
    requires LongScan(s, 0) == Success(Reading(total, true))
    ensures FromLongForm(s) == Success(total)
  {
    assert LONG[0..] == LONG;
    LongValid();
    FormRead(s, LONG, total);
  }

  /** `fromLongForm` reads the rendering of non-negative `int` parts, not all zero, as
      days times 86400 plus hours times 3600 plus minutes times 60 plus seconds. */
  lemma SpokenReadsBack(vals: seq<int>)
    requires ReadableParts(vals) && AnyNonZero(vals, 0)
    ensures var r := FromLongForm(Spoken(vals, 0));
            r.Success? && r.value == vals[0] * 86400 + vals[1] * 3600 + vals[2] * 60 + vals[3]
  {
    var x := Spoken(vals, 0);
    var total := WeightedSum(vals, LONG, 0);
    ScanSpoken(vals, 0, "");
    assert "" + x == x;
    LongRead(x, total);
    LongTotal(vals);
  }

  /** Round trip: a non-negative amount of seconds whose day count is an `int` reads back
      from its long form. */
  lemma LongFormRoundTrip(n: int)
    requires n >= 0 && Breakdown(n).day <= INT_MAX
    ensures FromLongForm(ToLongForm(n)) == Success(n)
  {
    if n == 0 {
      ZeroLongRoundTrip();
    } else {
      var p := Breakdown(n);
      var x := ToLongForm(n);
      LongFormWords(n);
      assert x == Spoken([p.day, p.hour, p.minute, p.second], 0);
      PartsReadBack(p);
      var r := FromLongForm(x);
      assert r.Success? && r.value == p.day * 86400 + p.hour * 3600 + p.minute * 60 + p.second;
      assert r.value == n;
    }
  }

  /** The rendering of the parts of a positive amount reads back as their weighted sum. */
  lemma PartsReadBack(p: Parts)
    requires 0 <= p.day <= INT_MAX && 0 <= p.hour < 24 && 0 <= p.minute < 60 && 0 <= p.second < 60
    requires p != Parts(0, 0, 0, 0)
    ensures var r := FromLongForm(Spoken([p.day, p.hour, p.minute, p.second], 0));
            r.Success? && r.value == p.day * 86400 + p.hour * 3600 + p.minute * 60 + p.second
  {
    var vals := [p.day, p.hour, p.minute, p.second];
    assert AnyNonZero(vals, 0) by {
      if p.day == 0 && p.hour == 0 && p.minute == 0 {
        assert AnyNonZero(vals, 3);
      } else if p.day == 0 && p.hour == 0 {
        assert AnyNonZero(vals, 2);
      } else if p.day == 0 {
        assert AnyNonZero(vals, 1);
      }
    }
    SpokenReadsBack(vals);
  }

  /** `0 seconds` reads back as zero. */
  lemma ZeroLongRoundTrip()
    ensures FromLongForm(ToLongForm(0)) == Success(0)
  {
    ZeroReads(ToLongForm(0));
  }

  lemma ZeroReads(s: string)
    requires s == "0 seconds"
    ensures FromLongForm(s) == Success(0)
  {
    assert s == ("" + IntToString(0) + " ") + Word(3, 0) + "";
    LongValid();
    assert LONG[4..] == [];
    StageWord(s, 3, Follow(LONG[4..]), "", 0, "");
    forall k | 0 <= k < 3 ensures MARK[k] !in s {
      MarkElsewhere(k, 3, 0);
      assert MARK[k] != '0' && MARK[k] != ' ';
    }
    assert FirstKey(s, LONG[0].keys) == None by { SkipUnit(s, 0); }
    assert FirstKey(s, LONG[1].keys) == None by { SkipUnit(s, 1); }
    assert FirstKey(s, LONG[2].keys) == None by { SkipUnit(s, 2); }
    ScanLastRead(s, LONG, 0);
    FormRead(s, LONG, 0 * LONG[3].weight);
  }

  /** A text that lacks a unit's mark names neither of its words. */
  lemma SkipUnit(s: string, i: nat)
    requires i < 4 && MARK[i] !in s
    ensures FirstKey(s, LONG[i].keys) == None
  {
    Words(i);
    LongUnit(i);
    assert ONE[i][MARK_AT[i]] == MARK[i];
    assert MANY[i][MARK_AT[i]] == MARK[i];
    LacksChar(s, ONE[i], MARK[i]);
    LacksChar(s, MANY[i], MARK[i]);
  }
}
