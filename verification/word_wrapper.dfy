/** The chat word wrapper of the Sponge messager: text longer than the chat width, or holding a
    newline, is cut into lines at spaces and newlines, over-long words are cut into pieces of
    the chat width, and every line then starts with a colour code, the first one white unless
    it starts with a code and each later one with the colour the previous line ended in. */
module WordWrapping {
  import opened Wrappers
  import opened Strings
  import opened ChatColors

  const CHAT_WIDTH: nat := 55

  /** `ArrayIndexOutOfBoundsException` for a section sign as the last character;
      `IndexOutOfBoundsException` when no line was collected; `StringIndexOutOfBoundsException`
      when a line ends in a section sign. */
  datatype WrapError = CodeAtEnd | NoLines | CodeAtLineEnd

  /** The loop's builders: the current word and line, the lines so far, and the number of
      code characters counted against the current line. */
  datatype WrapState = WrapState(word: string, line: string, lines: seq<string>, lineColorChars: nat)

  const START: WrapState := WrapState("", "", [], 0)

  /** What appending `ChatColor.getByChar(ch)` to a builder appends: the code's text, or
      `null` for a character that names no code. */
  function CodeText(ch: char): (r: string)
    ensures GetByChar(ch).Some? ==> r == [COLOR_CHAR, ch]
  {
    match GetByChar(ch)
    case Some(c) => ToString(c)
    case None => "null"
  }

  /** The strings joined with nothing between them. */
  function Concat(xs: seq<string>): string
    decreases |xs|
  {
    if |xs| == 0 then "" else xs[0] + Concat(xs[1..])
  }

  /** Whether `split("(?<=\\G.{55})")` cuts a piece off the front of `w`: it is longer than
      the chat width and its first 55 characters hold no line terminator, which the
      regular-expression dot does not match. */
  predicate Cuttable(w: string) {
    |w| > CHAT_WIDTH && forall j :: 0 <= j < CHAT_WIDTH ==> !IsLineTerminator(w[j])
  }

  /** `split("(?<=\\G.{55})")`: pieces of the chat width cut from the front while they can be;
      since the pattern is anchored at the end of the previous cut, the first window holding
      a line terminator ends the cutting, and the rest stays one piece. */
  function Chunks(w: string): (r: seq<string>)
    ensures |r| >= 1 && Concat(r) == w
    ensures forall k :: 0 <= k < |r| - 1 ==> |r[k]| == CHAT_WIDTH && Cuttable(r[k] + Concat(r[k + 1..]))
    ensures !Cuttable(r[|r| - 1])
    ensures (forall j :: 0 <= j < |w| ==> !IsLineTerminator(w[j])) ==> forall k :: 0 <= k < |r| ==> |r[k]| <= CHAT_WIDTH
    decreases |w|
  {
    if !Cuttable(w) then [w]
    else
      var rest := Chunks(w[CHAT_WIDTH..]);
      var r := [w[..CHAT_WIDTH]] + rest;
      assert r[1..] == rest;
      assert Concat(r) == w[..CHAT_WIDTH] + Concat(rest);
      assert (forall j :: 0 <= j < |w| ==> !IsLineTerminator(w[j])) ==>
             forall j :: 0 <= j < |w[CHAT_WIDTH..]| ==> !IsLineTerminator(w[CHAT_WIDTH..][j]);
      forall k | 1 <= k < |r| - 1 ensures r[k] + Concat(r[k + 1..]) == rest[k - 1] + Concat(rest[k..]) {
        assert r[k + 1..] == rest[k..];
      }
      r
  }

  /** A line terminator among the first 55 characters leaves the word whole, however long. */
  lemma TerminatorKeepsWordWhole(w: string, t: nat)
    requires t < CHAT_WIDTH < |w| && IsLineTerminator(w[t])
    ensures Chunks(w) == [w]
  {
  }

  /** The word at a space or newline: it goes into the line, or the line is emitted first, or
      the word is cut into pieces; the word is then empty. */
  function Break(st: WrapState): (r: WrapState)
    ensures r.word == ""
  {
    if |st.line| == 0 && |st.word| > CHAT_WIDTH then
      st.(lines := st.lines + Chunks(st.word), word := "")
    else if |st.line| + |st.word| - st.lineColorChars == CHAT_WIDTH then
      st.(lines := st.lines + [st.line + st.word], line := "", lineColorChars := 0, word := "")
    else if |st.line| + 1 + |st.word| - st.lineColorChars > CHAT_WIDTH then
      var parts := Chunks(st.word);
      st.(lines := st.lines + [st.line] + parts[..|parts| - 1], line := parts[|parts| - 1],
          lineColorChars := 0, word := "")
    else
      st.(line := (if |st.line| > 0 then st.line + " " else st.line) + st.word, word := "")
  }

  /** Emitting the current line. */
  function Flush(st: WrapState): (r: WrapState)
    ensures r.line == "" && r.word == st.word && r.lines == st.lines + [st.line]
  {
    st.(lines := st.lines + [st.line], line := "")
  }

  /** One space or newline: the word is placed, and a newline then emits the line. */
  function Separate(st: WrapState, c: char): (r: WrapState)
    ensures r.word == ""
  {
    if c == '\n' then Flush(Break(st)) else Break(st)
  }

  /** The character loop from index `i`: a section sign takes the next character as a code
      for the word, a space or newline separates, anything else extends the word. */
  function Scan(raw: string, i: nat, st: WrapState): (r: Result<WrapState, WrapError>)
    ensures r.Failure? ==> r.error == CodeAtEnd && |raw| > 0 && raw[|raw| - 1] == COLOR_CHAR
    decreases |raw| - i
  {
    if i >= |raw| then Success(st)
    else if raw[i] == COLOR_CHAR then
      if i + 1 >= |raw| then Failure(CodeAtEnd)
      else Scan(raw, i + 2, st.(word := st.word + CodeText(raw[i + 1]),
                                lineColorChars := st.lineColorChars + 2))
    else if raw[i] == ' ' || raw[i] == '\n' then Scan(raw, i + 1, Separate(st, raw[i]))
    else Scan(raw, i + 1, st.(word := st.word + [raw[i]]))
  }

  /** The lines after the loop: the current line is added when it is not empty; the pending
      word is not looked at. */
  function Collect(st: WrapState): seq<string> {
    if |st.line| > 0 then st.lines + [st.line] else st.lines
  }

  /** The colour of the line after `prev`: the character after its last section sign. */
  function NextColour(prev: string): Result<char, WrapError> {
    var at := LastIndexOf(prev, COLOR_CHAR) + 1;
    if at < |prev| then Success(prev[at]) else Failure(CodeAtLineEnd)
  }

  predicate StartsWithCode(line: string) {
    |line| > 0 && line[0] == COLOR_CHAR
  }

  /** A line after the colour pass: it ends with the line it was made from, and a line that
      already started with a code is left as it was. */
  predicate Kept(out: string, line: string) {
    |line| <= |out| && out[|out| - |line|..] == line && (StartsWithCode(line) ==> out == line)
  }

  /** The later lines of the colour pass, each seeing the already coloured line before it. */
  function ColourFrom(prev: string, lines: seq<string>): (r: Result<seq<string>, WrapError>)
    ensures r.Success? ==> |r.value| == |lines| && forall k :: 0 <= k < |lines| ==> Kept(r.value[k], lines[k])
    decreases |lines|
  {
    if |lines| == 0 then Success([])
    else match NextColour(prev)
      case Failure(e) => Failure(e)
      case Success(colour) =>
        var next := if StartsWithCode(lines[0]) then lines[0] else CodeText(colour) + lines[0];
        match ColourFrom(next, lines[1..])
        case Failure(e) => Failure(e)
        case Success(rest) =>
          KeptPrefix(CodeText(colour), lines[0]);
          KeptCons(next, rest, lines);
          Success([next] + rest)
  }

  /** A line not starting with a code is kept behind any prefix, and one that does by itself. */
  lemma KeptPrefix(pre: string, line: string)
    ensures !StartsWithCode(line) ==> Kept(pre + line, line)
    ensures Kept(line, line)
  {
    assert (pre + line)[|pre + line| - |line|..] == line;
  }

  lemma KeptCons(next: string, rest: seq<string>, lines: seq<string>)
    requires |lines| > 0 && Kept(next, lines[0]) && |rest| == |lines| - 1
    requires forall k :: 0 <= k < |rest| ==> Kept(rest[k], lines[1..][k])
    ensures forall k :: 0 <= k < |lines| ==> Kept(([next] + rest)[k], lines[k])
  {
    forall k | 0 <= k < |lines| ensures Kept(([next] + rest)[k], lines[k]) {
      if k > 0 {
        assert ([next] + rest)[k] == rest[k - 1] && lines[k] == lines[1..][k - 1];
      }
    }
  }

  /** The colour pass: white before a first line that does not start with a code, then each
      later line inherits. */
  function Colourise(lines: seq<string>): (r: Result<seq<string>, WrapError>)
    requires |lines| > 0
    ensures r.Success? ==> |r.value| == |lines| && forall k :: 0 <= k < |lines| ==> Kept(r.value[k], lines[k])
    ensures r.Success? ==> StartsWithCode(r.value[0])
  {
    var first := if StartsWithCode(lines[0]) then lines[0] else ToString(WHITE) + lines[0];
    match ColourFrom(first, lines[1..])
    case Failure(e) => Failure(e)
    case Success(rest) =>
      KeptPrefix(ToString(WHITE), lines[0]);
      KeptCons(first, rest, lines);
      Success([first] + rest)
  }

  /** A text within the chat width and without a newline is left alone. */
  predicate Short(raw: string) {
    |raw| <= CHAT_WIDTH && '\n' !in raw
  }

  /** The loop's outcome turned into the coloured lines. */
  function Finish(scanned: Result<WrapState, WrapError>): (r: Result<seq<string>, WrapError>)
    ensures r.Success? ==> |r.value| > 0 && StartsWithCode(r.value[0])
  {
    match scanned
    case Failure(e) => Failure(e)
    case Success(st) =>
      var lines := Collect(st);
      if |lines| == 0 then Failure(NoLines) else Colourise(lines)
  }

  /** `wrapWords` as written: the characters of the text are scanned as they are. */
  function WrapWords(raw: string): (r: Result<seq<string>, WrapError>)
    ensures r.Failure? ==> !Short(raw)
    ensures r.Success? ==> |r.value| > 0 && (!Short(raw) ==> StartsWithCode(r.value[0]))
  {
    if Short(raw) then Success([raw]) else Finish(Scan(raw, 0, START))
  }

  /** `wrapWords` as evidently intended: the text is scanned with a space after it, so that
      the last word is separated like every other. */
  function WrapWordsFixed(raw: string): (r: Result<seq<string>, WrapError>)
    ensures r.Failure? ==> !Short(raw)
    ensures r.Success? ==> |r.value| > 0 && (!Short(raw) ==> StartsWithCode(r.value[0]))
  {
    if Short(raw) then Success([raw]) else Finish(Scan(raw + " ", 0, START))
  }

  // ---------------------------------------------------------------------------
  // Properties
  // ---------------------------------------------------------------------------

  /** A short text without a newline comes back as the one line it is, in both versions. */
  lemma ShortUnchanged(raw: string)
    requires |raw| <= CHAT_WIDTH && '\n' !in raw
    ensures WrapWords(raw) == Success([raw]) && WrapWordsFixed(raw) == Success([raw])
  {
  }

  /** A newline emits the current line, whatever it holds, and starts an empty one. */
  lemma NewlineFlushes(st: WrapState)
    ensures var r := Separate(st, '\n');
            r.line == "" && r.word == "" && |r.lines| > |st.lines| && r.lines[..|st.lines|] == st.lines
  {
    var b := Break(st);
    assert b.lines[..|st.lines|] == st.lines;
    assert (b.lines + [b.line])[..|st.lines|] == b.lines[..|st.lines|];
  }

  /** A coloured line as the pass makes it from the coloured line before it. */
  predicate Inherits(before: string, line: string, out: string) {
    NextColour(before).Success?
    && out == (if StartsWithCode(line) then line else CodeText(NextColour(before).value) + line)
  }

  /** Each coloured line is the collected one, unchanged when it starts with a code and
      otherwise after the colour the coloured line before it ended in. */
  lemma {:induction false} ColourInherits(prev: string, lines: seq<string>)
    requires ColourFrom(prev, lines).Success?
    ensures var out := ColourFrom(prev, lines).value;
            |out| == |lines|
            && (|lines| > 0 ==> Inherits(prev, lines[0], out[0]))
            && forall k :: 1 <= k < |lines| ==> Inherits(out[k - 1], lines[k], out[k])
    decreases |lines|
  {
    if |lines| > 0 {
      var colour := NextColour(prev).value;
      var next := if StartsWithCode(lines[0]) then lines[0] else CodeText(colour) + lines[0];
      ColourInherits(next, lines[1..]);
      var rest := ColourFrom(next, lines[1..]).value;
      var out := ColourFrom(prev, lines).value;
      assert out == [next] + rest;
      forall k | 1 <= k < |lines| ensures Inherits(out[k - 1], lines[k], out[k]) {
        assert lines[1..][k - 1] == lines[k];
        if k > 1 {
          assert Inherits(rest[k - 2], lines[1..][k - 1], rest[k - 1]);
        }
      }
    }
  }

  /** The first line is white unless it starts with a code. */
  lemma FirstLineWhite(lines: seq<string>)
    requires |lines| > 0 && Colourise(lines).Success?
    ensures var out := Colourise(lines).value;
            |out| == |lines|
            && out[0] == (if StartsWithCode(lines[0]) then lines[0] else [COLOR_CHAR, 'f'] + lines[0])
  {
    var first := if StartsWithCode(lines[0]) then lines[0] else ToString(WHITE) + lines[0];
    ColourInherits(first, lines[1..]);
  }

  // ---------------------------------------------------------------------------
  // What reaches the lines: the text's characters other than spaces and newlines
  // ---------------------------------------------------------------------------

  /** The text without its spaces and newlines. */
  function Letters(s: string): string {
    Remove(Remove(s, ' '), '\n')
  }

  lemma LettersConcat(a: string, b: string)
    ensures Letters(a + b) == Letters(a) + Letters(b)
  {
    RemoveConcat(a, b, ' ');
    RemoveConcat(Remove(a, ' '), Remove(b, ' '), '\n');
  }

  /** Everything the builders hold, in order. */
  function Text(st: WrapState): string {
    Concat(st.lines) + st.line + st.word
  }

  lemma {:induction false} ConcatAppend(xs: seq<string>, ys: seq<string>)
    ensures Concat(xs + ys) == Concat(xs) + Concat(ys)
    decreases |xs|
  {
    if |xs| == 0 {
      assert xs + ys == ys;
    } else {
      assert (xs + ys)[1..] == xs[1..] + ys;
      ConcatAppend(xs[1..], ys);
    }
  }

  lemma ConcatOne(x: string)
    ensures Concat([x]) == x
  {
    assert [x][1..] == [];
  }

  /** The pieces but the last, joined, and then the last one give the whole. */
  lemma ConcatInit(parts: seq<string>, word: string)
    requires |parts| > 0 && Concat(parts) == word
    ensures Concat(parts[..|parts| - 1]) + parts[|parts| - 1] == word
  {
    var k := |parts| - 1;
    assert parts == parts[..k] + [parts[k]];
    ConcatAppend(parts[..k], [parts[k]]);
    ConcatOne(parts[k]);
  }

  /** Cutting a word into pieces and emitting the line first keeps the text. */
  lemma CutKeepsText(lines: seq<string>, line: string, word: string, parts: seq<string>)
    requires |parts| > 0 && Concat(parts) == word
    ensures Concat(lines + [line] + parts[..|parts| - 1]) + parts[|parts| - 1]
            == Concat(lines) + line + word
  {
    var init := parts[..|parts| - 1];
    var last := parts[|parts| - 1];
    ConcatInit(parts, word);
    ConcatAppend(lines + [line], init);
    EmitKeepsText(lines, line);
    StringAssoc(Concat(lines) + line, Concat(init), last);
  }

  /** Regrouping three texts, kept apart from the lemma above: stated inline there, with the
      concatenations in scope, the step costs the solver far more. */
  lemma StringAssoc(a: string, b: string, c: string)
    ensures a + b + c == a + (b + c)
  {
  }

  lemma EmitKeepsText(lines: seq<string>, line: string)
    ensures Concat(lines + [line]) == Concat(lines) + line
  {
    ConcatAppend(lines, [line]);
    ConcatOne(line);
  }

  /** A word added to a non-empty line after a space keeps the letters. */
  lemma SpaceKeepsLetters(before: string, line: string, word: string)
    ensures Letters(before + line + " " + word) == Letters(before + line + word)
  {
    LettersConcat(before + line, " ");
    LettersConcat(before + line + " ", word);
    LettersConcat(before + line, word);
  }

  /** Placing the word moves text between the builders and adds at most a space. */
  lemma BreakKeepsLetters(st: WrapState)
    ensures Letters(Text(Break(st))) == Letters(Text(st))
  {
    if |st.line| == 0 && |st.word| > CHAT_WIDTH {
      ConcatAppend(st.lines, Chunks(st.word));
      assert Text(Break(st)) == Text(st);
    } else if |st.line| + |st.word| - st.lineColorChars == CHAT_WIDTH {
      EmitKeepsText(st.lines, st.line + st.word);
      assert Text(Break(st)) == Text(st);
    } else if |st.line| + 1 + |st.word| - st.lineColorChars > CHAT_WIDTH {
      CutKeepsText(st.lines, st.line, st.word, Chunks(st.word));
      assert Text(Break(st)) == Text(st);
    } else if |st.line| > 0 {
      assert Text(Break(st)) == Concat(st.lines) + st.line + " " + st.word;
      SpaceKeepsLetters(Concat(st.lines), st.line, st.word);
    } else {
      assert Text(Break(st)) == Text(st);
    }
  }

  /** A separator keeps the letters the builders hold. */
  lemma SeparateKeepsLetters(st: WrapState, c: char)
    ensures Letters(Text(Separate(st, c))) == Letters(Text(st))
  {
    BreakKeepsLetters(st);
    var b := Break(st);
    if c == '\n' {
      EmitKeepsText(b.lines, b.line);
      assert Text(Flush(b)) == Text(b);
    }
  }

  /** The state after one character that is not a section sign. */
  function Advance(st: WrapState, c: char): WrapState {
    if c == ' ' || c == '\n' then Separate(st, c) else st.(word := st.word + [c])
  }

  lemma ScanPlainStep(raw: string, i: nat, st: WrapState)
    requires i < |raw| && raw[i] != COLOR_CHAR
    ensures Scan(raw, i, st) == Scan(raw, i + 1, Advance(st, raw[i]))
  {
  }

  /** One character that is not a section sign keeps the letters. */
  lemma AdvanceKeepsLetters(st: WrapState, c: char)
    requires c != COLOR_CHAR
    ensures Letters(Text(Advance(st, c))) == Letters(Text(st)) + Letters([c])
  {
    if c == ' ' || c == '\n' {
      SeparateKeepsLetters(st, c);
      assert Letters([c]) == "";
    } else {
      assert Text(Advance(st, c)) == Text(st) + [c];
      LettersConcat(Text(st), [c]);
    }
  }

  /** Over a text without section signs the loop succeeds, keeps every character other than
      spaces and newlines, and ends with no pending word when the text ends in a space. */
  lemma {:induction false} ScanKeepsLetters(raw: string, i: nat, st: WrapState)
    requires i <= |raw| && COLOR_CHAR !in raw
    requires Letters(Text(st)) == Letters(raw[..i])
    ensures Scan(raw, i, st).Success?
    ensures Letters(Text(Scan(raw, i, st).value)) == Letters(raw)
    ensures i < |raw| && raw[|raw| - 1] == ' ' ==> Scan(raw, i, st).value.word == ""
    decreases |raw| - i, 1
  {
    if i < |raw| {
      ScanKeepsFrom(raw, i, st);
    } else {
      assert raw[..i] == raw;
    }
  }

  lemma {:induction false} ScanKeepsFrom(raw: string, i: nat, st: WrapState)
    requires i < |raw| && COLOR_CHAR !in raw
    requires Letters(Text(st)) == Letters(raw[..i])
    ensures Scan(raw, i, st).Success?
    ensures Letters(Text(Scan(raw, i, st).value)) == Letters(raw)
    ensures raw[|raw| - 1] == ' ' ==> Scan(raw, i, st).value.word == ""
    decreases |raw| - i, 0
  {
    var c := raw[i];
    assert c in raw;
    assert raw[..i + 1] == raw[..i] + [c];
    LettersConcat(raw[..i], [c]);
    AdvanceKeepsLetters(st, c);
    var next := Advance(st, c);
    ScanKeepsLetters(raw, i + 1, next);
    ScanPlainStep(raw, i, st);
    if i + 1 == |raw| && c == ' ' {
      assert Scan(raw, i + 1, next) == Success(next);
    }
  }

  /** A character other than a space or newline is in the text exactly when it is among its
      letters. */
  lemma {:induction false} LettersKeep(s: string, ch: char)
    requires ch != ' ' && ch != '\n'
    ensures ch in Letters(s) <==> ch in s
    decreases |s|
  {
    if |s| > 0 {
      LettersKeep(s[1..], ch);
      assert s == [s[0]] + s[1..];
      LettersConcat([s[0]], s[1..]);
      assert ch in s <==> ch == s[0] || ch in s[1..];
    }
  }

  /** A character absent from the joined lines is absent from each. */
  lemma {:induction false} ConcatFree(xs: seq<string>, ch: char)
    requires ch !in Concat(xs)
    ensures forall k :: 0 <= k < |xs| ==> ch !in xs[k]
    decreases |xs|
  {
    if |xs| > 0 {
      ConcatFree(xs[1..], ch);
      forall k | 1 <= k < |xs| ensures ch !in xs[k] {
        assert xs[k] == xs[1..][k - 1];
      }
    }
  }

  /** Every line after a white code. */
  function Whitened(lines: seq<string>): (r: seq<string>)
    ensures |r| == |lines| && forall k :: 0 <= k < |lines| ==> r[k] == ToString(WHITE) + lines[k]
  {
    seq(|lines|, k requires 0 <= k < |lines| => ToString(WHITE) + lines[k])
  }

  /** The last section sign of a white line without other codes is its first character. */
  lemma WhiteColour(p: string)
    requires COLOR_CHAR !in p
    ensures NextColour(ToString(WHITE) + p) == Success('f')
  {
    var s := ToString(WHITE) + p;
    assert s[0] == COLOR_CHAR;
  }

  /** No line holds a section sign. */
  predicate NoCodes(lines: seq<string>) {
    forall k :: 0 <= k < |lines| ==> COLOR_CHAR !in lines[k]
  }

  lemma NoCodesTail(lines: seq<string>)
    requires |lines| > 0 && NoCodes(lines)
    ensures NoCodes(lines[1..]) && COLOR_CHAR !in lines[0]
  {
    assert forall k :: 0 <= k < |lines[1..]| ==> lines[1..][k] == lines[k + 1];
  }

  /** A line without a section sign does not start with a code. */
  lemma PlainNoCode(line: string)
    requires COLOR_CHAR !in line
    ensures !StartsWithCode(line)
  {
    if |line| > 0 {
      assert line[0] in line;
    }
  }

  /** The white code is what appending the colour of `f` appends. */
  lemma WhiteCodeText()
    ensures CodeText('f') == ToString(WHITE)
  {
    GetByCharCode(WHITE);
  }

  /** The pass from `prev` over at least one line, one step unfolded. */
  lemma ColourFromCons(prev: string, lines: seq<string>, colour: char, next: string, rest: seq<string>)
    requires |lines| > 0 && NextColour(prev) == Success(colour)
    requires next == (if StartsWithCode(lines[0]) then lines[0] else CodeText(colour) + lines[0])
    requires ColourFrom(next, lines[1..]) == Success(rest)
    ensures ColourFrom(prev, lines) == Success([next] + rest)
  {
  }

  lemma WhitenedCons(lines: seq<string>)
    requires |lines| > 0
    ensures [ToString(WHITE) + lines[0]] + Whitened(lines[1..]) == Whitened(lines)
  {
  }

  /** Lines without codes all come out white. */
  lemma {:induction false} PlainColourFrom(p: string, lines: seq<string>)
    requires COLOR_CHAR !in p && NoCodes(lines)
    ensures ColourFrom(ToString(WHITE) + p, lines) == Success(Whitened(lines))
    decreases |lines|, 1
  {
    if |lines| > 0 {
      PlainColourStep(p, lines);
    } else {
      assert Whitened(lines) == [];
    }
  }

  lemma {:induction false} PlainColourStep(p: string, lines: seq<string>)
    requires COLOR_CHAR !in p && NoCodes(lines) && |lines| > 0
    ensures ColourFrom(ToString(WHITE) + p, lines) == Success(Whitened(lines))
    decreases |lines|, 0
  {
    NoCodesTail(lines);
    PlainColourFrom(lines[0], lines[1..]);
    WhiteColour(p);
    WhiteCodeText();
    PlainNoCode(lines[0]);
    ColourFromCons(ToString(WHITE) + p, lines, 'f', ToString(WHITE) + lines[0], Whitened(lines[1..]));
    WhitenedCons(lines);
  }

  /** The colour pass over lines without codes whitens every one. */
  lemma PlainColourise(lines: seq<string>)
    requires |lines| > 0 && NoCodes(lines)
    ensures Colourise(lines) == Success(Whitened(lines))
  {
    NoCodesTail(lines);
    PlainNoCode(lines[0]);
    PlainColourFrom(lines[0], lines[1..]);
    WhitenedCons(lines);
  }

  /** With the trailing space, the loop over a text without section signs collects lines that
      hold all its letters. */
  lemma FixedScanLetters(raw: string)
    requires COLOR_CHAR !in raw
    ensures Scan(raw + " ", 0, START).Success?
    ensures Letters(Concat(Collect(Scan(raw + " ", 0, START).value))) == Letters(raw)
  {
    var padded := raw + " ";
    assert COLOR_CHAR !in padded;
    assert padded[..0] == "";
    ScanKeepsLetters(padded, 0, START);
    var st := Scan(padded, 0, START).value;
    LettersConcat(raw, " ");
    assert Letters(" ") == "";
    if |st.line| > 0 {
      EmitKeepsText(st.lines, st.line);
    }
    assert Text(st) == Concat(Collect(st));
  }

  /** With the trailing word separated, a text without section signs that has anything besides
      spaces and newlines is wrapped without error: the lines the loop collects, each after the
      white code, which between them hold every other character of the text, in order. */
  lemma FixedKeepsEveryWord(raw: string)
    requires COLOR_CHAR !in raw && !Short(raw) && Letters(raw) != ""
    ensures Scan(raw + " ", 0, START).Success?
    ensures var lines := Collect(Scan(raw + " ", 0, START).value);
            WrapWordsFixed(raw) == Success(Whitened(lines)) && Letters(Concat(lines)) == Letters(raw)
  {
    FixedScanLetters(raw);
    var lines := Collect(Scan(raw + " ", 0, START).value);
    assert |lines| > 0;
    LettersKeep(Concat(lines), COLOR_CHAR);
    LettersKeep(raw, COLOR_CHAR);
    ConcatFree(lines, COLOR_CHAR);
    PlainColourise(lines);
  }

  /** As written, the same text loses exactly the word after its last space or newline: the
      collected lines and the pending word hold the text's other characters between them. */
  lemma WrittenLosesPendingWord(raw: string)
    requires COLOR_CHAR !in raw
    ensures Scan(raw, 0, START).Success?
    ensures var st := Scan(raw, 0, START).value;
            Letters(Concat(Collect(st))) + Letters(st.word) == Letters(raw)
  {
    assert raw[..0] == "";
    ScanKeepsLetters(raw, 0, START);
    var st := Scan(raw, 0, START).value;
    if |st.line| > 0 {
      EmitKeepsText(st.lines, st.line);
    }
    assert Text(st) == Concat(Collect(st)) + st.word;
    LettersConcat(Concat(Collect(st)), st.word);
  }

  /** The loop over "a", a newline, "b": one line "a", and "b" left as the pending word. */
  lemma ScanOfExample(padded: bool)
    ensures var raw := if padded then "a\nb " else "a\nb";
            Scan(raw, 0, START)
            == Success(if padded then WrapState("", "b", ["a"], 0) else WrapState("b", "", ["a"], 0))
  {
    var raw := if padded then "a\nb " else "a\nb";
    assert raw[0] == 'a' && raw[1] == '\n' && raw[2] == 'b';
    var st1 := WrapState("a", "", [], 0);
    assert START.(word := START.word + [raw[0]]) == st1;
    assert Scan(raw, 0, START) == Scan(raw, 1, st1);
    assert Break(st1) == WrapState("", "a", [], 0);
    var st2 := WrapState("", "", ["a"], 0);
    assert Separate(st1, '\n') == st2;
    var st3 := WrapState("b", "", ["a"], 0);
    assert st2.(word := st2.word + [raw[2]]) == st3;
    assert Scan(raw, 1, st1) == Scan(raw, 2, st2);
    assert Scan(raw, 2, st2) == Scan(raw, 3, st3);
    if padded {
      assert raw[3] == ' ' && |raw| == 4;
      var st4 := WrapState("", "b", ["a"], 0);
      assert Break(st3) == st4;
      assert Scan(raw, 3, st3) == Scan(raw, 4, st4);
    }
  }

  /** "a", a newline, "b": as written the "b" never reaches a line; with the trailing word
      separated it is the second line. */
  lemma LastWordDropped()
    ensures WrapWords("a\nb") == Success([[COLOR_CHAR, 'f', 'a']])
    ensures WrapWordsFixed("a\nb") == Success([[COLOR_CHAR, 'f', 'a'], [COLOR_CHAR, 'f', 'b']])
  {
    var raw := "a\nb";
    assert !Short(raw) by { assert raw[1] in raw; }
    ScanOfExample(false);
    ScanOfExample(true);
    assert raw + " " == "a\nb ";
    var written := ["a"];
    var fixed := ["a", "b"];
    assert Collect(WrapState("b", "", ["a"], 0)) == written;
    assert Collect(WrapState("", "b", ["a"], 0)) == fixed;
    assert NoCodes(written) && NoCodes(fixed);
    PlainColourise(written);
    PlainColourise(fixed);
    WhitenedExample();
  }

  lemma WhitenedExample()
    ensures Whitened(["a"]) == [[COLOR_CHAR, 'f', 'a']]
    ensures Whitened(["a", "b"]) == [[COLOR_CHAR, 'f', 'a'], [COLOR_CHAR, 'f', 'b']]
  {
    assert ToString(WHITE) == [COLOR_CHAR, 'f'];
    assert ToString(WHITE) + "a" == [COLOR_CHAR, 'f', 'a'];
    assert ToString(WHITE) + "b" == [COLOR_CHAR, 'f', 'b'];
  }
}
