/** Inserting the comments of a comment map into the text of a YAML document: the document is
    cut into lines, the dotted path of every node line is tracked from its indentation, and the
    comments for that path are put on the lines above it. The file is read and written by the
    caller; the platform line separator is a parameter `nl`. */
module YamlInstrumenter {
  import opened Wrappers
  import opened Strings
  import opened YamlComments

  const PATH_SEPARATOR: char := '.'

  /** `ArithmeticException` (an indentation of zero) and `StringIndexOutOfBoundsException`
      (a path with fewer levels than the indentation asks to remove). */
  datatype InstrumentError = DivisionByZero | IndexOutOfBounds

  /** The comment map and the number of spaces of one indentation level. */
  datatype Instrumenter = Instrumenter(comments: CommentMap, indentLength: nat)

  /** The path of the last node seen and its depth. */
  datatype Tracker = Tracker(path: string, depth: nat)

  /** One instrumented line and the tracker after it. */
  datatype Step = Step(out: string, tracker: Tracker)

  /** `createCommentInstrumenter`: an empty map with the given indentation and `.` paths. */
  function CreateInstrumenter(indentLength: nat): (r: Instrumenter)
    ensures r.indentLength == indentLength && |r.comments.indent| == indentLength
    ensures r.comments.separator == PATH_SEPARATOR && !HasComments(r.comments)
  {
    Instrumenter(NewCommentMap(indentLength, PATH_SEPARATOR), indentLength)
  }

  /** `setCommentsForPath`, handed to the map. */
  function SetCommentsForPath(ins: Instrumenter, path: string, lines: seq<string>, nl: string): (r: Instrumenter)
    requires |lines| > 0
    ensures r.indentLength == ins.indentLength && HasComments(r.comments)
    ensures GetComments(r.comments, path)
            == Join(Prepared(LeadingWhitespace(ins.comments.indent, ins.comments.separator, path), lines), nl)
  {
    SetThenGet(ins.comments, path, lines, nl, path);
    ins.(comments := SetComments(ins.comments, path, lines, nl))
  }

  // ---------------------------------------------------------------------------
  // Text helpers
  // ---------------------------------------------------------------------------

  /** `indexOf(d)`: the first position where `d` occurs. */
  function IndexOf(s: string, d: string): (r: Option<nat>)
    ensures r.None? <==> !Contains(s, d)
    ensures r.Some? ==> r.value + |d| <= |s| && StartsWith(s[r.value..], d)
    ensures r.Some? ==> forall j :: 0 <= j < r.value ==> !StartsWith(s[j..], d)
    decreases |s|
  {
    if StartsWith(s, d) then Some(0)
    else if |s| == 0 then None
    else
      match IndexOf(s[1..], d)
      case None => None
      case Some(i) =>
        assert forall j :: 1 <= j <= i + 1 ==> s[1..][j - 1..] == s[j..];
        assert s[0..] == s;
        Some(i + 1)
  }

  /** `currentLineIsYamlNode`: the trimmed line is neither empty nor a comment, and holds `: `
      or ends with `:` after at least one other character. */
  predicate IsNode(line: string) {
    var t := Trim(line);
    |t| > 0 && t[0] != '#' && (Contains(t, ": ") || (|t| > 1 && t[|t| - 1] == ':'))
  }

  /** `getCurrentNodeName`: the trimmed line up to its first `: `, or all but its last
      character. */
  function NodeName(line: string): (r: string)
    requires IsNode(line)
    ensures StartsWith(Trim(line), r)
    ensures Contains(Trim(line), ": ") ==> StartsWith(Trim(line)[|r|..], ": ")
    ensures !Contains(Trim(line), ": ") ==> Trim(line) == r + ":"
  {
    var t := Trim(line);
    match IndexOf(t, ": ")
    case Some(i) => t[..i]
    case None => t[..|t| - 1]
  }

  /** `getWhiteSpacePrecedingCurrentLine`: the spaces before the first other character. */
  function LeadingSpaces(line: string): (r: nat)
    ensures r <= |line| && (forall i :: 0 <= i < r ==> line[i] == ' ')
    ensures r == |line| || line[r] != ' '
    decreases |line|
  {
    if |line| > 0 && line[0] == ' ' then 1 + LeadingSpaces(line[1..]) else 0
  }

  /** `getCurrentNodeDepth`: whole indentation levels in the leading spaces. */
  function NodeDepth(spaces: nat, indentLength: nat): (d: nat)
    requires indentLength > 0
    ensures d * indentLength <= spaces < d * indentLength + indentLength
  {
    spaces / indentLength
  }

  /** `removeDepthFromPath`: cut the path at its last separator `levels` times. */
  function DropLevels(path: string, levels: nat): Result<string, InstrumentError>
    decreases levels
  {
    if levels == 0 then Success(path)
    else
      var i := LastIndexOf(path, PATH_SEPARATOR);
      if i < 0 then Failure(IndexOutOfBounds) else DropLevels(path[..i], levels - 1)
  }

  /** `removeFinalNodeFromPath`: keep the path up to and including its last separator, or
      nothing when it has none. */
  function RemoveFinal(path: string): (r: string)
    ensures PATH_SEPARATOR !in path ==> r == ""
    ensures PATH_SEPARATOR in path ==> StartsWith(path, r) && |r| > 0 && r[|r| - 1] == PATH_SEPARATOR
                                       && PATH_SEPARATOR !in path[|r|..]
  {
    var i := LastIndexOf(path, PATH_SEPARATOR);
    if i < 0 then "" else path[..i + 1]
  }

  // ---------------------------------------------------------------------------
  // Instrumenting
  // ---------------------------------------------------------------------------

  /** `determineCurrentNodePath`: the first node of the file starts the path without looking at
      its indentation; a deeper node extends the path, a node at the same depth replaces the last
      name, and a shallower one first removes the levels in between. */
  function Advance(t: Tracker, name: string, spaces: nat, indentLength: nat): Result<Tracker, InstrumentError> {
    if |t.path| == 0 then Success(Tracker(name, t.depth))
    else if indentLength == 0 then Failure(DivisionByZero)
    else
      var d := NodeDepth(spaces, indentLength);
      if d > t.depth then Success(Tracker(t.path + [PATH_SEPARATOR] + name, d))
      else if d < t.depth then
        match DropLevels(t.path, t.depth - d)
        case Failure(e) => Failure(e)
        case Success(p) => Success(Tracker(RemoveFinal(p) + name, d))
      else Success(Tracker(RemoveFinal(t.path) + name, d))
  }

  /** The line with its comments above it, when there are any, and a line separator after each. */
  function Decorate(comments: string, line: string, nl: string): (r: string)
    ensures EndsWith(r, line + nl)
    ensures comments == "" <==> r == line + nl
  {
    var r := if |comments| > 0 then comments + nl + line + nl else line + nl;
    assert r[|r| - |line + nl|..] == line + nl;
    r
  }

  /** `instrumentLine`: a node line gets the comments of its path; any other line is kept. */
  function InstrumentLine(ins: Instrumenter, t: Tracker, line: string, nl: string): Result<Step, InstrumentError> {
    if !IsNode(line) then Success(Step(line + nl, t))
    else
      match Advance(t, NodeName(line), LeadingSpaces(line), ins.indentLength)
      case Failure(e) => Failure(e)
      case Success(t') => Success(Step(Decorate(GetComments(ins.comments, t'.path), line, nl), t'))
  }

  /** The loop of `addCommentsToYamlString` from a given tracker on. */
  function InstrumentFrom(ins: Instrumenter, lines: seq<string>, t: Tracker, nl: string): Result<string, InstrumentError>
    decreases |lines|
  {
    if |lines| == 0 then Success("")
    else
      match InstrumentLine(ins, t, lines[0], nl)
      case Failure(e) => Failure(e)
      case Success(step) =>
        match InstrumentFrom(ins, lines[1..], step.tracker, nl)
        case Failure(e) => Failure(e)
        case Success(rest) => Success(step.out + rest)
  }

  /** `addCommentsToYamlString`: split the text at the line separator and instrument each line,
      starting from an empty path. */
  function AddComments(ins: Instrumenter, yaml: string, nl: string): Result<string, InstrumentError>
    requires |nl| > 0
  {
    InstrumentFrom(ins, JavaSplit(yaml, nl), Tracker("", 0), nl)
  }

  /** `saveCommentsToFile`, without the file: the new contents, which are the old ones when the
      map holds no comments. */
  function SaveComments(ins: Instrumenter, contents: string, nl: string): (r: Result<string, InstrumentError>)
    requires |nl| > 0
    ensures !HasComments(ins.comments) ==> r == Success(contents)
    ensures HasComments(ins.comments) ==> r == AddComments(ins, contents, nl)
  {
    if HasComments(ins.comments) then AddComments(ins, contents, nl) else Success(contents)
  }

  // ---------------------------------------------------------------------------
  // Reference: the path of each node from the names of its ancestors
  // ---------------------------------------------------------------------------

  /** A name that can stand as one level of a dotted path. */
  predicate ValidName(name: string) {
    |name| > 0 && PATH_SEPARATOR !in name
  }

  predicate ValidNames(names: seq<string>) {
    forall i :: 0 <= i < |names| ==> ValidName(names[i])
  }

  /** The document as intended: `stack` holds the names of the current node and its ancestors.
      A node at depth `d` keeps the first `d` of them and adds its own name, and its comments
      are those of the joined names. `None` for a document this reading does not cover: a node
      name that is empty or holds a separator, or a node more than one level deeper than the
      node before it. The first node starts the stack whatever its indentation. */
  function Expected(ins: Instrumenter, lines: seq<string>, stack: seq<string>, nl: string): Option<string>
    requires ins.indentLength > 0
    decreases |lines|
  {
    if |lines| == 0 then Some("")
    else if !IsNode(lines[0]) then
      match Expected(ins, lines[1..], stack, nl)
      case None => None
      case Some(rest) => Some(lines[0] + nl + rest)
    else
      var name := NodeName(lines[0]);
      var d := NodeDepth(LeadingSpaces(lines[0]), ins.indentLength);
      if !ValidName(name) || (|stack| > 0 && d > |stack|) then None
      else
        var next := NextStack(stack, name, d);
        match Expected(ins, lines[1..], next, nl)
        case None => None
        case Some(rest) => Some(Decorate(GetComments(ins.comments, Join(next, [PATH_SEPARATOR])), lines[0], nl) + rest)
  }

  /** The names of a node at depth `d` and its ancestors: the first node starts them, any
      later one keeps the first `d` names before it and adds its own. */
  function NextStack(stack: seq<string>, name: string, d: nat): (r: seq<string>)
    requires |stack| > 0 ==> d <= |stack|
    ensures |r| > 0 && r[|r| - 1] == name
    ensures |stack| > 0 ==> |r| == d + 1 && r[..d] == stack[..d]
  {
    if |stack| == 0 then [name] else stack[..d] + [name]
  }

  /** The tracker holds the joined names of the stack and its depth is one less than their
      number; before the first node both are empty. */
  predicate Agrees(t: Tracker, stack: seq<string>) {
    if |stack| == 0 then t == Tracker("", 0)
    else ValidNames(stack) && t.path == Join(stack, [PATH_SEPARATOR]) && t.depth == |stack| - 1
  }

  // ---------------------------------------------------------------------------
  // Properties
  // ---------------------------------------------------------------------------

  /** Joining one more name adds the separator and the name. */
  lemma JoinSnoc(xs: seq<string>, x: string, d: string)
    requires |xs| > 0
    ensures Join(xs + [x], d) == Join(xs, d) + d + x
  {
    JoinSplitAt(xs + [x], |xs|, d);
    assert (xs + [x])[..|xs|] == xs;
    assert (xs + [x])[|xs|..] == [x];
  }

  /** Joined names, cut before the last one. */
  lemma JoinLast(names: seq<string>)
    requires |names| > 1
    ensures Join(names, [PATH_SEPARATOR])
            == Join(names[..|names| - 1], [PATH_SEPARATOR]) + [PATH_SEPARATOR] + names[|names| - 1]
  {
    JoinSnoc(names[..|names| - 1], names[|names| - 1], [PATH_SEPARATOR]);
    assert names[..|names| - 1] + [names[|names| - 1]] == names;
  }

  /** The last separator of `a . b`, for `b` without one, is the one after `a`. */
  lemma CutAtLast(a: string, b: string)
    requires PATH_SEPARATOR !in b
    ensures LastIndexOf(a + [PATH_SEPARATOR] + b, PATH_SEPARATOR) == |a|
    ensures (a + [PATH_SEPARATOR] + b)[..|a|] == a
    ensures RemoveFinal(a + [PATH_SEPARATOR] + b) == a + [PATH_SEPARATOR]
  {
    var s := a + [PATH_SEPARATOR] + b;
    var r := LastIndexOf(s, PATH_SEPARATOR);
    assert s[|a|] == PATH_SEPARATOR;
    assert s[|a| + 1..] == b;
    assert s[..|a| + 1] == a + [PATH_SEPARATOR];
  }

  /** Joined valid names have their last separator just before the last name. */
  lemma LastSeparator(names: seq<string>)
    requires |names| > 0 && ValidNames(names)
    ensures |names| == 1 ==> LastIndexOf(Join(names, [PATH_SEPARATOR]), PATH_SEPARATOR) < 0
    ensures |names| == 1 ==> RemoveFinal(Join(names, [PATH_SEPARATOR])) == ""
    ensures |names| > 1 ==> LastIndexOf(Join(names, [PATH_SEPARATOR]), PATH_SEPARATOR)
                            == |Join(names[..|names| - 1], [PATH_SEPARATOR])|
    ensures |names| > 1 ==> RemoveFinal(Join(names, [PATH_SEPARATOR]))
                            == Join(names[..|names| - 1], [PATH_SEPARATOR]) + [PATH_SEPARATOR]
  {
    var n := |names|;
    assert ValidName(names[n - 1]);
    if n > 1 {
      JoinLast(names);
      CutAtLast(Join(names[..n - 1], [PATH_SEPARATOR]), names[n - 1]);
    }
  }

  /** A prefix of valid names is valid. */
  lemma ValidPrefix(names: seq<string>, m: nat)
    requires m <= |names| && ValidNames(names)
    ensures ValidNames(names[..m])
  {
    assert forall i :: 0 <= i < m ==> names[..m][i] == names[i];
  }

  /** Removing one level from the first `m` of some valid names drops the last of them. */
  lemma DropOneLevel(names: seq<string>, m: nat, k: nat)
    requires 0 < k < m <= |names| && ValidNames(names)
    ensures DropLevels(Join(names[..m], [PATH_SEPARATOR]), k)
            == DropLevels(Join(names[..m - 1], [PATH_SEPARATOR]), k - 1)
  {
    var front := names[..m];
    assert front[..m - 1] == names[..m - 1];
    assert ValidName(names[m - 1]);
    JoinLast(front);
    CutAtLast(Join(names[..m - 1], [PATH_SEPARATOR]), names[m - 1]);
  }

  /** Removing `k` levels from the first `m` of some valid names keeps the first `j = m - k`. */
  lemma {:induction false} DropLevelsPrefix(names: seq<string>, m: nat, k: nat, j: nat)
    requires k < m <= |names| && j == m - k && ValidNames(names)
    ensures DropLevels(Join(names[..m], [PATH_SEPARATOR]), k) == Success(Join(names[..j], [PATH_SEPARATOR]))
    decreases k, 1
  {
    if k > 0 {
      DropLevelsFrom(names, m, k, j);
    }
  }

  lemma {:induction false} DropLevelsFrom(names: seq<string>, m: nat, k: nat, j: nat)
    requires 0 < k < m <= |names| && j == m - k && ValidNames(names)
    ensures DropLevels(Join(names[..m], [PATH_SEPARATOR]), k) == Success(Join(names[..j], [PATH_SEPARATOR]))
    decreases k, 0
  {
    DropOneLevel(names, m, k);
    DropLevelsPrefix(names, m - 1, k - 1, j);
  }

  /** Removing `k` levels from joined valid names drops the last `k` names. */
  lemma DropLevelsJoin(names: seq<string>, k: nat)
    requires k < |names| && ValidNames(names)
    ensures DropLevels(Join(names, [PATH_SEPARATOR]), k) == Success(Join(names[..|names| - k], [PATH_SEPARATOR]))
  {
    DropLevelsPrefix(names, |names|, k, |names| - k);
    assert names[..|names|] == names;
  }

  /** The path of the names `stack[..d] + [name]`, put together from the text of the previous
      path. */
  lemma ExtendJoin(stack: seq<string>, d: nat, name: string)
    requires d <= |stack|
    ensures d == 0 ==> Join(stack[..d] + [name], [PATH_SEPARATOR]) == name
    ensures d > 0 ==> Join(stack[..d] + [name], [PATH_SEPARATOR])
                      == Join(stack[..d], [PATH_SEPARATOR]) + [PATH_SEPARATOR] + name
  {
    if d > 0 {
      JoinSnoc(stack[..d], name, [PATH_SEPARATOR]);
    } else {
      assert stack[..d] + [name] == [name];
    }
  }

  /** While the tracker agrees with the names, a node with a valid name at most one level deeper
      than the one before gets the path of its ancestors' names and its own. */
  lemma AdvanceAgrees(t: Tracker, stack: seq<string>, name: string, spaces: nat, indentLength: nat)
    requires indentLength > 0 && Agrees(t, stack) && ValidName(name)
    requires |stack| > 0 ==> NodeDepth(spaces, indentLength) <= |stack|
    ensures var next := NextStack(stack, name, NodeDepth(spaces, indentLength));
            Advance(t, name, spaces, indentLength).Success?
            && Agrees(Advance(t, name, spaces, indentLength).value, next)
  {
    if |stack| == 0 {
      assert Join([name], [PATH_SEPARATOR]) == name;
    } else {
      var d := NodeDepth(spaces, indentLength);
      NonEmptyPath(stack);
      var next := stack[..d] + [name];
      assert ValidNames(next) by {
        assert forall i :: 0 <= i < d ==> next[i] == stack[i];
      }
      ExtendJoin(stack, d, name);
      if d > t.depth {
        assert stack[..d] == stack;
      } else if d < t.depth {
        DropThenReplace(stack, d, name);
      } else {
        LastSeparator(stack);
        assert stack[..|stack| - 1] == stack[..d];
      }
    }
  }

  /** Joined valid names are not empty. */
  lemma NonEmptyPath(names: seq<string>)
    requires |names| > 0 && ValidNames(names)
    ensures |Join(names, [PATH_SEPARATOR])| > 0
  {
    assert ValidName(names[0]);
    if |names| > 1 {
      JoinSplitAt(names, 1, [PATH_SEPARATOR]);
      assert names[..1] == [names[0]];
    }
  }

  /** A node shallower than the one before: the levels in between are removed, then its
      sibling's name. */
  lemma DropThenReplace(stack: seq<string>, d: nat, name: string)
    requires d + 1 < |stack| && ValidNames(stack)
    ensures DropLevels(Join(stack, [PATH_SEPARATOR]), |stack| - 1 - d).Success?
    ensures RemoveFinal(DropLevels(Join(stack, [PATH_SEPARATOR]), |stack| - 1 - d).value) + name
            == Join(stack[..d] + [name], [PATH_SEPARATOR])
  {
    var kept := stack[..d + 1];
    DropToKept(stack, d, kept);
    ValidPrefix(stack, d + 1);
    ReplaceLast(kept, stack[..d], name);
  }

  /** Removing the levels below depth `d` keeps the first `d + 1` names. */
  lemma DropToKept(stack: seq<string>, d: nat, kept: seq<string>)
    requires d + 1 < |stack| && ValidNames(stack) && kept == stack[..d + 1]
    ensures DropLevels(Join(stack, [PATH_SEPARATOR]), |stack| - 1 - d) == Success(Join(kept, [PATH_SEPARATOR]))
  {
    DropLevelsJoin(stack, |stack| - 1 - d);
    assert stack[..|stack| - (|stack| - 1 - d)] == kept;
  }

  /** The last name of joined valid names replaced by another. */
  lemma ReplaceLast(kept: seq<string>, front: seq<string>, name: string)
    requires |kept| > 0 && ValidNames(kept) && front == kept[..|kept| - 1]
    ensures RemoveFinal(Join(kept, [PATH_SEPARATOR])) + name == Join(front + [name], [PATH_SEPARATOR])
  {
    LastSeparator(kept);
    ExtendJoin(kept, |kept| - 1, name);
  }

  /** On every document the reference covers, the instrumenter puts the comments of each node's
      path above it and keeps every line, in order. */
  lemma {:induction false} InstrumentMatchesExpected(ins: Instrumenter, lines: seq<string>, t: Tracker,
                                                     stack: seq<string>, nl: string)
    requires ins.indentLength > 0 && Agrees(t, stack)
    requires Expected(ins, lines, stack, nl).Some?
    ensures InstrumentFrom(ins, lines, t, nl) == Success(Expected(ins, lines, stack, nl).value)
    decreases |lines|
  {
    if |lines| > 0 {
      if !IsNode(lines[0]) {
        InstrumentMatchesExpected(ins, lines[1..], t, stack, nl);
      } else {
        var name := NodeName(lines[0]);
        var spaces := LeadingSpaces(lines[0]);
        ExpectedNode(ins, lines, stack, nl);
        var next := NextStack(stack, name, NodeDepth(spaces, ins.indentLength));
        AdvanceAgrees(t, stack, name, spaces, ins.indentLength);
        var t' := Advance(t, name, spaces, ins.indentLength).value;
        InstrumentMatchesExpected(ins, lines[1..], t', next, nl);
        InstrumentNode(ins, lines, t, t', nl);
      }
    }
  }

  /** The reference on a node line, unfolded. */
  lemma ExpectedNode(ins: Instrumenter, lines: seq<string>, stack: seq<string>, nl: string)
    requires ins.indentLength > 0 && |lines| > 0 && IsNode(lines[0])
    requires Expected(ins, lines, stack, nl).Some?
    ensures var name := NodeName(lines[0]);
            var d := NodeDepth(LeadingSpaces(lines[0]), ins.indentLength);
            ValidName(name) && (|stack| > 0 ==> d <= |stack|)
            && Expected(ins, lines[1..], NextStack(stack, name, d), nl).Some?
            && Expected(ins, lines, stack, nl).value
               == Decorate(GetComments(ins.comments, Join(NextStack(stack, name, d), [PATH_SEPARATOR])), lines[0], nl)
                  + Expected(ins, lines[1..], NextStack(stack, name, d), nl).value
  {
  }

  /** The instrumenter on a node line, unfolded. */
  lemma InstrumentNode(ins: Instrumenter, lines: seq<string>, t: Tracker, t': Tracker, nl: string)
    requires |lines| > 0 && IsNode(lines[0])
    requires Advance(t, NodeName(lines[0]), LeadingSpaces(lines[0]), ins.indentLength) == Success(t')
    requires InstrumentFrom(ins, lines[1..], t', nl).Success?
    ensures InstrumentFrom(ins, lines, t, nl)
            == Success(Decorate(GetComments(ins.comments, t'.path), lines[0], nl) + InstrumentFrom(ins, lines[1..], t', nl).value)
  {
  }

  /** The whole document, from the start of the file. */
  lemma AddCommentsMatchesExpected(ins: Instrumenter, yaml: string, nl: string)
    requires ins.indentLength > 0 && |nl| > 0
    requires Expected(ins, JavaSplit(yaml, nl), [], nl).Some?
    ensures AddComments(ins, yaml, nl) == Success(Expected(ins, JavaSplit(yaml, nl), [], nl).value)
  {
    InstrumentMatchesExpected(ins, JavaSplit(yaml, nl), Tracker("", 0), [], nl);
  }

  /** Each line followed by the line separator. */
  function Echo(lines: seq<string>, nl: string): (r: string)
    decreases |lines|
  {
    if |lines| == 0 then "" else lines[0] + nl + Echo(lines[1..], nl)
  }

  /** With no comments in the map, a successful run gives back the lines, each ended by the
      separator, whatever the indentation. */
  lemma {:induction false} NoCommentsEcho(ins: Instrumenter, lines: seq<string>, t: Tracker, nl: string)
    requires !HasComments(ins.comments)
    requires InstrumentFrom(ins, lines, t, nl).Success?
    ensures InstrumentFrom(ins, lines, t, nl).value == Echo(lines, nl)
    decreases |lines|
  {
    if |lines| > 0 {
      var step := InstrumentLine(ins, t, lines[0], nl).value;
      assert step.out == lines[0] + nl by {
        if IsNode(lines[0]) {
          assert GetComments(ins.comments, step.tracker.path) == "";
        }
      }
      NoCommentsEcho(ins, lines[1..], step.tracker, nl);
    }
  }

  /** The echo of the lines is their join with one more separator at the end. */
  lemma {:induction false} EchoJoin(lines: seq<string>, nl: string)
    requires |lines| > 0
    ensures Echo(lines, nl) == Join(lines, nl) + nl
    decreases |lines|
  {
    if |lines| > 1 {
      EchoJoin(lines[1..], nl);
    }
  }

  /** A document of lines ended by a one-character separator, with no blank line at its end,
      comes out of an instrumenter without comments as it went in. */
  lemma NoCommentsIdentity(ins: Instrumenter, lines: seq<string>, c: char)
    requires !HasComments(ins.comments)
    requires |lines| > 0 && lines[|lines| - 1] != "" && forall i :: 0 <= i < |lines| ==> c !in lines[i]
    requires AddComments(ins, Join(lines, [c]) + [c], [c]).Success?
    ensures AddComments(ins, Join(lines, [c]) + [c], [c]) == Success(Join(lines, [c]) + [c])
  {
    SplitLines(lines, c);
    NoCommentsEcho(ins, lines, Tracker("", 0), [c]);
    EchoJoin(lines, [c]);
  }

  /** A text of lines each ended by a one-character separator, the last not blank, splits back
      into the lines. */
  lemma SplitLines(lines: seq<string>, c: char)
    requires |lines| > 0 && lines[|lines| - 1] != "" && forall i :: 0 <= i < |lines| ==> c !in lines[i]
    ensures JavaSplit(Join(lines, [c]) + [c], [c]) == lines
  {
    var yaml := Join(lines, [c]) + [c];
    assert Join(lines + [""], [c]) == yaml by {
      JoinSnoc(lines, "", [c]);
    }
    assert SplitOn(yaml, [c]) == lines + [""] by {
      SplitJoin(lines + [""], c);
    }
    assert DropTrailingEmpty(lines + [""]) == lines by {
      assert (lines + [""])[..|lines|] == lines;
    }
    assert Contains(yaml, [c]) by {
      ContainsChar(yaml, c);
      assert yaml[|yaml| - 1] == c;
    }
  }

  /** A first node indented by one level followed by a node at the left margin removes more
      levels than the path has: `  a:` / `    b:` / `c:` stops with an index exception. */
  lemma IndentedFirstNodeFails()
    ensures var ins := CreateInstrumenter(2);
            InstrumentFrom(ins, ["  a:", "    b:", "c:"], Tracker("", 0), "\n") == Failure(IndexOutOfBounds)
  {
    var ins := CreateInstrumenter(2);
    ExampleLines();
    FirstLine(ins, "  a:");
    SecondLine(ins, "    b:");
    ThirdLine(ins, "c:");
    ThreeLinesFail(ins, "  a:", "    b:", "c:", "\n", Tracker("a", 0), Tracker("a.b", 2), IndexOutOfBounds);
  }

  lemma ExampleLines()
    ensures "  a:" == Spaces(2) + ['a', ':'] && "    b:" == Spaces(4) + ['b', ':'] && "c:" == Spaces(0) + ['c', ':']
  {
  }

  /** Three lines, the last of which stops the loop. */
  lemma ThreeLinesFail(ins: Instrumenter, l1: string, l2: string, l3: string, nl: string, t1: Tracker, t2: Tracker,
                       e: InstrumentError)
    requires InstrumentLine(ins, Tracker("", 0), l1, nl) == Success(Step(l1 + nl, t1))
    requires InstrumentLine(ins, t1, l2, nl) == Success(Step(l2 + nl, t2))
    requires InstrumentLine(ins, t2, l3, nl) == Failure(e)
    ensures InstrumentFrom(ins, [l1, l2, l3], Tracker("", 0), nl) == Failure(e)
  {
    assert [l1, l2, l3][1..] == [l2, l3] && [l2, l3][1..] == [l3];
    assert InstrumentFrom(ins, [l3], t2, nl) == Failure(e);
    assert InstrumentFrom(ins, [l2, l3], t1, nl) == Failure(e);
  }

  lemma FirstLine(ins: Instrumenter, line: string)
    requires ins == CreateInstrumenter(2) && line == Spaces(2) + ['a', ':']
    ensures InstrumentLine(ins, Tracker("", 0), line, "\n") == Success(Step(line + "\n", Tracker("a", 0)))
  {
    assert Advance(Tracker("", 0), "a", 2, 2) == Success(Tracker("a", 0));
    SimpleNodeKept(ins, Tracker("", 0), 2, 'a', Tracker("a", 0), "\n");
  }

  lemma SecondLine(ins: Instrumenter, line: string)
    requires ins == CreateInstrumenter(2) && line == Spaces(4) + ['b', ':']
    ensures InstrumentLine(ins, Tracker("a", 0), line, "\n") == Success(Step(line + "\n", Tracker("a.b", 2)))
  {
    SecondAdvance();
    SimpleNodeKept(ins, Tracker("a", 0), 4, 'b', Tracker("a.b", 2), "\n");
  }

  lemma SecondAdvance()
    ensures Advance(Tracker("a", 0), "b", 4, 2) == Success(Tracker("a.b", 2))
  {
    assert NodeDepth(4, 2) == 2;
    assert "a" + [PATH_SEPARATOR] + "b" == "a.b";
  }

  /** A simple node line is kept as it is by an instrumenter without comments. */
  lemma SimpleNodeKept(ins: Instrumenter, t: Tracker, k: nat, x: char, t': Tracker, nl: string)
    requires !HasComments(ins.comments)
    requires !IsBlank(x) && x != '#' && x != ':'
    requires Advance(t, [x], k, ins.indentLength) == Success(t')
    ensures InstrumentLine(ins, t, Spaces(k) + [x, ':'], nl) == Success(Step(Spaces(k) + [x, ':'] + nl, t'))
  {
    SimpleNode(k, x);
    assert GetComments(ins.comments, t'.path) == "";
  }

  lemma ThirdLine(ins: Instrumenter, line: string)
    requires ins == CreateInstrumenter(2) && line == Spaces(0) + ['c', ':']
    ensures InstrumentLine(ins, Tracker("a.b", 2), line, "\n") == Failure(IndexOutOfBounds)
  {
    SimpleNode(0, 'c');
    assert NodeDepth(0, 2) == 0;
    CutAtLast("a", "b");
    assert LastIndexOf("a", '.') == -1;
  }

  /** A line of `k` spaces, one name character and a colon is a node named by that character. */
  lemma SimpleNode(k: nat, x: char)
    requires !IsBlank(x) && x != '#' && x != ':'
    ensures IsNode(Spaces(k) + [x, ':'])
    ensures NodeName(Spaces(k) + [x, ':']) == [x]
    ensures LeadingSpaces(Spaces(k) + [x, ':']) == k
  {
    var line := Spaces(k) + [x, ':'];
    var front := TrimStart(line);
    assert line[k] == x;
    assert front == [x, ':'];
    assert TrimEnd(front) == front;
    assert !Contains([x, ':'], ": ") by {
      if Contains([x, ':'][1..], ": ") {
        ContainsShorter([x, ':'][1..], ": ");
      }
    }
    LeadingSpacesOf(k, [x, ':']);
  }

  lemma {:induction false} LeadingSpacesOf(k: nat, rest: string)
    requires |rest| > 0 && rest[0] != ' '
    ensures LeadingSpaces(Spaces(k) + rest) == k
    decreases k
  {
    if k > 0 {
      LeadingSpacesOf(k - 1, rest);
      assert (Spaces(k) + rest)[1..] == Spaces(k - 1) + rest by {
        assert Spaces(k) == [' '] + Spaces(k - 1) by {
          SpacesCons(k);
        }
      }
    }
  }

  lemma {:induction false} SpacesCons(k: nat)
    requires k > 0
    ensures Spaces(k) == [' '] + Spaces(k - 1)
    decreases k
  {
    if k > 1 {
      SpacesCons(k - 1);
    }
  }
}
