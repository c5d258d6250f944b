/** The comments to place above the nodes of a YAML document, kept per dotted path, each
    line prefixed with `# ` when needed and indented by the path's depth. The platform line
    separator is a parameter `nl`. */
module YamlComments {
  import opened Strings

  const COMMENT_LINE_START: string := "# "

  /** The map: the indentation of one level, the path separator, and the merged comment text
      per path. */
  datatype CommentMap = CommentMap(indent: string, separator: char, comments: map<string, string>)

  /** `n` spaces. */
  function Spaces(n: nat): (r: string)
    ensures |r| == n && forall i :: 0 <= i < n ==> r[i] == ' '
  {
    if n == 0 then "" else Spaces(n - 1) + " "
  }

  /** `getYamlCommentMap`: no comments yet. */
  function NewCommentMap(indentLength: nat, separator: char): (m: CommentMap)
    ensures |m.indent| == indentLength && forall i :: 0 <= i < |m.indent| ==> m.indent[i] == ' '
    ensures m.separator == separator && !HasComments(m)
  {
    CommentMap(Spaces(indentLength), separator, map[])
  }

  /** The indentation for a path: one level for every separator in it. */
  function LeadingWhitespace(indent: string, separator: char, path: string): (r: string)
    decreases |path|
  {
    if |path| == 0 then ""
    else
      var rest := LeadingWhitespace(indent, separator, path[..|path| - 1]);
      if path[|path| - 1] == separator then rest + indent else rest
  }

  lemma {:induction false} LeadingWhitespaceLength(indent: string, separator: char, path: string)
    ensures |LeadingWhitespace(indent, separator, path)| == |indent| * multiset(path)[separator]
    ensures forall i :: 0 <= i < |LeadingWhitespace(indent, separator, path)| ==>
              LeadingWhitespace(indent, separator, path)[i] in indent
    decreases |path|
  {
    if |path| > 0 {
      var init := path[..|path| - 1];
      LeadingWhitespaceLength(indent, separator, init);
      assert path == init + [path[|path| - 1]];
      assert multiset(path) == multiset(init) + multiset{path[|path| - 1]};
      var rest := LeadingWhitespace(indent, separator, init);
      if path[|path| - 1] == separator {
        assert |rest + indent| == |indent| * multiset(init)[separator] + |indent|;
        forall i | 0 <= i < |rest + indent| ensures (rest + indent)[i] in indent {
          if i >= |rest| {
            assert (rest + indent)[i] == indent[i - |rest|];
          } else {
            assert (rest + indent)[i] == rest[i];
          }
        }
      }
    }
  }

  /** One comment line as stored: an empty line becomes a single space; any other line gets
      `# ` in front unless it starts with `#`, and then the indentation. */
  function PrepareLine(lead: string, line: string): (r: string)
    ensures |r| > 0
  {
    if |line| == 0 then " "
    else lead + (if line[0] != '#' then COMMENT_LINE_START + line else line)
  }

  lemma PrepareLineShape(lead: string, line: string)
    ensures line == "" ==> PrepareLine(lead, line) == " "
    ensures line != "" ==>
              StartsWith(PrepareLine(lead, line), lead) && EndsWith(PrepareLine(lead, line), line)
              && PrepareLine(lead, line)[|lead|] == '#'
    ensures line != "" ==> (|PrepareLine(lead, line)| == |lead| + |line| <==> line[0] == '#')
  {
    if line != "" {
      var r := PrepareLine(lead, line);
      assert r[..|lead|] == lead;
      assert r[|r| - |line|..] == line;
    }
  }

  /** `mergeArrayIntoSingleMultiLineIndentedString`, as its loop runs: each prepared line is
      appended to the builder, after the line separator when the builder is not empty. */
  function MergeFrom(acc: string, lead: string, lines: seq<string>, nl: string): string
    decreases |lines|
  {
    if |lines| == 0 then acc
    else
      var sep := if |acc| > 0 then acc + nl else acc;
      MergeFrom(sep + PrepareLine(lead, lines[0]), lead, lines[1..], nl)
  }

  /** The prepared lines. */
  function Prepared(lead: string, lines: seq<string>): (r: seq<string>)
    ensures |r| == |lines| && forall i :: 0 <= i < |lines| ==> r[i] == PrepareLine(lead, lines[i])
  {
    if |lines| == 0 then [] else [PrepareLine(lead, lines[0])] + Prepared(lead, lines[1..])
  }

  /** The merged text is the prepared lines joined by the separator, with none at the end. */
  lemma {:induction false} MergeIsJoin(acc: string, lead: string, lines: seq<string>, nl: string)
    requires |lines| > 0
    ensures MergeFrom(acc, lead, lines, nl)
            == (if |acc| > 0 then acc + nl else acc) + Join(Prepared(lead, lines), nl)
    decreases |lines|
  {
    var head := PrepareLine(lead, lines[0]);
    var sep := if |acc| > 0 then acc + nl else acc;
    if |lines| > 1 {
      MergeIsJoin(sep + head, lead, lines[1..], nl);
      assert Prepared(lead, lines)[1..] == Prepared(lead, lines[1..]);
      assert Join(Prepared(lead, lines), nl) == head + nl + Join(Prepared(lead, lines[1..]), nl);
    } else {
      assert Prepared(lead, lines) == [head];
    }
  }

  /** `setCommentsForPath`: the merged lines replace whatever the path had. */
  function SetComments(m: CommentMap, path: string, lines: seq<string>, nl: string): (r: CommentMap)
    ensures r.indent == m.indent && r.separator == m.separator
    ensures r.comments.Keys == m.comments.Keys + {path}
    ensures forall p :: p in m.comments && p != path ==> r.comments[p] == m.comments[p]
  {
    var lead := LeadingWhitespace(m.indent, m.separator, path);
    m.(comments := m.comments[path := MergeFrom("", lead, lines, nl)])
  }

  /** `getCommentsForPath`: the merged text, or "" for a path without comments. */
  function GetComments(m: CommentMap, path: string): (r: string)
    ensures path !in m.comments ==> r == ""
  {
    if path in m.comments then m.comments[path] else ""
  }

  /** `hasComments`. */
  predicate HasComments(m: CommentMap) {
    |m.comments| > 0
  }

  // ---------------------------------------------------------------------------
  // Properties
  // ---------------------------------------------------------------------------

  /** What is set for a path is read back for it: the prepared lines, indented for the path,
      joined with no separator at the end; every other path keeps its comments. */
  lemma SetThenGet(m: CommentMap, path: string, lines: seq<string>, nl: string, other: string)
    ensures var lead := LeadingWhitespace(m.indent, m.separator, path);
            GetComments(SetComments(m, path, lines, nl), path) == Join(Prepared(lead, lines), nl)
    ensures other != path ==> GetComments(SetComments(m, path, lines, nl), other) == GetComments(m, other)
    ensures HasComments(SetComments(m, path, lines, nl))
  {
    var lead := LeadingWhitespace(m.indent, m.separator, path);
    if |lines| > 0 {
      MergeIsJoin("", lead, lines, nl);
    }
    assert path in SetComments(m, path, lines, nl).comments;
  }

  /** Setting a path twice keeps only the second set of lines. */
  lemma SetOverwrites(m: CommentMap, path: string, first: seq<string>, second: seq<string>, nl: string)
    ensures SetComments(SetComments(m, path, first, nl), path, second, nl) == SetComments(m, path, second, nl)
  {
  }

  /** Splitting the merged text of single-line comments at a one-character separator gives the
      prepared lines back. */
  lemma MergeSplits(m: CommentMap, path: string, lines: seq<string>, c: char)
    requires |lines| > 0
    requires c != ' ' && c != '#' && c !in m.indent
    requires forall i :: 0 <= i < |lines| ==> c !in lines[i]
    ensures var lead := LeadingWhitespace(m.indent, m.separator, path);
            SplitOn(GetComments(SetComments(m, path, lines, [c]), path), [c]) == Prepared(lead, lines)
  {
    var lead := LeadingWhitespace(m.indent, m.separator, path);
    SetThenGet(m, path, lines, [c], path);
    LeadingWhitespaceLength(m.indent, m.separator, path);
    var xs := Prepared(lead, lines);
    forall i | 0 <= i < |xs| ensures c !in xs[i] {
      PreparedFree(lead, lines[i], c);
    }
    SplitJoin(xs, c);
  }

  lemma PreparedFree(lead: string, line: string, c: char)
    requires c != ' ' && c != '#' && c !in lead && c !in line
    ensures c !in PrepareLine(lead, line)
  {
  }
}
