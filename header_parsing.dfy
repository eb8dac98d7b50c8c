/**
  Parsing of a header-description file into response headers, as the request
  handler does it: the text is split into lines at '\n', each line at every
  ':', and the first two pieces, trimmed of spaces, are the header's name and
  value.
 */
module HeaderParsing {
  import opened Wrappers
  import opened GoStrings

  /** One response header as added to the response. */
  datatype Header = Header(name: string, value: string)

  /** What parsing a sequence of lines comes to: every line gave a header, or
      the line at index `line` has no ':' and indexing its second piece
      panicked, after the headers of the lines before it were added. */
  datatype HeaderOutcome =
    | Complete(headers: seq<Header>)
    | Aborted(headers: seq<Header>, line: nat)

  /** The text between the first and the second ':' of a line, or between the
      first ':' and the end when there is no second one. */
  function SecondField(line: string): string
    requires ':' in line
  {
    var rest := line[IndexOf(line, ':') + 1..];
    rest[..IndexOf(rest, ':')]
  }

  /** One line of a header-description file: the name is the text before the
      first ':' and the value the text up to the second ':', both trimmed of
      spaces; anything after a second ':' is dropped. A line with no ':' has
      no second piece: None. */
  function ParseLine(line: string): (h: Option<Header>)
    ensures h.None? <==> ':' !in line
  {
    SplitFirstPieces(line, ':');
    var keyValue := Split(line, ':');
    if |keyValue| < 2 then None
    else Some(Header(Trim(keyValue[0], ' '), Trim(keyValue[1], ' ')))
  }

  /** The name is the text before the first ':', the value the text between
      the first and the second ':', both trimmed of spaces. */
  lemma ParseLineFields(line: string)
    requires ':' in line
    ensures ParseLine(line) == Some(Header(Trim(line[..IndexOf(line, ':')], ' '), Trim(SecondField(line), ' ')))
  {
    SplitFirstPieces(line, ':');
  }

  /** The headers the lines give, in order, up to the first line without ':'. */
  function ParseHeaderLines(lines: seq<string>): (o: HeaderOutcome)
    ensures |o.headers| <= |lines|
    ensures forall k :: 0 <= k < |o.headers| ==> ParseLine(lines[k]) == Some(o.headers[k])
    ensures o.Complete? <==> forall k :: 0 <= k < |lines| ==> ':' in lines[k]
    ensures o.Complete? ==> |o.headers| == |lines|
    ensures o.Aborted? ==> o.line == |o.headers| < |lines| && ':' !in lines[o.line]
  {
    if lines == [] then Complete([])
    else
      var front := lines[..|lines| - 1];
      assert forall k :: 0 <= k < |front| ==> front[k] == lines[k];
      match ParseHeaderLines(front)
      case Aborted(hs, k) => Aborted(hs, k)
      case Complete(hs) =>
        match ParseLine(lines[|lines| - 1])
        case None => Aborted(hs, |lines| - 1)
        case Some(h) => Complete(hs + [h])
  }

  /** Once a line has panicked, the lines after it change nothing. */
  lemma {:induction false} AbortedIsFinal(lines: seq<string>, n: nat)
    requires n <= |lines|
    requires ParseHeaderLines(lines[..n]).Aborted?
    ensures ParseHeaderLines(lines) == ParseHeaderLines(lines[..n])
    decreases |lines| - n
  {
    if n < |lines| {
      var front := lines[..|lines| - 1];
      assert front[..n] == lines[..n];
      AbortedIsFinal(front, n);
    } else {
      assert lines[..n] == lines;
    }
  }

  /** Conversely, lines that each give a header give exactly those headers. */
  lemma {:induction false} AllLinesGiveHeaders(lines: seq<string>, hs: seq<Header>)
    requires |hs| == |lines|
    requires forall k :: 0 <= k < |lines| ==> ParseLine(lines[k]) == Some(hs[k])
    ensures ParseHeaderLines(lines) == Complete(hs)
    decreases |lines|
  {
    if |lines| > 0 {
      var n := |lines|;
      var front := lines[..n - 1];
      assert forall k :: 0 <= k < n - 1 ==> front[k] == lines[k];
      AllLinesGiveHeaders(front, hs[..n - 1]);
      assert hs[..n - 1] + [hs[n - 1]] == hs;
    }
  }

  /** Conversely, when the lines before line n give the headers hs and line n
      has no ':', parsing stops there with hs. */
  lemma FirstBadLine(lines: seq<string>, hs: seq<Header>, n: nat)
    requires n < |lines| && |hs| == n
    requires forall k :: 0 <= k < n ==> ParseLine(lines[k]) == Some(hs[k])
    requires ':' !in lines[n]
    ensures ParseHeaderLines(lines) == Aborted(hs, n)
  {
    var prefix := lines[..n + 1];
    assert prefix[..n] == lines[..n];
    assert forall k :: 0 <= k < n ==> lines[..n][k] == lines[k];
    AllLinesGiveHeaders(lines[..n], hs);
    AbortAtLast(prefix, hs);
    AbortedIsFinal(lines, n + 1);
  }

  lemma AbortAtLast(lines: seq<string>, hs: seq<Header>)
    requires lines != [] && ':' !in lines[|lines| - 1]
    requires ParseHeaderLines(lines[..|lines| - 1]) == Complete(hs)
    ensures ParseHeaderLines(lines) == Aborted(hs, |lines| - 1)
  {
  }

  /** A header-description text: nothing when it is made only of spaces,
      otherwise the headers of its '\n'-separated lines. */
  function ParseHeaderText(text: string): HeaderOutcome
  {
    if Trim(text, ' ') == "" then Complete([]) else ParseHeaderLines(Split(text, '\n'))
  }

  /** Text made only of spaces adds no header, and no line can panic. */
  lemma SpacesOnlyAddNothing(text: string)
    requires forall k :: 0 <= k < |text| ==> text[k] == ' '
    ensures ParseHeaderText(text) == Complete([])
  {
    TrimEmptyIff(text, ' ');
  }

  /** A text in which every line holds a ':' gives one header per line, in
      file order: one more than there are newlines. */
  lemma OneHeaderPerLine(text: string)
    requires forall line :: line in Split(text, '\n') ==> ':' in line
    ensures var o := ParseHeaderText(text);
      o.Complete? && |o.headers| == multiset(text)['\n'] + 1
  {
    var lines := Split(text, '\n');
    assert ':' in lines[0];
    var k :| 0 <= k < |lines[0]| && lines[0][k] == ':';
    JoinSplit(text, '\n');
    assert text[k] == ':' by {
      if |lines| == 1 {
      } else {
        assert text == lines[0] + ['\n'] + Join(lines[1..], '\n');
      }
    }
    TrimEmptyIff(text, ' ');
    SplitCount(text, '\n');
  }

  /** A non-blank text that ends in a newline always panics: its last line is
      empty and has no ':'. */
  lemma TrailingNewlinePanics(text: string)
    requires |text| > 0 && text[|text| - 1] == '\n'
    requires exists k :: 0 <= k < |text| && text[k] != ' '
    ensures ParseHeaderText(text).Aborted?
  {
    TrimEmptyIff(text, ' ');
    assert Trim(text, ' ') != "";
    var lines := Split(text, '\n');
    assert ParseHeaderText(text) == ParseHeaderLines(lines);
    SplitLastEmpty(text, '\n');
    assert lines[|lines| - 1] == "";
    assert ':' !in lines[|lines| - 1];
  }

  /** A line "name: value" whose name and value hold no ':' and carry no
      surrounding spaces gives exactly that header. */
  lemma ParseSimpleLine(name: string, value: string)
    requires ':' !in name && ':' !in value
    requires Unpadded(name, ' ') && Unpadded(value, ' ')
    ensures ParseLine(name + ": " + value) == Some(Header(name, value))
  {
    assert name + ": " + value == name + ":" + (" " + value) + [];
    ColonLine(name, " " + value, []);
    TrimmedField(name, value);
  }

  /** Everything after a second ':' is dropped from the value:
      "Location: http://example.com" gives the value "http". */
  lemma SecondColonTruncates(name: string, value: string, rest: string)
    requires ':' !in name && ':' !in value
    requires Unpadded(name, ' ') && Unpadded(value, ' ')
    ensures ParseLine(name + ": " + value + ":" + rest) == Some(Header(name, value))
  {
    assert name + ": " + value + ":" + rest == name + ":" + (" " + value) + (":" + rest);
    ColonLine(name, " " + value, ":" + rest);
    TrimmedField(name, value);
  }

  /** A name or value without surrounding spaces, after at most one space,
      is trimmed back to itself. */
  lemma TrimmedField(name: string, value: string)
    requires Unpadded(name, ' ') && Unpadded(value, ' ')
    ensures Trim(name, ' ') == name && Trim(" " + value, ' ') == value
  {
    assert Rep(' ', 0) + name + Rep(' ', 0) == name;
    TrimOfPadded(' ', 0, name, 0);
    assert " " + value == Rep(' ', 1) + value + Rep(' ', 0);
    TrimOfPadded(' ', 1, value, 0);
  }

  /** In a ':' b rest, where a and b hold no ':' and rest is empty or starts
      with ':', the header is a and b trimmed of spaces. */
  lemma ColonLine(a: string, b: string, rest: string)
    requires ':' !in a && ':' !in b
    requires rest == [] || rest[0] == ':'
    ensures ParseLine(a + ":" + b + rest) == Some(Header(Trim(a, ' '), Trim(b, ' ')))
  {
    var line := a + ":" + b + rest;
    assert line[|a|] == ':';
    assert forall k :: 0 <= k < |a| ==> line[k] == a[k];
    assert IndexOf(line, ':') == |a|;
    var tail := line[|a| + 1..];
    assert tail == b + rest;
    assert forall k :: 0 <= k < |b| ==> tail[k] == b[k];
    assert rest != [] ==> tail[|b|] == ':';
    assert IndexOf(tail, ':') == |b|;
    assert line[..|a|] == a;
    assert SecondField(line) == b;
    ParseLineFields(line);
  }

  /** Two lines that each give a header give both, in order. */
  lemma ParseTwoLines(l1: string, l2: string, h1: Header, h2: Header)
    requires ParseLine(l1) == Some(h1) && ParseLine(l2) == Some(h2)
    ensures ParseHeaderLines([l1, l2]) == Complete([h1, h2])
  {
    assert [l1][..0] == [];
    assert ParseHeaderLines([l1]) == Complete([h1]);
    assert [l1, l2][..1] == [l1];
    assert [h1] + [h2] == [h1, h2];
  }

  /** Two lines without a newline, joined by one, split back into the two. */
  lemma SplitTwoLines(l1: string, l2: string)
    requires '\n' !in l1 && '\n' !in l2
    ensures Split(l1 + "\n" + l2, '\n') == [l1, l2]
  {
    assert l1 + "\n" + l2 == Join([l1, l2], '\n');
    SplitJoin([l1, l2], '\n');
  }

  /** "X-Test: value1\nY-Test: value2" gives exactly those two headers, in
      file order. */
  lemma TwoHeaders(n1: string, v1: string, n2: string, v2: string)
    requires ':' !in n1 && ':' !in v1 && ':' !in n2 && ':' !in v2
    requires '\n' !in n1 && '\n' !in v1 && '\n' !in n2 && '\n' !in v2
    requires Unpadded(n1, ' ') && Unpadded(v1, ' ') && Unpadded(n2, ' ') && Unpadded(v2, ' ')
    ensures ParseHeaderText(n1 + ": " + v1 + "\n" + n2 + ": " + v2)
      == Complete([Header(n1, v1), Header(n2, v2)])
  {
    var l1, l2 := n1 + ": " + v1, n2 + ": " + v2;
    var text := n1 + ": " + v1 + "\n" + n2 + ": " + v2;
    assert text == l1 + "\n" + l2;
    assert text[|n1|] == ':';
    assert '\n' !in l1 && '\n' !in l2;
    SplitTwoLines(l1, l2);
    TrimEmptyIff(text, ' ');
    ParseSimpleLine(n1, v1);
    ParseSimpleLine(n2, v2);
    ParseTwoLines(l1, l2, Header(n1, v1), Header(n2, v2));
  }
}
