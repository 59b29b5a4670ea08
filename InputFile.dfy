/**
  The input-file reader: a `colors = <k>` header line followed by one
  `<u>,<v>` edge line per edge, with `#` comment lines anywhere.

  The file is given as the lines that iterating over it yields, each with its
  line terminator if it has one. Iteration never yields an empty line.
 */
module InputFile {
  import opened Wrappers
  import opened Text

  /** The two ways reading can fail, each with the message the reader raises. */
  datatype ReadError = HeaderError | EdgeError

  const HeaderMessage := "Color count should be defined in the first line: 'colors = <number>'"
  const EdgeMessage := "Each line should contain two numbers separated by a comma."

  function Message(e: ReadError): string {
    match e
    case HeaderError => HeaderMessage
    case EdgeError => EdgeMessage
  }

  /** A line is a comment when its first character is `#`. */
  predicate IsComment(line: string) {
    |line| > 0 && line[0] == '#'
  }

  /**
    The header line: lowered and stripped, `<key>=<value>` with key `colors` and
    an integer value. A header holds exactly one `=`.
   */
  function ParseHeader(line: string): Option<int> {
    var parts := Split(Strip(Lower(line)), '=');
    if |parts| != 2 then None
    else if Strip(parts[0]) != "colors" then None
    else ParseInt(Strip(parts[1]))
  }

  /** An edge line: stripped, exactly two integers separated by a comma. An edge line holds exactly one comma. */
  function ParseEdge(line: string): Option<(int, int)> {
    var parts := Split(Strip(line), ',');
    if |parts| != 2 then None
    else match (ParseInt(parts[0]), ParseInt(parts[1]))
      case (Some(u), Some(v)) => Some((u, v))
      case _ => None
  }

  /** An accepted header holds exactly one `=`. */
  lemma HeaderOneEquals(line: string)
    requires ParseHeader(line).Some?
    ensures Count('=', line) == 1
  {
    LowerKeeps(line, '=');
    StripKeeps(Lower(line), '=');
    SplitCount(Strip(Lower(line)), '=');
  }

  /** An accepted edge line holds exactly one comma. */
  lemma EdgeOneComma(line: string)
    requires ParseEdge(line).Some?
    ensures Count(',', line) == 1
  {
    StripKeeps(line, ',');
    SplitCount(Strip(line), ',');
  }

  /** The lines that are not comments, in file order. */
  function Uncommented(lines: seq<string>): (r: seq<string>)
    ensures |r| <= |lines|
    ensures forall j :: 0 <= j < |r| ==> !IsComment(r[j])
  {
    if lines == [] then []
    else
      var last := lines[|lines| - 1];
      Uncommented(lines[..|lines| - 1]) + if IsComment(last) then [] else [last]
  }

  /** The edges of the edge lines `ls`, in order, or `None` if one of them is malformed. */
  function EdgesOf(ls: seq<string>): Option<seq<(int, int)>> {
    if ls == [] then Some([])
    else match (EdgesOf(ls[..|ls| - 1]), ParseEdge(ls[|ls| - 1]))
      case (Some(es), Some(e)) => Some(es + [e])
      case _ => None
  }

  /**
    What reading the file gives: the first non-comment line is the header and
    every later non-comment line is an edge line.
   */
  function Parsed(lines: seq<string>): Result<(int, seq<(int, int)>), ReadError> {
    ParseContent(Uncommented(lines))
  }

  /** The outcome for the non-comment lines `content`. */
  function ParseContent(content: seq<string>): Result<(int, seq<(int, int)>), ReadError> {
    if content == [] then Err(HeaderError)
    else match ParseHeader(content[0])
      case None => Err(HeaderError)
      case Some(k) =>
        match EdgesOf(content[1..])
        case None => Err(EdgeError)
        case Some(es) => Ok((k, es))
  }

  // ---------------------------------------------------------------------------
  // read_input

  /**
    read_input: one pass over the lines, remembering the color count once the
    header has been read and appending each edge as it is read; the first bad
    line raises its error.
   */
  method ReadInput(lines: seq<string>) returns (r: Result<(int, seq<(int, int)>), ReadError>)
    ensures r == Parsed(lines)
  {
    var colors: Option<int> := None;
    var edges: seq<(int, int)> := [];
    // The non-comment lines read so far.
    ghost var seen: seq<string> := [];
    for i := 0 to |lines|
      invariant seen == Uncommented(lines[..i])
      invariant colors.None? ==> seen == [] && edges == []
      invariant colors.Some? ==> |seen| > 0 && ParseHeader(seen[0]) == colors && EdgesOf(seen[1..]) == Some(edges)
    {
      var line := lines[i];
      UncommentedStep(lines, i);
      if |line| > 0 && line[0] == '#' {
        continue;
      }
      if colors.None? {
        colors := ParseHeader(line);
        if colors.None? {
          ParsedStopsAt(lines, i + 1);
          return Err(HeaderError);
        }
        seen := [line];
        assert seen[1..] == [];
        continue;
      }
      var e := ParseEdge(line);
      EdgesOfStep(seen, line);
      seen := seen + [line];
      if e.None? {
        ParsedStopsAt(lines, i + 1);
        return Err(EdgeError);
      }
      edges := edges + [e.value];
    }
    assert lines[..|lines|] == lines;
    if colors.None? {
      return Err(HeaderError);
    }
    return Ok((colors.value, edges));
  }

  /** Reading one more line adds it to the non-comment lines unless it is a comment. */
  lemma UncommentedStep(lines: seq<string>, i: nat)
    requires i < |lines|
    ensures Uncommented(lines[..i + 1]) == Uncommented(lines[..i]) + if IsComment(lines[i]) then [] else [lines[i]]
  {
    assert lines[..i + 1][..i] == lines[..i];
  }

  /** One more edge line appends its edge, or fails. */
  lemma EdgesOfStep(seen: seq<string>, line: string)
    requires |seen| > 0
    ensures (seen + [line])[0] == seen[0]
    ensures EdgesOf((seen + [line])[1..]) == match (EdgesOf(seen[1..]), ParseEdge(line))
      case (Some(es), Some(e)) => Some(es + [e])
      case _ => None
  {
    assert (seen + [line])[1..] == seen[1..] + [line];
    EdgesOfSnoc(seen[1..], line);
  }

  lemma EdgesOfSnoc(ls: seq<string>, line: string)
    ensures EdgesOf(ls + [line]) == match (EdgesOf(ls), ParseEdge(line))
      case (Some(es), Some(e)) => Some(es + [e])
      case _ => None
  {
    assert (ls + [line])[..|ls|] == ls;
  }

  // ---------------------------------------------------------------------------
  // What reading promises

  lemma {:induction false} UncommentedAppend(a: seq<string>, b: seq<string>)
    ensures Uncommented(a + b) == Uncommented(a) + Uncommented(b)
    decreases |b|
  {
    if b == [] {
      assert a + b == a;
    } else {
      var b' := b[..|b| - 1];
      assert (a + b)[..|a + b| - 1] == a + b';
      UncommentedAppend(a, b');
    }
  }

  lemma {:induction false} EdgesOfAppendNone(a: seq<string>, b: seq<string>)
    requires EdgesOf(a).None?
    ensures EdgesOf(a + b).None?
    decreases |b|
  {
    if b == [] {
      assert a + b == a;
    } else {
      var b' := b[..|b| - 1];
      assert (a + b)[..|a + b| - 1] == a + b';
      EdgesOfAppendNone(a, b');
    }
  }

  /** A bad header or a bad edge among the first `i` lines decides the outcome, whatever follows. */
  lemma ParsedStopsAt(lines: seq<string>, i: nat)
    requires i <= |lines|
    ensures var p := Uncommented(lines[..i]);
      |p| > 0 && ParseHeader(p[0]).None? ==> Parsed(lines) == Err(HeaderError)
    ensures var p := Uncommented(lines[..i]);
      |p| > 0 && ParseHeader(p[0]).Some? && EdgesOf(p[1..]).None? ==> Parsed(lines) == Err(EdgeError)
  {
    var p := Uncommented(lines[..i]);
    assert lines == lines[..i] + lines[i..];
    UncommentedAppend(lines[..i], lines[i..]);
    var u := Uncommented(lines);
    if |p| > 0 {
      assert u[0] == p[0];
      assert u[1..] == p[1..] + Uncommented(lines[i..]);
      if EdgesOf(p[1..]).None? {
        EdgesOfAppendNone(p[1..], Uncommented(lines[i..]));
      }
    }
  }

  /** The edges read are the edge lines, one edge per line and in order, when every one is well formed. */
  lemma {:induction false} EdgesOfMeaning(ls: seq<string>)
    ensures EdgesOf(ls).Some? <==> forall j :: 0 <= j < |ls| ==> ParseEdge(ls[j]).Some?
    ensures EdgesOf(ls).Some? ==> (|EdgesOf(ls).value| == |ls|
      && forall j :: 0 <= j < |ls| ==> EdgesOf(ls).value[j] == ParseEdge(ls[j]).value)
    decreases |ls|
  {
    if ls != [] {
      var ls' := ls[..|ls| - 1];
      EdgesOfMeaning(ls');
      assert forall j :: 0 <= j < |ls'| ==> ls'[j] == ls[j];
    }
  }

  /** The non-comment lines are exactly the lines of the file that are not comments. */
  lemma {:induction false} UncommentedMeaning(lines: seq<string>)
    ensures forall l :: l in Uncommented(lines) <==> l in lines && !IsComment(l)
    decreases |lines|
  {
    if lines != [] {
      var init := lines[..|lines| - 1];
      UncommentedMeaning(init);
      assert lines == init + [lines[|lines| - 1]];
    }
  }

  /**
    Reading succeeds exactly when the first non-comment line is a header and
    every later one an edge line; it then gives the header's count and one edge
    per edge line in file order. It reports the header error exactly when there
    is no non-comment line or the first one is not a header.
   */
  lemma ParsedMeaning(lines: seq<string>)
    ensures var u := Uncommented(lines);
      Parsed(lines).Ok? <==>
        |u| > 0 && ParseHeader(u[0]).Some? && forall j :: 1 <= j < |u| ==> ParseEdge(u[j]).Some?
    ensures var u := Uncommented(lines);
      Parsed(lines) == Err(HeaderError) <==> |u| == 0 || ParseHeader(u[0]).None?
    ensures var u := Uncommented(lines);
      Parsed(lines).Ok? ==>
        && Parsed(lines).value.0 == ParseHeader(u[0]).value
        && |Parsed(lines).value.1| == |u| - 1
        && forall j :: 1 <= j < |u| ==> Parsed(lines).value.1[j - 1] == ParseEdge(u[j]).value
  {
    var u := Uncommented(lines);
    if |u| > 0 {
      EdgesOfMeaning(u[1..]);
      assert forall j :: 1 <= j < |u| ==> u[1..][j - 1] == u[j];
    }
  }

  /** A comment line changes nothing, wherever it stands. */
  lemma CommentIgnored(a: seq<string>, c: string, b: seq<string>)
    requires IsComment(c)
    ensures Parsed(a + [c] + b) == Parsed(a + b)
  {
    UncommentedAppend(a + [c], b);
    UncommentedAppend(a, [c]);
    UncommentedAppend(a, b);
    assert Uncommented([c]) == [] by {
      assert [c][..0] == [];
    }
    assert Uncommented(a + [c] + b) == Uncommented(a + b);
  }

  /** An input of comments only, or an empty one, has no header. */
  lemma {:induction false} OnlyCommentsNoHeader(lines: seq<string>)
    requires forall j :: 0 <= j < |lines| ==> IsComment(lines[j])
    ensures Uncommented(lines) == [] && Parsed(lines) == Err(HeaderError)
    decreases |lines|
  {
    if lines != [] {
      OnlyCommentsNoHeader(lines[..|lines| - 1]);
    }
  }

  /**
    After a good header, a later non-comment line without a comma makes reading
    fail with the edge error: blank lines are not skipped, and a second
    `colors = <k>` line is a malformed edge line.
   */
  lemma LineWithoutCommaFails(lines: seq<string>, j: nat)
    requires var u := Uncommented(lines);
      |u| > 0 && ParseHeader(u[0]).Some? && 1 <= j < |u| && ',' !in u[j]
    ensures Parsed(lines) == Err(EdgeError)
  {
    var line := Uncommented(lines)[j];
    CountAbsent(',', line);
    if ParseEdge(line).Some? {
      EdgeOneComma(line);
    }
    ParsedMeaning(lines);
  }

  /** After the header, a second line without a comma is a malformed edge line. */
  lemma SecondLineFails(h: string, line: string, rest: seq<string>)
    requires !IsComment(h) && ParseHeader(h).Some?
    requires !IsComment(line) && ',' !in line
    ensures Parsed([h, line] + rest) == Err(EdgeError)
  {
    var lines := [h, line] + rest;
    assert [h, line][..1] == [h];
    assert Uncommented([h, line]) == [h, line];
    UncommentedAppend([h, line], rest);
    LineWithoutCommaFails(lines, 1);
  }

  /** A second `colors = <k>` line after the header is read as a malformed edge line. */
  lemma RepeatedHeaderFails(h: string, k: int, rest: seq<string>)
    requires !IsComment(h) && ParseHeader(h).Some?
    ensures Parsed([h, HeaderLine(k)] + rest) == Err(EdgeError)
  {
    assert HeaderLine(k)[0] == 'c';
    HeaderLineNoComma(k);
    SecondLineFails(h, HeaderLine(k), rest);
  }

  lemma HeaderLineNoComma(k: int)
    ensures ',' !in HeaderLine(k)
  {
    var n := ShowInt(k);
    ShowIntAvoids(k, ',');
    var h := HeaderLine(k);
    assert h == "colors = " + n + "\n";
    forall j | 0 <= j < |h| ensures h[j] != ',' {
      if 9 <= j < 9 + |n| {
        assert h[j] == n[j - 9];
      }
    }
  }

  /** A blank line after the header is a malformed edge line, not skipped. */
  lemma BlankLineFails(h: string, rest: seq<string>)
    requires !IsComment(h) && ParseHeader(h).Some?
    ensures Parsed([h, "\n"] + rest) == Err(EdgeError)
  {
    SecondLineFails(h, "\n", rest);
  }

  // ---------------------------------------------------------------------------
  // Well-formed lines are read back

  /** Lowering a string of the form w1 + name + w2 + "=" + w3 + n + w4. */
  lemma LowerHeader(w1: string, name: string, w2: string, w3: string, n: string, w4: string)
    requires AllSpace(w1) && AllSpace(w2) && AllSpace(w3) && AllSpace(w4)
    requires forall i :: 0 <= i < |n| ==> !IsUpper(n[i])
    ensures Lower(w1 + name + w2 + "=" + w3 + n + w4) == w1 + Lower(name) + w2 + "=" + w3 + n + w4
  {
    SpacesArePlain();
    LowerAppend(w1 + name + w2 + "=" + w3 + n, w4);
    LowerAppend(w1 + name + w2 + "=" + w3, n);
    LowerAppend(w1 + name + w2 + "=", w3);
    LowerAppend(w1 + name + w2, "=");
    LowerAppend(w1 + name, w2);
    LowerAppend(w1, name);
    LowerNoUpper(w1);
    LowerNoUpper(w2);
    LowerNoUpper(w3);
    LowerNoUpper(w4);
    LowerNoUpper(n);
    LowerNoUpper("=");
  }

  /**
    The header keyword may be in any case and white space may surround the
    keyword, the `=` and the number: any such header gives its count, zero and
    negative counts included.
   */
  lemma HeaderAccepted(w1: string, name: string, w2: string, w3: string, k: int, w4: string)
    requires AllSpace(w1) && AllSpace(w2) && AllSpace(w3) && AllSpace(w4)
    requires Lower(name) == "colors"
    ensures ParseHeader(w1 + name + w2 + "=" + w3 + ShowInt(k) + w4) == Some(k)
  {
    var n := ShowInt(k);
    var key := "colors" + w2;
    var value := w3 + n;
    var m := key + "=" + value;
    assert w1 + "colors" + w2 + "=" + w3 + n + w4 == w1 + m + w4;
    assert [] + "colors" + w2 == key;
    assert w3 + n + [] == value;
    ShowIntChars(k);
    LowerHeader(w1, name, w2, w3, n, w4);
    SpacesArePlain();
    assert Trimmed(m) by {
      assert m[0] == 'c';
      assert m[|m| - 1] == n[|n| - 1];
    }
    StripPadded(w1, m, w4);
    SpacesAvoid(w2, '=');
    SpacesAvoid(w3, '=');
    ShowIntAvoids(k, '=');
    SplitOnce(key, '=', value);
    StripPadded([], "colors", w2);
    StripPadded(w3, n, []);
    ParseIntShowInt(k);
  }

  /** One number of an edge line, with the white space `int()` skips around it. */
  lemma EdgeNumber(w1: string, n: int, w2: string)
    requires AllIntSpace(w1) && AllIntSpace(w2)
    ensures ParseInt(w1 + ShowInt(n) + w2) == Some(n)
    ensures ',' !in w1 + ShowInt(n) + w2
  {
    var t := ShowInt(n);
    ShowIntChars(n);
    ParseIntPadded(w1, t, w2);
    ParseTokenShowInt(n);
    assert AllSpace(w1) && AllSpace(w2);
    SpacesAvoid(w1, ',');
    SpacesAvoid(w2, ',');
    ShowIntAvoids(n, ',');
  }

  /** A stripped edge line splits at its one comma. */
  lemma EdgeParts(w1: string, left: string, right: string, w4: string)
    requires AllSpace(w1) && AllSpace(w4) && ',' !in left && ',' !in right
    requires Trimmed(left + "," + right)
    ensures Split(Strip(w1 + left + "," + right + w4), ',') == [left, right]
  {
    var m := left + "," + right;
    assert w1 + left + "," + right + w4 == w1 + m + w4;
    StripPadded(w1, m, w4);
    SplitOnce(left, ',', right);
  }

  /** White space may surround either number of an edge line. */
  lemma EdgeAccepted(w1: string, u: int, w2: string, w3: string, v: int, w4: string)
    requires AllSpace(w1) && AllIntSpace(w2) && AllIntSpace(w3) && AllSpace(w4)
    ensures ParseEdge(w1 + ShowInt(u) + w2 + "," + w3 + ShowInt(v) + w4) == Some((u, v))
  {
    var su, sv := ShowInt(u), ShowInt(v);
    var left := su + w2;
    var right := w3 + sv;
    assert w1 + su + w2 + "," + w3 + sv + w4 == w1 + left + "," + right + w4;
    assert [] + su + w2 == left;
    assert w3 + sv + [] == right;
    EdgeNumber([], u, w2);
    EdgeNumber(w3, v, []);
    ShowIntChars(u);
    ShowIntChars(v);
    assert Trimmed(left + "," + right) by {
      var m := left + "," + right;
      assert m[0] == su[0];
      assert m[|m| - 1] == sv[|sv| - 1];
    }
    EdgeParts(w1, left, right, w4);
  }

  /**
    The separator U+001C after a number is not white space to `int()`, although
    `strip()` would remove it: the edge line `1\x1c,2` is malformed.
   */
  lemma SeparatorBreaksEdge()
    ensures ParseEdge("1\U{1c},2\n") == None
  {
    SpacesArePlain();
    SeparatorNotSkipped();
    assert "1\U{1c},2\n" == [] + "1\U{1c}" + "," + "2" + "\n";
    assert AllSpace("\n") && AllSpace([]);
    EdgeParts([], "1\U{1c}", "2", "\n");
  }

  function HeaderLine(k: int): string {
    "colors = " + ShowInt(k) + "\n"
  }

  function EdgeLine(e: (int, int)): string {
    ShowInt(e.0) + "," + ShowInt(e.1) + "\n"
  }

  /** The file `colors = <k>` followed by one `<u>,<v>` line per edge, as the generator writes it. */
  function Render(k: int, es: seq<(int, int)>): seq<string> {
    [HeaderLine(k)] + RenderEdges(es)
  }

  function RenderEdges(es: seq<(int, int)>): (ls: seq<string>)
    ensures |ls| == |es|
  {
    if es == [] then []
    else RenderEdges(es[..|es| - 1]) + [EdgeLine(es[|es| - 1])]
  }

  lemma HeaderLineRead(k: int)
    ensures !IsComment(HeaderLine(k))
    ensures ParseHeader(HeaderLine(k)) == Some(k)
  {
    SpacesArePlain();
    assert AllSpace(" ") && AllSpace("\n") && AllSpace([]);
    LowerNoUpper("colors");
    HeaderAccepted([], "colors", " ", " ", k, "\n");
    assert [] + "colors" + " " + "=" + " " + ShowInt(k) + "\n" == HeaderLine(k);
  }

  lemma EdgeLineRead(e: (int, int))
    ensures !IsComment(EdgeLine(e))
    ensures ParseEdge(EdgeLine(e)) == Some(e)
  {
    SpacesArePlain();
    ShowIntChars(e.0);
    assert AllSpace("\n") && AllSpace([]);
    EdgeAccepted([], e.0, [], [], e.1, "\n");
    assert [] + ShowInt(e.0) + [] + "," + [] + ShowInt(e.1) + "\n" == EdgeLine(e);
  }

  lemma {:induction false} RenderEdgesNoComment(es: seq<(int, int)>)
    ensures forall j :: 0 <= j < |es| ==> !IsComment(RenderEdges(es)[j])
    decreases |es|
  {
    if es != [] {
      var es' := es[..|es| - 1];
      RenderEdgesNoComment(es');
      EdgeLineRead(es[|es| - 1]);
      var ls := RenderEdges(es);
      assert forall j :: 0 <= j < |es'| ==> ls[j] == RenderEdges(es')[j];
    }
  }

  /** Edge lines are read back as their edges, duplicates and self-loops included. */
  lemma {:induction false} EdgesOfRender(es: seq<(int, int)>)
    ensures EdgesOf(RenderEdges(es)) == Some(es)
    decreases |es|
  {
    if es != [] {
      var es' := es[..|es| - 1];
      var e := es[|es| - 1];
      assert es' + [e] == es;
      EdgesOfRender(es');
      EdgeLineRead(e);
      EdgesOfSnoc(RenderEdges(es'), EdgeLine(e));
    }
  }

  /** Reading the rendered file gives back the color count and the edges, in order. */
  lemma ReadRendered(k: int, es: seq<(int, int)>)
    ensures Parsed(Render(k, es)) == Ok((k, es))
  {
    var lines := Render(k, es);
    HeaderLineRead(k);
    RenderEdgesNoComment(es);
    forall j | 0 <= j < |lines| ensures !IsComment(lines[j]) {
      if j > 0 {
        assert lines[j] == RenderEdges(es)[j - 1];
      }
    }
    UncommentedNone(lines);
    assert lines[1..] == RenderEdges(es);
    EdgesOfRender(es);
  }

  /** Without comment lines, every line is read. */
  lemma {:induction false} UncommentedNone(lines: seq<string>)
    requires forall j :: 0 <= j < |lines| ==> !IsComment(lines[j])
    ensures Uncommented(lines) == lines
    decreases |lines|
  {
    if lines != [] {
      UncommentedNone(lines[..|lines| - 1]);
    }
  }
}
