/** pkg/front-matter.go: the front-matter map of a note with its three
    lookups, and the line scanner that splits a markdown document into its
    front-matter lines and its body. Decoding the YAML text is left to an
    injected function. */
module FrontMatter {
  import opened Wrappers
  import opened Texts

  /** The dynamic values that end up in a front-matter map: what yaml.v2
      decodes into `interface{}` (strings, integers, booleans, lists) and
      the `[]string` values that callers build themselves. Any other dynamic
      type (floats, nested maps, nil) is `Other`, carried with the text
      `fmt.Sprintf("%v", v)` gives for it. */
  datatype Value =
    | Str(s: string)
    | Int(i: int)
    | Bool(b: bool)
    | StrList(items: seq<string>)
    | List(elems: seq<Value>)
    | Other(text: string)

  /** Go's `FrontMatter`, a `map[string]interface{}`. */
  type Matter = map<string, Value>

  datatype ParseError =
    | ErrNoFrontMatter          // "missing front matter"
    | YamlError(message: string)

  /** The YAML decoder (`yaml.Unmarshal` into a map), an external collaborator. */
  type Decoder = string -> Result<Matter, string>

  const Marker: string := "---"

  function Digit(d: nat): char
    requires d < 10
  {
    "0123456789"[d]
  }

  function Decimal(n: nat): (r: string)
    ensures r != []
  {
    if n < 10 then [Digit(n)] else Decimal(n / 10) + [Digit(n % 10)]
  }

  /** `fmt.Sprintf("%v", v)`: strings as they are, integers in decimal,
      lists as their space-separated elements in brackets. */
  function Render(v: Value): string
    decreases v, 1
  {
    match v
    case Str(s) => s
    case Int(i) => if i < 0 then "-" + Decimal(-i) else Decimal(i)
    case Bool(b) => if b then "true" else "false"
    case StrList(items) => "[" + Join(items, " ") + "]"
    case List(elems) => "[" + RenderAll(elems) + "]"
    case Other(text) => text
  }

  function RenderAll(vs: seq<Value>): string
    decreases vs, 0
  {
    if vs == [] then ""
    else if |vs| == 1 then Render(vs[0])
    else Render(vs[0]) + " " + RenderAll(vs[1..])
  }

  /** `FrontMatter.Has`: an exact, case-sensitive key lookup. */
  predicate Has(fm: Matter, key: string)
  {
    key in fm
  }

  /** `FrontMatter.String`: "" for a missing key, a string value unchanged,
      any other value in its `%v` rendering. */
  function String(fm: Matter, key: string): (r: string)
    ensures !Has(fm, key) ==> r == ""
    ensures Has(fm, key) ==> r == Render(fm[key])
    ensures Has(fm, key) && fm[key].Str? ==> r == fm[key].s
  {
    if key !in fm then ""
    else match fm[key]
      case Str(s) => s
      case v => Render(v)
  }

  /** `FrontMatter.Strings`: nil (None) for a missing key and for a value
      that is not a list; a `[]string` as it is; a `[]interface{}` element by
      element, strings verbatim and other elements rendered. */
  method Strings(fm: Matter, key: string) returns (r: Option<seq<string>>)
    ensures !Has(fm, key) ==> r == None
    ensures Has(fm, key) && fm[key].StrList? ==> r == Some(fm[key].items)
    ensures Has(fm, key) && fm[key].List? ==>
      r.Some? && |r.value| == |fm[key].elems|
      && forall i :: 0 <= i < |r.value| ==> r.value[i] == Render(fm[key].elems[i])
    ensures Has(fm, key) && !fm[key].StrList? && !fm[key].List? ==> r == None
  {
    if key !in fm {
      return None;
    }
    var v := fm[key];
    if v.StrList? {
      return Some(v.items);
    }
    if v.List? {
      var ii := v.elems;
      var ss := new string[|ii|];
      var i := 0;
      while i < |ii|
        invariant 0 <= i <= |ii|
        invariant forall j :: 0 <= j < i ==> ss[j] == Render(ii[j])
      {
        match ii[i] {
          case Str(s) => ss[i] := s;
          case vv => ss[i] := Render(vv);
        }
        i := i + 1;
      }
      return Some(ss[..]);
    }
    return None;
  }

  // ----- line scanning (bufio.Scanner with bufio.ScanLines) -----

  /** A line loses one trailing carriage return. */
  function DropCR(line: string): string
  {
    if line != [] && line[|line| - 1] == '\r' then line[..|line| - 1] else line
  }

  /** The lines `bufio.ScanLines` yields: the text is cut at every newline,
      each line drops a trailing carriage return, and a final empty line
      (text ending in a newline) is not reported. */
  function ScanLines(content: string): (lines: seq<string>)
    ensures forall k :: 0 <= k < |lines| ==> '\n' !in lines[k]
    decreases |content|
  {
    if content == [] then []
    else
      var i := IndexOf(content, '\n');
      if i == |content| then [DropCR(content)]
      else [DropCR(content[..i])] + ScanLines(content[i + 1..])
  }

  predicate CleanLine(line: string) {
    '\n' !in line && (line == [] || line[|line| - 1] != '\r')
  }

  /** Every line is clean: no newline inside, no carriage return at the end. */
  predicate AllClean(lines: seq<string>) {
    forall k :: 0 <= k < |lines| ==> CleanLine(lines[k])
  }

  lemma AllCleanAppend(a: seq<string>, b: seq<string>)
    requires AllClean(a) && AllClean(b)
    ensures AllClean(a + b)
  {
    forall k | 0 <= k < |a + b| ensures CleanLine((a + b)[k]) {
      if k < |a| {
        assert (a + b)[k] == a[k];
      } else {
        assert (a + b)[k] == b[k - |a|];
      }
    }
  }

  /** Scanning lines joined by newlines gives those lines back, as long as
      none holds a newline or ends in a carriage return and the last one is
      not empty. */
  lemma {:induction false} ScanLinesOfJoin(lines: seq<string>)
    requires lines != [] && lines[|lines| - 1] != [] && AllClean(lines)
    ensures ScanLines(Join(lines, "\n")) == lines
  {
    if |lines| == 1 {
      ScanOneLine(lines);
    } else {
      AllCleanTail(lines);
      ScanLinesOfJoin(lines[1..]);
      ScanJoinStep(lines);
    }
  }

  lemma ScanOneLine(lines: seq<string>)
    requires |lines| == 1 && lines[0] != [] && CleanLine(lines[0])
    ensures ScanLines(Join(lines, "\n")) == lines
  {
    assert IndexOf(lines[0], '\n') == |lines[0]|;
  }

  lemma AllCleanTail(lines: seq<string>)
    requires lines != [] && AllClean(lines)
    ensures CleanLine(lines[0]) && AllClean(lines[1..])
  {
    forall k | 0 <= k < |lines| - 1 ensures CleanLine(lines[1..][k]) {
      assert lines[1..][k] == lines[k + 1];
    }
  }

  /** A clean first line is scanned on its own, before the other lines. */
  lemma ScanJoinStep(lines: seq<string>)
    requires |lines| > 1 && CleanLine(lines[0])
    requires ScanLines(Join(lines[1..], "\n")) == lines[1..]
    ensures ScanLines(Join(lines, "\n")) == lines
  {
    var l, rest := lines[0], Join(lines[1..], "\n");
    var content := l + "\n" + rest;
    IndexOfAfter(l, '\n', rest);
    assert content[..|l|] == l;
    assert content[|l| + 1..] == rest;
    assert lines == [l] + lines[1..];
  }

  // ----- splitting a document into front matter and body -----

  /** The index of the first `---` line at or after `from`, |lines| if none. */
  function FindMarker(lines: seq<string>, from: nat): (r: nat)
    requires from <= |lines|
    ensures from <= r <= |lines|
    ensures r < |lines| ==> lines[r] == Marker
    ensures forall m :: from <= m < r ==> lines[m] != Marker
    decreases |lines| - from
  {
    if from == |lines| || lines[from] == Marker then from else FindMarker(lines, from + 1)
  }

  datatype Sections = Sections(meta: seq<string>, body: seq<string>)

  /** Reference definition of the split: lines before the first `---` are
      dropped, the lines between the first and second `---` are the front
      matter, and everything after the second `---` is the body, verbatim.
      Without a second `---` the front matter runs to the end. */
  function Split(lines: seq<string>): Sections
  {
    var i := FindMarker(lines, 0);
    if i == |lines| then Sections([], [])
    else
      var j := FindMarker(lines, i + 1);
      if j == |lines| then Sections(lines[i + 1..], [])
      else Sections(lines[i + 1..j], lines[j + 1..])
  }

  /** The result of `ParseFrontMatterMarkdown` on a whole document. */
  function Parsed(content: string, decode: Decoder): Result<(Matter, string), ParseError>
  {
    var sec := Split(ScanLines(content));
    if sec.meta == [] then Failure(ErrNoFrontMatter)
    else match decode(Join(sec.meta, "\n"))
      case Failure(message) => Failure(YamlError(message))
      case Success(fm) => Success((fm, TrimSpace(Join(sec.body, "\n"))))
  }

  /** `ParseFrontMatterMarkdown`: the lines are scanned into the front
      matter and the body, then the front matter is decoded and the body
      joined and trimmed. */
  method ParseFrontMatterMarkdown(content: string, decode: Decoder)
    returns (r: Result<(Matter, string), ParseError>)
    ensures r == Parsed(content, decode)
  {
    var metaLines, bodyLines := ScanSections(ScanLines(content));
    if |metaLines| == 0 {
      return Failure(ErrNoFrontMatter);
    }
    var decoded := decode(Join(metaLines, "\n"));
    match decoded
    case Failure(message) =>
      return Failure(YamlError(message));
    case Success(meta) =>
      return Success((meta, TrimSpace(Join(bodyLines, "\n"))));
  }

  /** The scanning loop of `ParseFrontMatterMarkdown`, a three-state
      machine: state 0 is before the first `---`, state 1 inside the front
      matter, state 2 the body. */
  method ScanSections(lines: seq<string>) returns (metaLines: seq<string>, bodyLines: seq<string>)
    ensures Sections(metaLines, bodyLines) == Split(lines)
  {
    metaLines, bodyLines := [], [];
    var state := 0;
    ghost var first := FindMarker(lines, 0);
    ghost var second := if first < |lines| then FindMarker(lines, first + 1) else |lines|;
    var k := 0;
    while k < |lines|
      invariant 0 <= k <= |lines|
      invariant 0 <= state <= 2
      invariant state == 0 ==> k <= first && metaLines == [] && bodyLines == []
      invariant state >= 1 ==> first < k && first < |lines|
      invariant state == 1 ==> k <= second && metaLines == lines[first + 1..k] && bodyLines == []
      invariant state == 2 ==>
                  second < k && metaLines == lines[first + 1..second] && bodyLines == lines[second + 1..k]
    {
      var line := lines[k];
      if state < 2 && line == Marker {
        if state == 0 {
          assert k == first;
        } else {
          assert k == second;
        }
        state := state + 1;
      } else if state == 1 {
        assert k < second;
        assert lines[first + 1..k + 1] == lines[first + 1..k] + [line];
        metaLines := metaLines + [line];
      } else if state == 2 {
        assert lines[second + 1..k + 1] == lines[second + 1..k] + [line];
        bodyLines := bodyLines + [line];
      } else {
        assert k < first;
      }
      k := k + 1;
    }
  }

  // ----- properties of the split -----

  lemma FindMarkerAt(lines: seq<string>, from: nat, at: nat)
    requires from <= at < |lines| && lines[at] == Marker
    requires forall m :: from <= m < at ==> lines[m] != Marker
    ensures FindMarker(lines, from) == at
  {
  }

  /** Without any `---` line there is no front matter and no body. */
  lemma SplitWithoutMarker(lines: seq<string>)
    requires Marker !in lines
    ensures Split(lines) == Sections([], [])
  {
    assert FindMarker(lines, 0) == |lines|;
  }

  /** A closed block: lines before the first `---` are dropped, the lines up
      to the second `---` are the front matter in order, and the rest is the
      body verbatim, later `---` lines included. */
  lemma SplitClosed(pre: seq<string>, meta: seq<string>, body: seq<string>)
    requires Marker !in pre && Marker !in meta
    ensures Split(pre + [Marker] + meta + [Marker] + body) == Sections(meta, body)
  {
    var lines := pre + [Marker] + meta + [Marker] + body;
    var i, j := |pre|, |pre| + 1 + |meta|;
    assert forall m :: 0 <= m < i ==> lines[m] == pre[m];
    FindMarkerAt(lines, 0, i);
    assert forall m :: i + 1 <= m < j ==> lines[m] == meta[m - i - 1];
    FindMarkerAt(lines, i + 1, j);
    assert lines[i + 1..j] == meta;
    assert lines[j + 1..] == body;
  }

  /** An unclosed block: after a single `---` every line is front matter and
      the body is empty. */
  lemma SplitUnclosed(pre: seq<string>, meta: seq<string>)
    requires Marker !in pre && Marker !in meta
    ensures Split(pre + [Marker] + meta) == Sections(meta, [])
  {
    var lines := pre + [Marker] + meta;
    var i := |pre|;
    assert forall m :: 0 <= m < i ==> lines[m] == pre[m];
    FindMarkerAt(lines, 0, i);
    assert forall m :: i + 1 <= m < |lines| ==> lines[m] == meta[m - i - 1];
    assert FindMarker(lines, i + 1) == |lines|;
    assert lines[i + 1..] == meta;
  }

  /** A document without a `---` line, or whose first two `---` lines are
      adjacent, has no front matter. */
  lemma MissingFrontMatter(content: string, decode: Decoder)
    requires var lines := ScanLines(content);
      Marker !in lines
      || exists pre, body :: Marker !in pre && lines == pre + [Marker] + [] + [Marker] + body
    ensures Parsed(content, decode) == Failure(ErrNoFrontMatter)
  {
    var lines := ScanLines(content);
    if Marker !in lines {
      SplitWithoutMarker(lines);
    } else {
      var pre, body :| Marker !in pre && lines == pre + [Marker] + [] + [Marker] + body;
      SplitClosed(pre, [], body);
    }
  }

  /** Any document whose scanned lines hold a closed block, whatever its
      line endings: the front matter is decoded from the lines between the
      first two markers, the body is the rest joined and trimmed. */
  lemma ParsedLines(content: string, pre: seq<string>, meta: seq<string>, body: seq<string>, decode: Decoder)
    requires Marker !in pre && Marker !in meta && meta != []
    requires ScanLines(content) == pre + [Marker] + meta + [Marker] + body
    ensures Parsed(content, decode)
         == match decode(Join(meta, "\n"))
            case Failure(message) => Failure(YamlError(message))
            case Success(fm) => Success((fm, TrimSpace(Join(body, "\n"))))
  {
    SplitClosed(pre, meta, body);
  }

  /** Any document whose scanned lines hold a block that is never closed:
      not an error, the body is then empty. */
  lemma ParsedLinesUnclosed(content: string, pre: seq<string>, meta: seq<string>, decode: Decoder)
    requires Marker !in pre && Marker !in meta && meta != []
    requires ScanLines(content) == pre + [Marker] + meta
    ensures Parsed(content, decode)
         == match decode(Join(meta, "\n"))
            case Failure(message) => Failure(YamlError(message))
            case Success(fm) => Success((fm, ""))
  {
    SplitUnclosed(pre, meta);
    assert Join([], "\n") == "";
  }

  /** A whole document given as lines: its front matter is decoded from the
      lines between the markers, its body is the rest joined and trimmed. */
  lemma ParsedDocument(pre: seq<string>, meta: seq<string>, body: seq<string>, decode: Decoder)
    requires Marker !in pre && Marker !in meta && meta != []
    requires var lines := pre + [Marker] + meta + [Marker] + body;
      lines[|lines| - 1] != [] && AllClean(lines)
    ensures Parsed(Join(pre + [Marker] + meta + [Marker] + body, "\n"), decode)
         == match decode(Join(meta, "\n"))
            case Failure(message) => Failure(YamlError(message))
            case Success(fm) => Success((fm, TrimSpace(Join(body, "\n"))))
  {
    var lines := pre + [Marker] + meta + [Marker] + body;
    ScanLinesOfJoin(lines);
    ParsedLines(Join(lines, "\n"), pre, meta, body, decode);
  }

  /** An unclosed block given as lines is not an error: the body is then
      empty. */
  lemma ParsedUnclosed(pre: seq<string>, meta: seq<string>, decode: Decoder)
    requires Marker !in pre && Marker !in meta && meta != [] && meta[|meta| - 1] != []
    requires AllClean(pre) && AllClean(meta)
    ensures decode(Join(meta, "\n")).Success? ==>
      Parsed(Join(pre + [Marker] + meta, "\n"), decode) == Success((decode(Join(meta, "\n")).value, ""))
  {
    var lines := pre + [Marker] + meta;
    AllCleanAppend(pre, [Marker]);
    AllCleanAppend(pre + [Marker], meta);
    ScanLinesOfJoin(lines);
    ParsedLinesUnclosed(Join(lines, "\n"), pre, meta, decode);
  }

  // ----- the cases of pkg/front-matter_test.go -----

  lemma LookupExamples()
    ensures var fm := map["a" := Int(1), "b" := Str("B"), "bb" := Int(3)];
      Has(fm, "a") && Has(fm, "b") && Has(fm, "bb")
      && !Has(fm, "c") && !Has(fm, "B") && !Has(fm, "bbb")
    ensures var fm := map["a" := Int(1), "b" := Str("B"), "bb" := StrList(["x", "y"])];
      String(fm, "a") == "1" && String(fm, "b") == "B" && String(fm, "bb") == "[x y]"
      && String(fm, "c") == "" && String(fm, "d") == ""
  {
    assert Join(["x", "y"], " ") == "x y" by {
      assert ["x", "y"][1..] == ["y"];
    }
  }

  /** The cases of TestFrontMatter_Strings: nil for an integer and a
      string, the `[]string` as it is, the `[]interface{}` element by
      element. */
  method StringsExamples() returns (a: Option<seq<string>>, b: Option<seq<string>>,
                                    bb: Option<seq<string>>, cc: Option<seq<string>>)
    ensures a == None && b == None
    ensures bb == Some(["x", "y"]) && cc == Some(["y", "z"])
  {
    var fm := map["a" := Int(1), "b" := Str("B"), "bb" := StrList(["x", "y"]), "cc" := List([Str("y"), Str("z")])];
    a := Strings(fm, "a");
    b := Strings(fm, "b");
    bb := Strings(fm, "bb");
    cc := Strings(fm, "cc");
    assert fm["cc"].List? && fm["cc"].elems == [Str("y"), Str("z")];
    assert Render(Str("y")) == "y" && Render(Str("z")) == "z";
    assert |cc.value| == 2 && cc.value[0] == "y" && cc.value[1] == "z";
    assert cc.value == ["y", "z"];
  }

  /** The document of TestParseFrontMatterMarkdown. */
  lemma ParseExample(decode: Decoder)
    ensures var meta := ["foo: 1", "bar: bla", "baz:", "  - one", "  - two", "  - 3"];
      var lines := [Marker] + meta + [Marker] + ["", "and the body and stuff"];
      decode(Join(meta, "\n")).Success? ==>
        Parsed(Join(lines, "\n"), decode) == Success((decode(Join(meta, "\n")).value, "and the body and stuff"))
  {
    var meta := ["foo: 1", "bar: bla", "baz:", "  - one", "  - two", "  - 3"];
    var body := ["", "and the body and stuff"];
    ExampleDocument(decode, meta, body);
    ExampleBody(body);
  }

  lemma ExampleDocument(decode: Decoder, meta: seq<string>, body: seq<string>)
    requires meta == ["foo: 1", "bar: bla", "baz:", "  - one", "  - two", "  - 3"]
    requires body == ["", "and the body and stuff"]
    ensures decode(Join(meta, "\n")).Success? ==>
      Parsed(Join([Marker] + meta + [Marker] + body, "\n"), decode)
      == Success((decode(Join(meta, "\n")).value, TrimSpace(Join(body, "\n"))))
  {
    ExampleClean(meta, body);
    ParsedDocument([], meta, body, decode);
    assert [] + [Marker] + meta == [Marker] + meta;
  }

  lemma ExampleClean(meta: seq<string>, body: seq<string>)
    requires meta == ["foo: 1", "bar: bla", "baz:", "  - one", "  - two", "  - 3"]
    requires body == ["", "and the body and stuff"]
    ensures var lines := [] + [Marker] + meta + [Marker] + body;
      lines[|lines| - 1] != [] && AllClean(lines)
  {
  }

  lemma ExampleBody(body: seq<string>)
    requires body == ["", "and the body and stuff"]
    ensures TrimSpace(Join(body, "\n")) == "and the body and stuff"
  {
    JoinAppend([""], ["and the body and stuff"], "\n");
    assert body == [""] + ["and the body and stuff"];
    TrimSpaceAfterSpaces("\n", "and the body and stuff");
  }

  /** The document of TestParseFrontMatterMarkdown_FrontMatterNotCode,
      `rawMeta + "\n\n" + rawBody`: the `---` lines of a code block in the body
      are body text, and the body comes back exactly as `rawBody`. */
  lemma ParseCodeBlockExample(decode: Decoder, rawMeta: seq<string>, rawBody: seq<string>)
    requires rawMeta == [Marker, "foo: 1", Marker]
    requires rawBody == ["Must not be confused:", "", "```", Marker, "valid: code block",
                         "foo: 2", Marker, "```", "", "Fin"]
    ensures var document := rawMeta + ([""] + rawBody);
      && Join(document, "\n") == Join(rawMeta, "\n") + "\n\n" + Join(rawBody, "\n")
      && (decode("foo: 1").Success? ==>
            Parsed(Join(document, "\n"), decode) == Success((decode("foo: 1").value, Join(rawBody, "\n"))))
  {
    CodeBlockClean(rawBody);
    BlankLineJoin(rawMeta, rawBody);
    OneBlockDocument(decode, "foo: 1", rawBody);
    assert Join(["foo: 1"], "\n") == "foo: 1";
    CodeBlockBody(rawBody);
    JoinAppend([""], rawBody, "\n");
  }

  lemma CodeBlockClean(rawBody: seq<string>)
    requires rawBody == ["Must not be confused:", "", "```", Marker, "valid: code block",
                         "foo: 2", Marker, "```", "", "Fin"]
    ensures AllClean(rawBody) && rawBody[|rawBody| - 1] != []
  {
  }

  /** A one-line front matter, an empty line, then the body lines. */
  lemma OneBlockDocument(decode: Decoder, meta: string, bodyLines: seq<string>)
    requires CleanLine(meta) && meta != Marker
    requires bodyLines != [] && bodyLines[|bodyLines| - 1] != [] && AllClean(bodyLines)
    ensures decode(meta).Success? ==>
      Parsed(Join([Marker, meta, Marker] + ([""] + bodyLines), "\n"), decode)
      == Success((decode(meta).value, TrimSpace(Join([""] + bodyLines, "\n"))))
  {
    var body := [""] + bodyLines;
    OneBlockClean(meta, bodyLines);
    assert [] + [Marker] + [meta] + [Marker] + body == [Marker, meta, Marker] + body;
    ParsedDocument([], [meta], body, decode);
    assert Join([meta], "\n") == meta;
  }

  lemma OneBlockClean(meta: string, bodyLines: seq<string>)
    requires CleanLine(meta)
    requires bodyLines != [] && bodyLines[|bodyLines| - 1] != [] && AllClean(bodyLines)
    ensures var lines := [Marker, meta, Marker] + ([""] + bodyLines);
      lines[|lines| - 1] != [] && AllClean(lines)
  {
    assert AllClean([Marker, meta, Marker]) && AllClean([""]);
    AllCleanAppend([""], bodyLines);
    AllCleanAppend([Marker, meta, Marker], [""] + bodyLines);
  }

  /** Two blocks of lines with an empty line between them, joined by newlines. */
  lemma BlankLineJoin(a: seq<string>, b: seq<string>)
    requires a != [] && b != []
    ensures Join(a + ([""] + b), "\n") == Join(a, "\n") + "\n\n" + Join(b, "\n")
  {
    JoinAppend(a, [""] + b, "\n");
    JoinAppend([""], b, "\n");
  }

  lemma CodeBlockBody(bodyLines: seq<string>)
    requires bodyLines == ["Must not be confused:", "", "```", Marker, "valid: code block",
                           "foo: 2", Marker, "```", "", "Fin"]
    ensures TrimSpace("\n" + Join(bodyLines, "\n")) == Join(bodyLines, "\n")
  {
    var rawBody := Join(bodyLines, "\n");
    JoinAppend(bodyLines[..9], ["Fin"], "\n");
    assert bodyLines == bodyLines[..9] + ["Fin"];
    assert rawBody[0] == 'M' && rawBody[|rawBody| - 1] == 'n';
    TrimSpaceAfterSpaces("\n", rawBody);
  }
}
