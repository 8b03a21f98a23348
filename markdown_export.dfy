/**
 * The text logic of the note exporter: a note is cut into lines on `"\n"`,
 * each line gets a heading level from its `#` prefix, and each
 * (line, level) pair becomes one abstract document paragraph.  Building the
 * docx document from those paragraphs and writing it out are not modelled.
 */
module MarkdownExport {
  import opened Text

  /** The two heading styles the exporter uses. */
  datatype HeadingStyle = Heading1 | Heading2

  /** The paragraph handed to the document library: a text run of plain
      text, or a heading paragraph with its style. */
  datatype Para = Plain(text: string) | Heading(text: string, style: HeadingStyle)

  /** The heading level of a line: 0 for plain text, 1 for a line starting
      with "# ", 2 for any other line starting with "#". */
  function LevelOf(line: string): int
  {
    if StartsWith(line, "#") then (if StartsWith(line, "# ") then 1 else 2) else 0
  }

  /** The level in terms of the line's first two characters: 0 exactly when
      the line does not begin with `#`, 1 exactly when it begins with `#`
      and a space, and 2 for every other line beginning with `#` ("##",
      "###x", "#x", a lone "#"). */
  lemma LevelOfLine(line: string)
    ensures 0 <= LevelOf(line) <= 2
    ensures LevelOf(line) == 0 <==> (line == [] || line[0] != '#')
    ensures LevelOf(line) == 1 <==> (|line| >= 2 && line[0] == '#' && line[1] == ' ')
  {
    assert StartsWith(line, "#") <==> |line| >= 1 && line[0] == '#' by {
      if |line| >= 1 { assert line[..1] == [line[0]]; }
    }
    assert StartsWith(line, "# ") <==> |line| >= 2 && line[0] == '#' && line[1] == ' ' by {
      if |line| >= 2 { assert line[..2] == [line[0], line[1]]; }
    }
  }

  /** The text of a heading: every `#` removed, then trimmed. */
  function HeadingText(line: string): (r: string)
    ensures '#' !in r
    ensures IsTrimmed(r)
    ensures forall x :: x in r ==> x in line
  {
    Trim(RemoveAll(line, '#'))
  }

  /** Cleaning a heading's text a second time changes nothing. */
  lemma HeadingTextIdempotent(line: string)
    ensures HeadingText(HeadingText(line)) == HeadingText(line)
  {
    var t := HeadingText(line);
    RemoveAllAbsent(t, '#');
    TrimFixpoint(t);
  }

  /** `buildParagraph(text, level)`: level 0 is a plain paragraph of the
      trimmed text; any other level is a heading with `#` removed, styled
      HEADING_1 for level 1 and HEADING_2 otherwise. */
  function BuildParagraph(text: string, level: int): (p: Para)
    ensures p.Plain? <==> level == 0
    ensures p.Plain? ==> IsTrimmed(p.text) && p.text == Trim(text)
    ensures p.Heading? ==> '#' !in p.text && IsTrimmed(p.text)
    ensures p.Heading? ==> (p.style == Heading1 <==> level == 1)
  {
    if level == 0 then Plain(Trim(text))
    else Heading(HeadingText(text), if level == 1 then Heading1 else Heading2)
  }

  /** The paragraph the exporter builds for one line. */
  function ParagraphFor(line: string): Para
  {
    BuildParagraph(line, LevelOf(line))
  }

  /** A line becomes a plain paragraph exactly when it does not start with
      `#`; it becomes a first-level heading exactly when it starts with "# ",
      and every other `#` line becomes a second-level heading. */
  lemma ParagraphKind(line: string)
    ensures ParagraphFor(line).Plain? <==> !StartsWith(line, "#")
    ensures ParagraphFor(line) == Heading(HeadingText(line), Heading1) <==> StartsWith(line, "# ")
    ensures (ParagraphFor(line) == Heading(HeadingText(line), Heading2))
      <==> StartsWith(line, "#") && !StartsWith(line, "# ")
  {
    assert StartsWith(line, "#") <==> |line| >= 1 && line[0] == '#' by {
      if |line| >= 1 { assert line[..1] == [line[0]]; }
    }
    assert StartsWith(line, "# ") <==> |line| >= 2 && line[0] == '#' && line[1] == ' ' by {
      if |line| >= 2 { assert line[..2] == [line[0], line[1]]; }
    }
  }

  /** The paragraphs for a sequence of lines, one per line, in order. */
  function ParagraphsOf(lines: seq<string>): (ps: seq<Para>)
    ensures |ps| == |lines|
    ensures forall k :: 0 <= k < |lines| ==> ps[k] == ParagraphFor(lines[k])
  {
    if lines == [] then []
    else ParagraphsOf(lines[..|lines| - 1]) + [ParagraphFor(lines[|lines| - 1])]
  }

  /** No state carries from one line to the next: the paragraphs of two
      stretches of lines are those of each stretch, concatenated. */
  lemma {:induction false} ParagraphsOfAppend(a: seq<string>, b: seq<string>)
    ensures ParagraphsOf(a + b) == ParagraphsOf(a) + ParagraphsOf(b)
  {
    if b == [] {
      assert a + b == a;
    } else {
      ParagraphsOfAppend(a, b[..|b| - 1]);
      assert (a + b)[..|a + b| - 1] == a + b[..|b| - 1];
    }
  }

  /** The loop of `buildDocxFromMarkdown`: one paragraph per `"\n"`-separated
      line of the note, in order, so there is one more paragraph than there
      are newlines. */
  method BuildDocxFromMarkdown(markdown: string) returns (children: seq<Para>)
    ensures |children| == Count(markdown, '\n') + 1
    ensures children == ParagraphsOf(Split(markdown, '\n'))
    ensures markdown == "" ==> children == [Plain("")]
  {
    var lines := Split(markdown, '\n');
    children := [];
    var i := 0;
    while i < |lines|
      invariant 0 <= i <= |lines|
      invariant children == ParagraphsOf(lines[..i])
    {
      var line := lines[i];
      var level := 0;
      if StartsWith(line, "#") {
        level := if StartsWith(line, "# ") then 1 else 2;
      }
      assert level == LevelOf(line);
      assert lines[..i + 1][..i] == lines[..i];
      assert ParagraphsOf(lines[..i + 1]) == ParagraphsOf(lines[..i]) + [ParagraphFor(line)];
      children := children + [BuildParagraph(line, level)];
      i := i + 1;
    }
    assert lines[..i] == lines;
    if markdown == "" {
      EmptyNote();
    }
  }

  /** An empty note gives a single empty plain paragraph. */
  lemma EmptyNote()
    ensures ParagraphsOf(Split("", '\n')) == [Plain("")]
  {
    assert Split("", '\n') == [""];
    assert Trim("") == "";
    assert LevelOf("") == 0;
  }
}
