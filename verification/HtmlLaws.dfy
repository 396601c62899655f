/** How the renderer lays text out: which elements are which, what goes on one line, and the shape of
    tables. */
module HtmlLaws {
  import opened Text
  import opened Html

  // ----- The kinds of elements -----

  /** Without an entry in the heading map, an element's name decides. */
  lemma KindIs(name: string)
    ensures KindOf(name, None) == Ignored <==> name in ["script", "style", "head", "template"]
    ensures KindOf(name, None) == TableKind <==> name == "table"
  {
    hide BLOCKS;
    assert "table" !in HEADINGS && "table" !in SILENT;
  }

  lemma BlockKindIs(name: string)
    ensures KindOf(name, None) == Block <==> name in ["p", "div", "section", "article", "li", "tr", "br", "hr",
      "blockquote", "pre", "ul", "ol", "dl", "dt", "dd"]
  {
    BlocksAre(name);
    if name in BLOCKS {
      BlocksApart(name);
    }
    hide BLOCKS, SILENT, HEADINGS;
  }

  lemma BlocksAre(name: string)
    ensures name in BLOCKS <==> name in ["p", "div", "section", "article", "li", "tr", "br", "hr",
      "blockquote", "pre", "ul", "ol", "dl", "dt", "dd"]
  {
  }

  lemma BlocksApart(name: string)
    requires name in BLOCKS
    ensures name !in SILENT && name !in HEADINGS && name != "table"
  {
  }

  lemma HeadingKindIs(name: string)
    ensures KindOf("h1", None) == Heading(Mark(1, "tag")) && KindOf("h2", None) == Heading(Mark(2, "tag"))
    ensures KindOf("h3", None) == Heading(Mark(3, "tag")) && KindOf("h4", None) == Heading(Mark(4, "tag"))
    ensures KindOf("h5", None) == Heading(Mark(5, "tag")) && KindOf("h6", None) == Heading(Mark(6, "tag"))
    ensures KindOf(name, None).Heading? <==> name in ["h1", "h2", "h3", "h4", "h5", "h6"]
  {
  }

  /** An entry makes any element a heading, silent ones excepted. */
  lemma MappedKindIs(name: string, mark: Mark)
    ensures KindOf(name, Some(mark)) == if name in ["script", "style", "head", "template"] then Ignored else Heading(mark)
  {
  }

  // ----- Text is only ever added -----

  lemma NewLineGrows(text: string)
    ensures text <= AtNewLine(text)
    ensures AtNewLine(text) == "" || EndsWith(AtNewLine(text), '\n')
    ensures text == "" || EndsWith(text, '\n') ==> AtNewLine(text) == text
  {
  }

  lemma {:induction false} RenderedGrows(d: Doc, node: Node)
    ensures d.text <= Rendered(d, node).text
    decreases node, 0
  {
    hide Normalized, TableText, Cells, MaxWidth;
    match node
    case Skipped =>
    case Text(raw) =>
    case Element(name, children, gathered, rows, mapped, anchor) =>
      match KindOf(name, mapped)
      case Ignored =>
      case Heading(mark) =>
      case TableKind => TableGrows(d, rows);
      case Block =>
        NewLineGrows(d.text);
        AllRenderedGrow(d.(text := AtNewLine(d.text)), children);
        NewLineGrows(RenderedAll(d.(text := AtNewLine(d.text)), children).text);
      case Inline => AllRenderedGrow(d, children);
  }

  lemma TableGrows(d: Doc, rows: seq<seq<string>>)
    ensures AtNewLine(d.text) <= WithTable(d, rows).text && d.text <= AtNewLine(d.text)
    ensures WithTable(d, rows).text == "" || EndsWith(WithTable(d, rows).text, '\n')
  {
    hide TableText, Cells, MaxWidth;
    NewLineGrows(d.text);
    NewLineGrows(AtNewLine(d.text) + TableText(Cells(rows)));
  }

  lemma {:induction false} AllRenderedGrow(d: Doc, nodes: seq<Node>)
    ensures d.text <= RenderedAll(d, nodes).text
    decreases nodes, 1
  {
    if nodes != [] {
      RenderedGrows(d, nodes[0]);
      AllRenderedGrow(Rendered(d, nodes[0]), nodes[1..]);
    }
  }

  // ----- Lines -----

  /** Headings, tables and block elements begin on a fresh line and leave one behind. */
  lemma StandsAlone(d: Doc, node: Node)
    requires node.Element?
    requires var kind := KindOf(node.name, node.mapped); kind.Heading? || kind.TableKind? || kind.Block?
    ensures var text := Rendered(d, node).text;
      AtNewLine(d.text) <= text && (text == "" || EndsWith(text, '\n'))
  {
    hide Normalized, TableText, Cells, MaxWidth;
    NewLineGrows(d.text);
    match KindOf(node.name, node.mapped)
    case Heading(mark) =>
    case TableKind => TableGrows(d, node.rows);
    case Block =>
      AllRenderedGrow(d.(text := AtNewLine(d.text)), node.children);
      NewLineGrows(RenderedAll(d.(text := AtNewLine(d.text)), node.children).text);
  }

  /** Text and inline elements only. */
  predicate IsInline(node: Node)
    decreases node
  {
    match node
    case Skipped => true
    case Text(_) => true
    case Element(name, children, _, _, mapped, _) =>
      KindOf(name, mapped) == Inline && forall i :: 0 <= i < |children| ==> IsInline(children[i])
  }

  predicate NoNewLine(s: string) { forall i :: 0 <= i < |s| ==> s[i] != '\n' }

  /** What inline content adds stays on its line. */
  ghost predicate AddsToLine(before: string, text: string) {
    before <= text && NoNewLine(text[|before|..])
  }

  lemma AddsTwice(a: string, b: string, c: string)
    requires AddsToLine(a, b) && AddsToLine(b, c)
    ensures AddsToLine(a, c)
  {
    assert c[|a|..] == b[|a|..] + c[|b|..];
  }

  lemma TextStays(d: Doc, raw: string)
    ensures AddsToLine(d.text, WithText(d, raw).text)
  {
    NormalizedIsLine(raw);
    assert IsSpace('\n');
    hide Normalized;
    var t := Normalized(raw);
    if t != "" {
      var text := WithText(d, raw).text;
      assert text == d.text + t || text == d.text + " " + t;
      assert text[|d.text|..] == t || text[|d.text|..] == " " + t;
    }
  }

  lemma {:induction false} InlineStays(d: Doc, node: Node)
    requires IsInline(node)
    ensures AddsToLine(d.text, Rendered(d, node).text)
    decreases node, 0
  {
    hide WithText, WithHeading, WithTable;
    match node
    case Skipped =>
    case Text(raw) => TextStays(d, raw);
    case Element(_, children, _, _, _, _) => AllInlineStay(d, children);
  }

  lemma {:induction false} AllInlineStay(d: Doc, nodes: seq<Node>)
    requires forall i :: 0 <= i < |nodes| ==> IsInline(nodes[i])
    ensures AddsToLine(d.text, RenderedAll(d, nodes).text)
    decreases nodes, 1
  {
    if nodes != [] {
      InlineStays(d, nodes[0]);
      AllInlineStay(Rendered(d, nodes[0]), nodes[1..]);
      AddsTwice(d.text, Rendered(d, nodes[0]).text, RenderedAll(d, nodes).text);
    }
  }

  // ----- Tables -----

  function RowTexts(cells: seq<seq<string>>): seq<string> {
    if cells == [] then [] else [Join(cells[0], " | ")] + RowTexts(cells[1..])
  }

  /** Rows are lines, cells are parted by bars. */
  lemma {:induction false} TableTextIs(cells: seq<seq<string>>)
    ensures TableText(cells) == Join(RowTexts(cells), "\n")
  {
    if |cells| > 1 {
      TableTextIs(cells[1..]);
      assert RowTexts(cells)[1..] == RowTexts(cells[1..]);
    } else if |cells| == 1 {
      assert cells[1..] == [];
    }
  }

  lemma {:induction false} WidthIs(cells: seq<seq<string>>)
    ensures forall row :: row in cells ==> |row| <= MaxWidth(cells)
    ensures cells != [] ==> exists row :: row in cells && |row| == MaxWidth(cells)
    ensures cells == [] ==> MaxWidth(cells) == 0
  {
    if cells != [] {
      WidthIs(cells[1..]);
      assert cells == [cells[0]] + cells[1..];
      if MaxWidth(cells) == |cells[0]| {
        assert cells[0] in cells;
      }
    }
  }

  /** As many rows as the matrix has, as many columns as its widest row. */
  ghost predicate Shaped(t: Table) {
    && t.nRows == |t.cells|
    && (forall row :: row in t.cells ==> |row| <= t.nCols)
    && (if t.cells == [] then t.nCols == 0 else exists row :: row in t.cells && |row| == t.nCols)
  }

  ghost predicate AllShaped(d: Doc) { forall t :: t in d.tables ==> Shaped(t) }

  lemma TableIsShaped(d: Doc, rows: seq<seq<string>>)
    requires AllShaped(d)
    ensures AllShaped(WithTable(d, rows))
  {
    WidthIs(Cells(rows));
    hide TableText, Cells, MaxWidth, AtNewLine;
    var after := WithTable(d, rows);
    var t := after.tables[|d.tables|];
    assert Shaped(t) && after.tables == d.tables + [t];
  }

  lemma {:induction false} RenderedIsShaped(d: Doc, node: Node)
    requires AllShaped(d)
    ensures AllShaped(Rendered(d, node))
    decreases node, 0
  {
    hide Shaped, WithTable;
    match node
    case Skipped =>
    case Text(raw) => TextRecordsNothing(d, raw);
    case Element(name, children, gathered, rows, mapped, anchor) =>
      match KindOf(name, mapped)
      case Ignored =>
      case Heading(mark) =>
      case TableKind => TableIsShaped(d, rows);
      case Block => AllRenderedAreShaped(d.(text := AtNewLine(d.text)), children);
      case Inline => AllRenderedAreShaped(d, children);
  }

  /** The shape of every table of any tree. */
  lemma {:induction false} AllRenderedAreShaped(d: Doc, nodes: seq<Node>)
    requires AllShaped(d)
    ensures AllShaped(RenderedAll(d, nodes))
    decreases nodes, 1
  {
    if nodes != [] {
      RenderedIsShaped(d, nodes[0]);
      AllRenderedAreShaped(Rendered(d, nodes[0]), nodes[1..]);
    }
  }

  // ----- Exactly one white-space character between words -----

  predicate Gapless(text: string) {
    && (text != "" ==> !IsSpace(text[0]))
    && forall i :: 0 < i < |text| && IsSpace(text[i]) ==> !IsSpace(text[i - 1])
  }

  /** Between two nodes the text ends in a word or in a newline. */
  predicate Settled(text: string) { Gapless(text) && !EndsWith(text, ' ') && forall i :: 0 <= i < |text| && IsSpace(text[i]) ==> text[i] in " \n" }

  predicate NoTables(node: Node)
    decreases node
  {
    match node
    case Skipped => true
    case Text(_) => true
    case Element(name, children, _, _, mapped, _) =>
      KindOf(name, mapped) != TableKind && forall i :: 0 <= i < |children| ==> NoTables(children[i])
  }

  lemma LineIsGapless(s: string, words: seq<string>)
    requires s == Join(words, " ") && forall w :: w in words ==> IsWord(w)
    ensures Gapless(s)
    decreases |words|
  {
    if |words| > 1 {
      var rest := Join(words[1..], " ");
      LineIsGapless(rest, words[1..]);
      assert words[0] in words && words[1] in words;
      StartsWithWord(words[1..]);
      assert s == words[0] + " " + rest && s[|words[0]| + 1] == rest[0];
      forall i | 0 < i < |s| && IsSpace(s[i])
        ensures !IsSpace(s[i - 1])
      {
        if i > |words[0]| + 1 {
          assert s[i] == rest[i - |words[0]| - 1] && s[i - 1] == rest[i - |words[0]| - 2];
        }
      }
    } else if |words| == 1 {
      assert words[0] in words;
    }
  }

  lemma StartsWithWord(words: seq<string>)
    requires words != [] && forall w :: w in words ==> IsWord(w)
    ensures Join(words, " ") != "" && !IsSpace(Join(words, " ")[0])
  {
    assert words[0] in words;
  }

  lemma NormalizedIsGapless(raw: string)
    ensures Gapless(Normalized(raw))
    ensures Normalized(raw) != "" ==> IsLine(Normalized(raw))
  {
    WordsAreWords(raw);
    LineIsGapless(Normalized(raw), Words(raw));
    NormalizedIsLine(raw);
  }

  lemma JoinsAtOnce(text: string, more: string)
    requires Settled(text) && Gapless(more) && IsLine(more) && (text == "" || EndsWith(text, '\n'))
    ensures Settled(text + more)
  {
    var all, n := text + more, |text|;
    assert IsSpace(' ') && IsSpace('\n');
    hide IsSpace;
    forall i | 0 < i < |all| && IsSpace(all[i])
      ensures !IsSpace(all[i - 1])
    {
      if i < n {
        assert all[i] == text[i] && all[i - 1] == text[i - 1];
      } else if i > n {
        assert all[i] == more[i - n] && all[i - 1] == more[i - 1 - n];
      }
    }
    SpacesOfBoth(text, more);
  }

  lemma SpacesOfBoth(text: string, more: string)
    requires forall i :: 0 <= i < |text| && IsSpace(text[i]) ==> text[i] in " \n"
    requires forall i :: 0 <= i < |more| && IsSpace(more[i]) ==> more[i] in " \n"
    ensures forall i :: 0 <= i < |text + more| && IsSpace((text + more)[i]) ==> (text + more)[i] in " \n"
  {
    hide IsSpace;
  }

  lemma JoinsSpaced(text: string, more: string)
    requires Settled(text) && Gapless(more) && IsLine(more) && text != "" && !IsSpace(text[|text| - 1])
    ensures Settled(text + " " + more)
  {
    var all, n := text + " " + more, |text|;
    assert IsSpace(' ') && IsSpace('\n') && all[n + 1] == more[0];
    hide IsSpace;
    forall i | 0 < i < |all| && IsSpace(all[i])
      ensures !IsSpace(all[i - 1])
    {
      if i < n {
        assert all[i] == text[i] && all[i - 1] == text[i - 1];
      } else if i == n {
        assert all[i - 1] == text[n - 1];
      } else if i > n + 1 {
        assert all[i] == more[i - n - 1] && all[i - 1] == more[i - 2 - n];
      }
    }
    SpacesOfBoth(text, " ");
    SpacesOfBoth(text + " ", more);
  }

  lemma TextSettles(d: Doc, raw: string)
    requires Settled(d.text)
    ensures Settled(WithText(d, raw).text)
  {
    NormalizedIsGapless(raw);
    var t := Normalized(raw);
    if t != "" {
      LastOfSettled(d.text);
      hide Normalized, Settled, Gapless, IsLine, IsSpace;
      if d.text == "" || EndsWith(d.text, '\n') {
        JoinsAtOnce(d.text, t);
      } else {
        JoinsSpaced(d.text, t);
      }
    }
  }

  lemma LastOfSettled(text: string)
    requires Settled(text)
    ensures text == "" || EndsWith(text, '\n') || !IsSpace(text[|text| - 1])
    ensures !EndsWith(text, ' ')
  {
  }

  lemma NewLineSettles(text: string)
    requires Settled(text)
    ensures Settled(AtNewLine(text))
  {
    assert IsSpace('\n') && !EndsWith(text, ' ');
    LastOfSettled(text);
    hide IsSpace;
  }

  lemma HeadingSettles(d: Doc, mark: Mark, gathered: string, anchor: Option<string>)
    requires Settled(d.text)
    ensures Settled(WithHeading(d, mark, gathered, anchor).text)
  {
    NormalizedIsGapless(gathered);
    NewLineSettles(d.text);
    NewLineGrows(d.text);
    var text, heading := AtNewLine(d.text), Normalized(gathered);
    hide Normalized, Settled, Gapless, IsLine;
    if heading != "" {
      JoinsAtOnce(text, heading);
      NewLineSettles(text + heading);
      LineEnds(text, heading);
    }
  }

  lemma LineEnds(text: string, line: string)
    requires IsLine(line)
    ensures AtNewLine(text + line) == text + line + "\n"
  {
    assert IsSpace('\n');
  }

  lemma {:induction false} RenderedSettles(d: Doc, node: Node)
    requires Settled(d.text) && NoTables(node)
    ensures Settled(Rendered(d, node).text)
    decreases node, 0
  {
    hide Settled, WithText, WithHeading, WithTable, AtNewLine;
    match node
    case Skipped =>
    case Text(raw) => TextSettles(d, raw);
    case Element(name, children, gathered, rows, mapped, anchor) =>
      match KindOf(name, mapped)
      case Ignored =>
      case Heading(mark) => HeadingSettles(d, mark, gathered, anchor);
      case TableKind => assert false;
      case Block =>
        NewLineSettles(d.text);
        AllRenderedSettle(d.(text := AtNewLine(d.text)), children);
        NewLineSettles(RenderedAll(d.(text := AtNewLine(d.text)), children).text);
      case Inline => AllRenderedSettle(d, children);
  }

  /** The text of a tree without tables has exactly one white-space character between any two words,
      a space or a newline, and none before the first. */
  lemma {:induction false} AllRenderedSettle(d: Doc, nodes: seq<Node>)
    requires Settled(d.text) && forall i :: 0 <= i < |nodes| ==> NoTables(nodes[i])
    ensures Settled(RenderedAll(d, nodes).text)
    decreases nodes, 1
  {
    if nodes != [] {
      RenderedSettles(d, nodes[0]);
      AllRenderedSettle(Rendered(d, nodes[0]), nodes[1..]);
    }
  }
}
