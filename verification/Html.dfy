/** The structured HTML renderer: one walk over the tree writes normalized text and records where
    every heading and table begins in it. */
module Html {
  import opened Text

  // ----- Words -----

  /** Length of the word `s` begins with. */
  function WordLength(s: string): (n: nat)
    ensures n <= |s| && (forall i :: 0 <= i < n ==> !IsSpace(s[i])) && (n < |s| ==> IsSpace(s[n]))
    ensures s != "" && !IsSpace(s[0]) ==> n > 0
  {
    if s == "" || IsSpace(s[0]) then 0 else 1 + WordLength(s[1..])
  }

  /** `s.split()`. */
  function Words(s: string): seq<string>
    decreases |s|
  {
    if s == "" then []
    else if IsSpace(s[0]) then Words(s[1..])
    else
      var n := WordLength(s);
      [s[..n]] + Words(s[n..])
  }

  /** `" ".join(s.split())`. */
  function Normalized(s: string): string { Join(Words(s), " ") }

  predicate IsWord(w: string) { w != "" && forall i :: 0 <= i < |w| ==> !IsSpace(w[i]) }

  /** Text on one line that neither begins nor ends with white space. */
  predicate IsLine(s: string) {
    && s != "" && !IsSpace(s[0]) && !IsSpace(s[|s| - 1])
    && forall i :: 0 <= i < |s| && IsSpace(s[i]) ==> s[i] == ' '
  }

  lemma {:induction false} WordsAreWords(s: string)
    ensures forall w :: w in Words(s) ==> IsWord(w)
    decreases |s|
  {
    hide IsSpace;
    if s == "" {
    } else if IsSpace(s[0]) {
      WordsAreWords(s[1..]);
    } else {
      WordsAreWords(s[WordLength(s)..]);
    }
  }

  lemma {:induction false} JoinedWordsAreLine(words: seq<string>)
    requires words != [] && forall w :: w in words ==> IsWord(w)
    ensures IsLine(Join(words, " "))
  {
    hide IsSpace;
    assert IsWord(words[0]);
    if |words| > 1 {
      JoinedWordsAreLine(words[1..]);
    }
  }

  lemma NormalizedIsLine(s: string)
    ensures if Words(s) == [] then Normalized(s) == "" else IsLine(Normalized(s))
  {
    WordsAreWords(s);
    if Words(s) != [] {
      JoinedWordsAreLine(Words(s));
    }
  }

  lemma WordLengthIs(s: string, n: nat)
    requires n <= |s| && (forall i :: 0 <= i < n ==> !IsSpace(s[i])) && (n < |s| ==> IsSpace(s[n]))
    ensures WordLength(s) == n
  {
    hide IsSpace, WordLength;
  }

  lemma WordsUnfold(s: string)
    ensures Words("") == []
    ensures s != "" ==> Words(s) == if IsSpace(s[0]) then Words(s[1..]) else [s[..WordLength(s)]] + Words(s[WordLength(s)..])
  {
    hide IsSpace, WordLength;
  }

  /** White space on either side of the seam keeps words apart. */
  lemma {:induction false} WordsAppend(a: string, b: string)
    requires a == "" || b == "" || IsSpace(a[|a| - 1]) || IsSpace(b[0])
    ensures Words(a + b) == Words(a) + Words(b)
    decreases |a|
  {
    hide *;
    WordsUnfold(a);
    WordsUnfold(a + b);
    if a == "" {
      assert a + b == b;
    } else if IsSpace(a[0]) {
      assert (a + b)[1..] == a[1..] + b;
      WordsAppend(a[1..], b);
    } else {
      var n := WordLength(a);
      assert forall i :: 0 <= i < n ==> (a + b)[i] == a[i];
      WordLengthIs(a + b, n);
      assert (a + b)[..n] == a[..n] && (a + b)[n..] == a[n..] + b;
      WordsAppend(a[n..], b);
    }
  }

  lemma WordIsItsWords(w: string)
    requires IsWord(w)
    ensures Words(w) == [w]
  {
    WordLengthIs(w, |w|);
    assert w[..|w|] == w && w[|w|..] == "";
  }

  lemma {:induction false} JoinedWords(words: seq<string>)
    requires forall w :: w in words ==> IsWord(w)
    ensures Words(Join(words, " ")) == words
  {
    if words != [] {
      WordIsItsWords(words[0]);
      if |words| > 1 {
        var rest := Join(words[1..], " ");
        JoinedWords(words[1..]);
        WordsAppend(words[0] + " ", rest);
        WordsAppend(words[0], " ");
        assert Words(" ") == [];
        assert words == [words[0]] + words[1..];
      }
    }
  }

  /** Normalizing keeps the words. */
  lemma NormalizedKeepsWords(s: string)
    ensures Words(Normalized(s)) == Words(s)
  {
    WordsAreWords(s);
    JoinedWords(Words(s));
  }

  // ----- The tree and the document -----

  datatype Mark = Mark(level: nat, source: string)

  /** What the parser hands over: `gathered` is the element's `get_text(" ", strip=True)`, `rows`
      the same for every cell of every row below it, `mapped` its entry in the heading map. */
  datatype Node =
    | Skipped
    | Text(raw: string)
    | Element(name: string, children: seq<Node>, gathered: string, rows: seq<seq<string>>,
        mapped: Option<Mark>, anchor: Option<string>)

  datatype Section = Section(level: nat, heading: string, charStart: nat, source: string, anchor: Option<string>)

  datatype Table = Table(index: nat, charStart: nat, nRows: nat, nCols: nat, cells: seq<seq<string>>)

  datatype Doc = Doc(text: string, sections: seq<Section>, tables: seq<Table>)

  datatype Kind = Ignored | Heading(mark: Mark) | TableKind | Block | Inline

  const SILENT: set<string> := {"script", "style", "head", "template"}
  const HEADINGS: map<string, nat> := map["h1" := 1, "h2" := 2, "h3" := 3, "h4" := 4, "h5" := 5, "h6" := 6]
  const BLOCKS: set<string> := {"p", "div", "section", "article", "li", "tr", "br", "hr",
    "blockquote", "pre", "ul", "ol", "dl", "dt", "dd"}

  /** How the walk treats an element: the first test that applies decides. */
  function KindOf(name: string, mapped: Option<Mark>): Kind {
    if name in SILENT then Ignored
    else if mapped.Some? then Heading(mapped.value)
    else if name in HEADINGS then Heading(Mark(HEADINGS[name], "tag"))
    else if name == "table" then TableKind
    else if name in BLOCKS then Block
    else Inline
  }

  predicate AnyCell(row: seq<string>) { exists cell :: cell in row && cell != "" }

  function NormalizedRow(row: seq<string>): (cells: seq<string>)
    ensures |cells| == |row| && forall i :: 0 <= i < |row| ==> cells[i] == Normalized(row[i])
  {
    if row == [] then [] else [Normalized(row[0])] + NormalizedRow(row[1..])
  }

  /** The cell matrix: normalized texts, without the rows that hold none. */
  function Cells(rows: seq<seq<string>>): seq<seq<string>> {
    if rows == [] then []
    else
      var row := NormalizedRow(rows[0]);
      (if AnyCell(row) then [row] else []) + Cells(rows[1..])
  }

  function MaxWidth(cells: seq<seq<string>>): nat {
    if cells == [] then 0
    else if |cells[0]| > MaxWidth(cells[1..]) then |cells[0]| else MaxWidth(cells[1..])
  }

  function TableText(cells: seq<seq<string>>): string {
    if cells == [] then ""
    else if |cells| == 1 then Join(cells[0], " | ")
    else Join(cells[0], " | ") + "\n" + TableText(cells[1..])
  }

  predicate EndsWith(s: string, c: char) { s != "" && s[|s| - 1] == c }

  function AtNewLine(text: string): string {
    if text == "" || EndsWith(text, '\n') then text else text + "\n"
  }

  function Spaced(text: string): string {
    if text == "" || EndsWith(text, '\n') || EndsWith(text, ' ') then text else text + " "
  }

  function WithText(d: Doc, raw: string): Doc {
    var t := Normalized(raw);
    if t == "" then d else d.(text := Spaced(d.text) + t)
  }

  function WithHeading(d: Doc, mark: Mark, gathered: string, anchor: Option<string>): Doc {
    var text, heading := AtNewLine(d.text), Normalized(gathered);
    if heading == "" then d.(text := text)
    else
      Doc(text + heading + "\n", d.sections + [Section(mark.level, heading, |text|, mark.source, anchor)], d.tables)
  }

  function WithTable(d: Doc, rows: seq<seq<string>>): Doc {
    var text, cells := AtNewLine(d.text), Cells(rows);
    Doc(AtNewLine(text + TableText(cells)), d.sections,
      d.tables + [Table(|d.tables|, |text|, |cells|, MaxWidth(cells), cells)])
  }

  /** The document after walking one node. */
  function Rendered(d: Doc, node: Node): Doc
    decreases node, 0
  {
    match node
    case Skipped => d
    case Text(raw) => WithText(d, raw)
    case Element(name, children, gathered, rows, mapped, anchor) =>
      match KindOf(name, mapped)
      case Ignored => d
      case Heading(mark) => WithHeading(d, mark, gathered, anchor)
      case TableKind => WithTable(d, rows)
      case Block =>
        var inner := RenderedAll(d.(text := AtNewLine(d.text)), children);
        inner.(text := AtNewLine(inner.text))
      case Inline => RenderedAll(d, children)
  }

  function RenderedAll(d: Doc, nodes: seq<Node>): Doc
    decreases nodes, 1
  {
    if nodes == [] then d else RenderedAll(Rendered(d, nodes[0]), nodes[1..])
  }

  /** `rstrip("\n")`. */
  function StripNewLines(s: string): string {
    if EndsWith(s, '\n') then StripNewLines(s[..|s| - 1]) else s
  }

  // ----- Every offset keeps pointing at its text -----

  predicate OnOneLine(s: string) { s != "" && forall i :: 0 <= i < |s| ==> s[i] != '\n' }

  /** No two newlines meet, and the text does not begin with one. */
  predicate NoBlankLine(text: string) {
    && (text != "" ==> text[0] != '\n')
    && forall i :: 0 < i < |text| && text[i] == '\n' ==> text[i - 1] != '\n'
  }

  predicate AtLineStart(text: string, start: nat) {
    start <= |text| && (start > 0 ==> text[start - 1] == '\n')
  }

  /** `part` stands at `start`, on lines of its own. */
  predicate OwnLines(text: string, start: nat, part: string) {
    && AtLineStart(text, start)
    && start + |part| <= |text| && text[start..start + |part|] == part
    && (start + |part| < |text| ==> text[start + |part|] == '\n')
  }

  ghost predicate SectionsIndex(text: string, sections: seq<Section>) {
    && (forall s :: s in sections ==> OwnLines(text, s.charStart, s.heading) && IsLine(s.heading))
    && (forall i, j :: 0 <= i < j < |sections| ==> sections[i].charStart < sections[j].charStart)
  }

  ghost predicate TablesIndex(text: string, tables: seq<Table>) {
    && (forall i :: 0 <= i < |tables| ==> tables[i].index == i)
    && (forall t :: t in tables && t.cells != [] ==> OwnLines(text, t.charStart, TableText(t.cells)))
  }

  /** What the walk keeps: besides, everything recorded so far is already followed by a newline. */
  ghost predicate Sound(d: Doc) {
    && NoBlankLine(d.text) && SectionsIndex(d.text, d.sections) && TablesIndex(d.text, d.tables)
    && (forall s :: s in d.sections ==> s.charStart + |s.heading| < |d.text|)
    && (forall t :: t in d.tables && t.cells != [] ==> t.charStart + |TableText(t.cells)| < |d.text|)
  }

  lemma OwnLinesExtend(text: string, more: string, start: nat, part: string)
    requires OwnLines(text, start, part) && start + |part| < |text|
    ensures OwnLines(text + more, start, part)
  {
    assert (text + more)[start..start + |part|] == text[start..start + |part|];
  }

  lemma SoundExtends(d: Doc, more: string)
    requires Sound(d) && NoBlankLine(d.text + more)
    ensures Sound(d.(text := d.text + more))
  {
    hide OwnLines, NoBlankLine, TableText, IsLine;
    forall s | s in d.sections
      ensures OwnLines(d.text + more, s.charStart, s.heading)
    {
      OwnLinesExtend(d.text, more, s.charStart, s.heading);
    }
    forall t | t in d.tables && t.cells != []
      ensures OwnLines(d.text + more, t.charStart, TableText(t.cells))
    {
      OwnLinesExtend(d.text, more, t.charStart, TableText(t.cells));
    }
  }

  lemma NewLineKeepsSound(d: Doc)
    requires Sound(d)
    ensures Sound(d.(text := AtNewLine(d.text)))
  {
    if d.text != "" && !EndsWith(d.text, '\n') {
      SoundExtends(d, "\n");
    } else {
      assert d.(text := AtNewLine(d.text)) == d;
    }
  }

  lemma LineIsOnOneLine(line: string)
    requires IsLine(line)
    ensures OnOneLine(line) && NoBlankLine(line)
  {
    assert IsSpace('\n');
  }

  lemma TextKeepsSound(d: Doc, raw: string)
    requires Sound(d)
    ensures Sound(WithText(d, raw))
  {
    NormalizedIsLine(raw);
    var t := Normalized(raw);
    if t != "" {
      LineIsOnOneLine(t);
      assert NoBlankLine(d.text);
      hide IsLine, Normalized, Sound;
      var more := if Spaced(d.text) == d.text then t else " " + t;
      assert Spaced(d.text) + t == d.text + more;
      SoundExtends(d, more);
    }
  }

  lemma {:induction false} RowIsOnOneLine(row: seq<string>)
    requires AnyCell(row) && forall cell :: cell in row ==> cell == "" || OnOneLine(cell)
    ensures OnOneLine(Join(row, " | "))
  {
    if |row| > 1 {
      var rest := Join(row[1..], " | ");
      if AnyCell(row[1..]) {
        RowIsOnOneLine(row[1..]);
      } else {
        NoCellNoNewLine(row[1..]);
      }
      var s := row[0] + " | " + rest;
      forall i | 0 <= i < |s|
        ensures s[i] != '\n'
      {
        assert row[0] in row;
        assert i >= |row[0]| + 3 ==> s[i] == rest[i - |row[0]| - 3];
      }
    }
  }

  lemma {:induction false} NoCellNoNewLine(row: seq<string>)
    requires !AnyCell(row)
    ensures forall i :: 0 <= i < |Join(row, " | ")| ==> Join(row, " | ")[i] != '\n'
  {
    if row != [] {
      assert row[0] in row && row[0] == "";
      if |row| > 1 {
        assert forall cell :: cell in row[1..] ==> cell in row;
        NoCellNoNewLine(row[1..]);
      }
    }
  }

  /** A rendered cell matrix: non-empty lines parted by single newlines. */
  predicate Matrix(text: string) {
    text != "" && NoBlankLine(text) && !EndsWith(text, '\n')
  }

  predicate RowsHaveText(cells: seq<seq<string>>) {
    forall row :: row in cells ==> OnOneLine(Join(row, " | "))
  }

  lemma {:induction false} CellsHaveText(rows: seq<seq<string>>)
    ensures RowsHaveText(Cells(rows))
  {
    hide OnOneLine, IsLine, Normalized;
    if rows != [] {
      CellsHaveText(rows[1..]);
      var row := NormalizedRow(rows[0]);
      if AnyCell(row) {
        forall cell | cell in row
          ensures cell == "" || OnOneLine(cell)
        {
          var i :| 0 <= i < |row| && row[i] == cell;
          NormalizedIsLine(rows[0][i]);
          if cell != "" {
            LineIsOnOneLine(cell);
          }
        }
        RowIsOnOneLine(row);
      }
    }
  }

  lemma {:induction false} TableTextIsMatrix(cells: seq<seq<string>>)
    requires cells != [] && RowsHaveText(cells)
    ensures Matrix(TableText(cells))
  {
    hide Join;
    var line := Join(cells[0], " | ");
    assert cells[0] in cells;
    if |cells| > 1 {
      TableTextIsMatrix(cells[1..]);
      var rest := TableText(cells[1..]);
    }
  }

  /** A piece written on fresh lines and closed by a newline. */
  lemma PieceKeepsSound(d: Doc, piece: string)
    requires Sound(d) && (d.text == "" || EndsWith(d.text, '\n')) && Matrix(piece)
    ensures Sound(d.(text := d.text + piece + "\n"))
    ensures OwnLines(d.text + piece + "\n", |d.text|, piece)
  {
    var more := piece + "\n";
    assert d.text + more == d.text + piece + "\n";
    forall i | 0 < i < |d.text + more| && (d.text + more)[i] == '\n'
      ensures (d.text + more)[i - 1] != '\n'
    {
      if i >= |d.text| {
        assert (d.text + more)[i] == more[i - |d.text|];
        if i > |d.text| {
          assert (d.text + more)[i - 1] == piece[i - |d.text| - 1];
        }
      }
    }
    SoundExtends(d, more);
  }

  lemma OneMore<T>(xs: seq<T>, x: T)
    ensures forall y :: y in xs + [x] <==> y in xs || y == x
  {
  }

  lemma OneMoreSection(d: Doc, x: Section)
    requires Sound(d) && OwnLines(d.text, x.charStart, x.heading) && IsLine(x.heading)
    requires x.charStart + |x.heading| < |d.text| && forall y :: y in d.sections ==> y.charStart < x.charStart
    ensures Sound(d.(sections := d.sections + [x]))
  {
    hide OwnLines, NoBlankLine, TableText, IsLine;
    OneMore(d.sections, x);
  }

  lemma HeadingKeepsSound(d: Doc, mark: Mark, gathered: string, anchor: Option<string>)
    requires Sound(d)
    ensures Sound(WithHeading(d, mark, gathered, anchor))
  {
    var heading, text := Normalized(gathered), AtNewLine(d.text);
    NewLineKeepsSound(d);
    NormalizedIsLine(gathered);
    if heading != "" {
      LineIsOnOneLine(heading);
      PieceKeepsSound(d.(text := text), heading);
      SectionsBefore(d, text);
      hide Sound, OwnLines, IsLine, Normalized;
      OneMoreSection(d.(text := text + heading + "\n"), Section(mark.level, heading, |text|, mark.source, anchor));
    }
  }

  lemma SectionsBefore(d: Doc, text: string)
    requires Sound(d) && |d.text| <= |text|
    ensures forall y :: y in d.sections ==> y.charStart < |text|
  {
  }

  /** The text a table ends up in: its rows on lines of their own, when it has any. */
  lemma TableTextKeepsSound(d: Doc, cells: seq<seq<string>>)
    requires Sound(d) && (d.text == "" || EndsWith(d.text, '\n')) && (cells != [] ==> RowsHaveText(cells))
    ensures var text := AtNewLine(d.text + TableText(cells));
      Sound(d.(text := text))
      && (cells != [] ==> OwnLines(text, |d.text|, TableText(cells)) && |d.text| + |TableText(cells)| < |text|)
  {
    hide Sound, OwnLines, TableText;
    if cells == [] {
      NoTableText();
      assert d.text + "" == d.text;
      assert d.(text := AtNewLine(d.text)) == d;
    } else {
      TableTextIsMatrix(cells);
      PieceKeepsSound(d, TableText(cells));
      var text := d.text + TableText(cells);
      assert AtNewLine(text) == text + "\n";
    }
  }

  lemma NoTableText()
    ensures TableText([]) == ""
  {
  }

  lemma OneMoreTable(d: Doc, t: Table)
    requires Sound(d) && t.index == |d.tables|
    requires t.cells != [] ==> OwnLines(d.text, t.charStart, TableText(t.cells)) && t.charStart + |TableText(t.cells)| < |d.text|
    ensures Sound(d.(tables := d.tables + [t]))
  {
    hide OwnLines, NoBlankLine, TableText, IsLine;
    OneMore(d.tables, t);
  }

  lemma TableKeepsSound(d: Doc, rows: seq<seq<string>>)
    requires Sound(d)
    ensures Sound(WithTable(d, rows))
  {
    hide Sound, OwnLines, TableText, MaxWidth, Cells;
    var cells, text := Cells(rows), AtNewLine(d.text);
    NewLineKeepsSound(d);
    CellsHaveText(rows);
    TableTextKeepsSound(d.(text := text), cells);
    OneMoreTable(d.(text := AtNewLine(text + TableText(cells))), Table(|d.tables|, |text|, |cells|, MaxWidth(cells), cells));
  }

  lemma {:induction false} RenderedIsSound(d: Doc, node: Node)
    requires Sound(d)
    ensures Sound(Rendered(d, node))
    decreases node, 0
  {
    hide Sound, AtNewLine, WithText, WithHeading, WithTable;
    match node
    case Skipped =>
    case Text(raw) => TextKeepsSound(d, raw);
    case Element(name, children, gathered, rows, mapped, anchor) =>
      match KindOf(name, mapped)
      case Ignored =>
      case Heading(mark) => HeadingKeepsSound(d, mark, gathered, anchor);
      case TableKind => TableKeepsSound(d, rows);
      case Block =>
        NewLineKeepsSound(d);
        AllRenderedIsSound(d.(text := AtNewLine(d.text)), children);
        NewLineKeepsSound(RenderedAll(d.(text := AtNewLine(d.text)), children));
      case Inline => AllRenderedIsSound(d, children);
  }

  lemma {:induction false} AllRenderedIsSound(d: Doc, nodes: seq<Node>)
    requires Sound(d)
    ensures Sound(RenderedAll(d, nodes))
    decreases nodes, 1
  {
    if nodes != [] {
      RenderedIsSound(d, nodes[0]);
      AllRenderedIsSound(Rendered(d, nodes[0]), nodes[1..]);
    }
  }

  lemma {:induction false} AtMostOneToStrip(text: string)
    requires NoBlankLine(text)
    ensures StripNewLines(text) == if EndsWith(text, '\n') then text[..|text| - 1] else text
  {
    if EndsWith(text, '\n') {
      var rest := text[..|text| - 1];
      assert !EndsWith(rest, '\n');
    }
  }

  lemma OwnLinesSurviveStrip(text: string, start: nat, part: string)
    requires NoBlankLine(text) && OwnLines(text, start, part) && start + |part| < |text|
    ensures OwnLines(StripNewLines(text), start, part)
  {
    AtMostOneToStrip(text);
    var stripped := StripNewLines(text);
    assert stripped[start..start + |part|] == text[start..start + |part|];
    if |stripped| < start {
      assert false;
    }
  }

  /** For any tree: the stripped text sliced at a section's offset is its heading, on a line of its
      own; at a non-empty table's offset it is the rendered rows; section offsets strictly
      increase; no line is blank and the text does not end in a newline. */
  lemma OffsetsIndexText(nodes: seq<Node>)
    ensures var d := RenderedAll(Doc("", [], []), nodes);
      var text := StripNewLines(d.text);
      && SectionsIndex(text, d.sections) && TablesIndex(text, d.tables)
      && NoBlankLine(text) && !EndsWith(text, '\n')
  {
    var start, d := Doc("", [], []), RenderedAll(Doc("", [], []), nodes);
    assert Sound(start);
    AllRenderedIsSound(start, nodes);
    AtMostOneToStrip(d.text);
    hide OwnLines, RenderedAll, TableText, IsLine;
    forall s | s in d.sections
      ensures OwnLines(StripNewLines(d.text), s.charStart, s.heading)
    {
      OwnLinesSurviveStrip(d.text, s.charStart, s.heading);
    }
    forall t | t in d.tables && t.cells != []
      ensures OwnLines(StripNewLines(d.text), t.charStart, TableText(t.cells))
    {
      OwnLinesSurviveStrip(d.text, t.charStart, TableText(t.cells));
    }
  }

  // ----- Nothing is lost, repeated or reordered -----

  datatype Entry = Entry(mark: Mark, heading: string, anchor: Option<string>)

  /** What a tree holds, in document order: headings, cell matrices, and every word. */
  datatype Contents = Contents(headings: seq<Entry>, matrices: seq<seq<seq<string>>>, words: seq<string>) {
    function Then(more: Contents): Contents {
      Contents(headings + more.headings, matrices + more.matrices, words + more.words)
    }
  }

  function RowWords(row: seq<string>): seq<string> {
    if row == [] then []
    else if |row| == 1 then Words(row[0])
    else Words(row[0]) + ["|"] + RowWords(row[1..])
  }

  predicate HasWords(row: seq<string>) { exists cell :: cell in row && Words(cell) != [] }

  function TableWords(rows: seq<seq<string>>): seq<string> {
    if rows == [] then []
    else (if HasWords(rows[0]) then RowWords(rows[0]) else []) + TableWords(rows[1..])
  }

  function ContentsOf(node: Node): Contents
    decreases node, 0
  {
    match node
    case Skipped => Contents([], [], [])
    case Text(raw) => Contents([], [], Words(raw))
    case Element(name, children, gathered, rows, mapped, anchor) =>
      match KindOf(name, mapped)
      case Ignored => Contents([], [], [])
      case Heading(mark) =>
        if Words(gathered) == [] then Contents([], [], [])
        else Contents([Entry(mark, Normalized(gathered), anchor)], [], Words(gathered))
      case TableKind => Contents([], [Cells(rows)], TableWords(rows))
      case Block => ContentsOfAll(children)
      case Inline => ContentsOfAll(children)
  }

  function ContentsOfAll(nodes: seq<Node>): Contents
    decreases nodes, 1
  {
    if nodes == [] then Contents([], [], []) else ContentsOf(nodes[0]).Then(ContentsOfAll(nodes[1..]))
  }

  function Entries(sections: seq<Section>): seq<Entry> {
    seq(|sections|, i requires 0 <= i < |sections| =>
      Entry(Mark(sections[i].level, sections[i].source), sections[i].heading, sections[i].anchor))
  }

  function Matrices(tables: seq<Table>): seq<seq<seq<string>>> {
    seq(|tables|, i requires 0 <= i < |tables| => tables[i].cells)
  }

  function Recorded(d: Doc): Contents { Contents(Entries(d.sections), Matrices(d.tables), Words(d.text)) }

  lemma NewLineKeepsWords(text: string)
    ensures Words(AtNewLine(text)) == Words(text)
  {
    WordsAppend(text, "\n");
    assert IsSpace('\n') && Words("\n") == [];
  }

  lemma FreshLineSeparates(text: string, more: string)
    ensures Words(AtNewLine(text) + more) == Words(text) + Words(more)
  {
    assert IsSpace('\n');
    NewLineKeepsWords(text);
    WordsAppend(AtNewLine(text), more);
  }

  lemma TextAddsItsWords(d: Doc, raw: string)
    ensures Words(WithText(d, raw).text) == Words(d.text) + Words(raw)
  {
    assert IsSpace('\n') && IsSpace(' ') && Words(" ") == [];
    NormalizedKeepsWords(raw);
    NormalizedIsLine(raw);
    hide IsSpace, IsLine, Normalized;
    WordsAppend(Spaced(d.text), Normalized(raw));
    WordsAppend(d.text, " ");
  }

  lemma TextRecordsNothing(d: Doc, raw: string)
    ensures WithText(d, raw).sections == d.sections && WithText(d, raw).tables == d.tables
  {
    hide Normalized, Spaced;
  }

  lemma BarSeparates(cell: string, rest: string)
    ensures Words(cell + " | " + rest) == Words(cell) + ["|"] + Words(rest)
  {
    BarIsAWord();
    assert IsSpace(' ');
    hide IsSpace, Words;
    assert cell + " | " + rest == cell + (" | " + rest);
    WordsAppend(cell, " | " + rest);
    WordsAppend(" | ", rest);
  }

  lemma {:induction false} RowTextWords(row: seq<string>)
    ensures Words(Join(NormalizedRow(row), " | ")) == RowWords(row)
  {
    assert Words("") == [];
    hide Normalized, Words;
    if row != [] {
      NormalizedKeepsWords(row[0]);
      if |row| > 1 {
        RowTextWords(row[1..]);
        var cells := NormalizedRow(row);
        assert cells[1..] == NormalizedRow(row[1..]);
        BarSeparates(cells[0], Join(cells[1..], " | "));
      }
    }
  }

  lemma BarIsAWord()
    ensures Words(" | ") == ["|"]
  {
    assert " | " == " " + "|" + " ";
    WordsAppend(" " + "|", " ");
    WordsAppend(" ", "|");
    WordIsItsWords("|");
  }

  lemma AnyCellIffHasWords(row: seq<string>)
    ensures AnyCell(NormalizedRow(row)) <==> HasWords(row)
  {
    var cells := NormalizedRow(row);
    forall i | 0 <= i < |row|
      ensures cells[i] == "" <==> Words(row[i]) == []
    {
      NormalizedIsLine(row[i]);
    }
    hide Normalized, NormalizedRow;
    if AnyCell(cells) {
      var cell :| cell in cells && cell != "";
      var i :| 0 <= i < |cells| && cells[i] == cell;
      assert row[i] in row;
    }
    if HasWords(row) {
      var cell :| cell in row && Words(cell) != [];
      var i :| 0 <= i < |row| && row[i] == cell;
      assert cells[i] in cells;
    }
  }

  lemma {:induction false} TableTextWords(rows: seq<seq<string>>)
    ensures Words(TableText(Cells(rows))) == TableWords(rows)
  {
    if rows != [] {
      var row, rest := NormalizedRow(rows[0]), Cells(rows[1..]);
      TableTextWords(rows[1..]);
      AnyCellIffHasWords(rows[0]);
      RowTextWords(rows[0]);
      assert IsSpace('\n') && Words("\n") == [] && Words("") == [];
      hide AnyCell, HasWords, RowWords, NormalizedRow, Join, Words;
      if AnyCell(row) {
        assert Cells(rows) == [row] + rest;
        if rest != [] {
          var line := Join(row, " | ");
          assert TableText(Cells(rows)) == line + ("\n" + TableText(rest)) by {
            assert line + "\n" + TableText(rest) == line + ("\n" + TableText(rest));
          }
          WordsAppend(line, "\n" + TableText(rest));
          WordsAppend("\n", TableText(rest));
        }
      } else {
        assert Cells(rows) == rest;
      }
    }
  }

  lemma HeadingAddsItsWords(d: Doc, mark: Mark, gathered: string, anchor: Option<string>)
    ensures Words(WithHeading(d, mark, gathered, anchor).text) == Words(d.text) + Words(gathered)
  {
    var text, heading := AtNewLine(d.text), Normalized(gathered);
    NormalizedKeepsWords(gathered);
    NewLineKeepsWords(d.text);
    assert IsSpace('\n') && Words("\n") == [] && Words("") == [];
    hide IsSpace, Normalized, Words, AtNewLine;
    if heading != "" {
      FreshLineSeparates(d.text, heading + "\n");
      WordsAppend(heading, "\n");
      assert text + (heading + "\n") == text + heading + "\n";
    }
  }

  lemma HeadingIsRecorded(d: Doc, mark: Mark, gathered: string, anchor: Option<string>)
    ensures Recorded(WithHeading(d, mark, gathered, anchor)) == Recorded(d).Then(
      if Words(gathered) == [] then Contents([], [], [])
      else Contents([Entry(mark, Normalized(gathered), anchor)], [], Words(gathered)))
  {
    HeadingAddsItsWords(d, mark, gathered, anchor);
    NormalizedIsLine(gathered);
    hide IsSpace, Normalized, Words, AtNewLine;
    var after, heading := WithHeading(d, mark, gathered, anchor), Normalized(gathered);
    assert Matrices(after.tables) == Matrices(d.tables) + [];
    if heading == "" {
      assert Entries(after.sections) == Entries(d.sections) + [];
    } else {
      assert Entries(after.sections) == Entries(d.sections) + [Entry(mark, heading, anchor)];
    }
  }

  lemma TableIsRecorded(d: Doc, rows: seq<seq<string>>)
    ensures Recorded(WithTable(d, rows)) == Recorded(d).Then(Contents([], [Cells(rows)], TableWords(rows)))
  {
    TableTextWords(rows);
    var text, table := AtNewLine(d.text), TableText(Cells(rows));
    FreshLineSeparates(d.text, table);
    NewLineKeepsWords(text + table);
    hide AtNewLine, Words, TableText, Cells, TableWords;
    var after := WithTable(d, rows);
    assert Entries(after.sections) == Entries(d.sections) + [];
    assert Matrices(after.tables) == Matrices(d.tables) + [Cells(rows)];
  }

  lemma {:induction false} RenderedRecords(d: Doc, node: Node)
    ensures Recorded(Rendered(d, node)) == Recorded(d).Then(ContentsOf(node))
    decreases node, 0
  {
    hide Entries, Matrices, Words, AtNewLine, WithText, WithHeading, WithTable;
    match node
    case Skipped =>
    case Text(raw) =>
      TextAddsItsWords(d, raw);
      TextRecordsNothing(d, raw);
    case Element(name, children, gathered, rows, mapped, anchor) =>
      match KindOf(name, mapped)
      case Ignored =>
      case Heading(mark) => HeadingIsRecorded(d, mark, gathered, anchor);
      case TableKind => TableIsRecorded(d, rows);
      case Block =>
        var outer := d.(text := AtNewLine(d.text));
        NewLineKeepsWords(d.text);
        AllRenderedRecords(outer, children);
        NewLineKeepsWords(RenderedAll(outer, children).text);
      case Inline => AllRenderedRecords(d, children);
  }

  lemma {:induction false} AllRenderedRecords(d: Doc, nodes: seq<Node>)
    ensures Recorded(RenderedAll(d, nodes)) == Recorded(d).Then(ContentsOfAll(nodes))
    decreases nodes, 1
  {
    hide Recorded;
    if nodes == [] {
    } else {
      RenderedRecords(d, nodes[0]);
      AllRenderedRecords(Rendered(d, nodes[0]), nodes[1..]);
    }
  }

  lemma {:induction false} StripKeepsWords(text: string)
    ensures Words(StripNewLines(text)) == Words(text)
  {
    if EndsWith(text, '\n') {
      var rest := text[..|text| - 1];
      assert text == rest + "\n";
      assert IsSpace('\n') && Words("\n") == [];
      hide IsSpace, Words;
      StripKeepsWords(rest);
      WordsAppend(rest, "\n");
    }
  }

  /** For any tree: the sections are its headings with text, the tables its cell matrices, and the
      words of the returned text are the tree's words, all in document order. */
  lemma RenderKeepsContents(nodes: seq<Node>)
    ensures var d := RenderedAll(Doc("", [], []), nodes);
      Contents(Entries(d.sections), Matrices(d.tables), Words(StripNewLines(d.text))) == ContentsOfAll(nodes)
  {
    var start, d := Doc("", [], []), RenderedAll(Doc("", [], []), nodes);
    assert Recorded(start) == Contents([], [], []);
    AllRenderedRecords(start, nodes);
    StripKeepsWords(d.text);
    hide RenderedAll, ContentsOfAll, Words, StripNewLines, Entries, Matrices;
  }

  // ----- The renderer -----

  class Renderer {
    var parts: seq<string>
    var length: nat
    var sections: seq<Section>
    var tables: seq<Table>

    /** `length` is the total of the parts, none of which is empty. */
    ghost predicate Valid()
      reads this
    {
      length == |Concat(parts)| && forall p :: p in parts ==> p != ""
    }

    ghost function Document(): Doc
      reads this
    {
      Doc(Concat(parts), sections, tables)
    }

    constructor ()
      ensures Valid() && Document() == Doc("", [], [])
    {
      parts, length, sections, tables := [], 0, [], [];
    }

    /** The last part ends as the whole text does. */
    ghost method LastPart()
      requires Valid()
      ensures parts == [] <==> Concat(parts) == ""
      ensures parts != [] ==> parts[|parts| - 1] != "" && forall c :: EndsWith(parts[|parts| - 1], c) <==> EndsWith(Concat(parts), c)
    {
      if parts != [] {
        var last := |parts| - 1;
        assert parts[last] in parts;
        assert parts == parts[..last] + [parts[last]];
        ConcatAppend(parts[..last], [parts[last]]);
        assert Concat([parts[last]]) == parts[last];
      }
    }

    method Emit(text: string)
      requires Valid()
      modifies this`parts, this`length
      ensures Valid() && Document() == old(Document()).(text := old(Document()).text + text)
    {
      if text != "" {
        ConcatAppend(parts, [text]);
        assert Concat([text]) == text;
        parts := parts + [text];
        length := length + |text|;
      }
      assert old(Concat(parts)) + "" == old(Concat(parts));
    }

    method Newline()
      requires Valid()
      modifies this`parts, this`length
      ensures Valid() && Document() == old(Document()).(text := AtNewLine(old(Document()).text))
    {
      LastPart();
      if parts != [] && !EndsWith(parts[|parts| - 1], '\n') {
        Emit("\n");
      }
    }

    method EmitHeading(mark: Mark, gathered: string, anchor: Option<string>)
      requires Valid()
      modifies this
      ensures Valid() && Document() == WithHeading(old(Document()), mark, gathered, anchor)
    {
      NormalizedIsLine(gathered);
      assert IsSpace('\n');
      hide Normalized, Concat, IsSpace;
      Newline();
      var heading := Normalized(gathered);
      if heading == "" {
        return;
      }
      sections := sections + [Section(mark.level, heading, length, mark.source, anchor)];
      Emit(heading);
      ghost var before := Concat(parts);
      assert before[|before| - 1] == heading[|heading| - 1];
      Newline();
    }

    method EmitTable(rows: seq<seq<string>>)
      requires Valid()
      modifies this
      ensures Valid() && Document() == WithTable(old(Document()), rows)
    {
      hide Concat, AtNewLine, Cells, TableText;
      Newline();
      var cells := Cells(rows);
      tables := tables + [Table(|tables|, length, |cells|, MaxWidth(cells), cells)];
      Emit(TableText(cells));
      Newline();
    }

    method EmitText(raw: string)
      requires Valid()
      modifies this`parts, this`length
      ensures Valid() && Document() == WithText(old(Document()), raw)
    {
      var text := Normalized(raw);
      if text != "" {
        LastPart();
        if parts != [] && !EndsWith(parts[|parts| - 1], '\n') && !EndsWith(parts[|parts| - 1], ' ') {
          Emit(" ");
        }
        Emit(text);
      }
    }

    method Walk(children: seq<Node>)
      requires Valid()
      modifies this
      ensures Valid() && Document() == RenderedAll(old(Document()), children)
      decreases children
    {
      hide Valid, Concat, WithText, WithHeading, WithTable, AtNewLine, KindOf;
      assert children[0..] == children;
      for k := 0 to |children|
        invariant Valid()
        invariant RenderedAll(Document(), children[k..]) == RenderedAll(old(Document()), children)
      {
        label step:
        var child := children[k];
        assert children[k..][0] == child && children[k..][1..] == children[k + 1..];
        match child
        case Skipped =>
        case Text(raw) => EmitText(raw);
        case Element(name, inner, gathered, rows, mapped, anchor) =>
          match KindOf(name, mapped)
          case Ignored =>
          case Heading(mark) => EmitHeading(mark, gathered, anchor);
          case TableKind => EmitTable(rows);
          case Block =>
            Newline();
            Walk(inner);
            Newline();
          case Inline => Walk(inner);
        assert Document() == Rendered(old@step(Document()), child);
      }
    }
  }

  /** `_render_structured`. */
  method RenderStructured(root: seq<Node>) returns (text: string, sections: seq<Section>, tables: seq<Table>)
    ensures var d := RenderedAll(Doc("", [], []), root);
      text == StripNewLines(d.text) && sections == d.sections && tables == d.tables
    ensures SectionsIndex(text, sections) && TablesIndex(text, tables) && NoBlankLine(text) && !EndsWith(text, '\n')
    ensures Contents(Entries(sections), Matrices(tables), Words(text)) == ContentsOfAll(root)
  {
    var renderer := new Renderer();
    renderer.Walk(root);
    OffsetsIndexText(root);
    RenderKeepsContents(root);
    return StripNewLines(Concat(renderer.parts)), renderer.sections, renderer.tables;
  }
}
