/** What the parser makes of any text, and of a rendered tree whose nodes carry notes. */
module MarkdownNotes {
  import opened Sequences
  import opened Outlines
  import opened IndentedInsert
  import opened Markdown
  import opened MarkdownRoundTrip

  // ---------------------------------------------------------------------
  // One line of any text
  // ---------------------------------------------------------------------

  /** Unicode's whitespace, and the bytes each takes. */
  lemma WhitespaceIs(c: char)
    ensures IsWhitespace(c) <==>
              c as int in {9, 10, 11, 12, 13, 32, 133, 160, 5760, 8192, 8193, 8194, 8195, 8196, 8197, 8198, 8199, 8200,
                           8201, 8202, 8232, 8233, 8239, 8287, 12288}
    ensures IsWhitespace(c) ==> Utf8Length(c) == if c as int <= 32 then 1 else if c as int <= 160 then 2 else 3
  {
  }

  predicate Blank(s: string) {
    forall c :: c in s ==> IsWhitespace(c)
  }

  lemma {:induction false} TrimStartBlank(lead: string, s: string)
    requires Blank(lead)
    ensures TrimStart(lead + s) == TrimStart(s)
  {
    hide IsWhitespace;
    if lead == "" {
      assert lead + s == s;
    } else {
      assert lead[0] in lead;
      assert (lead + s)[1..] == lead[1..] + s;
      TrimStartBlank(lead[1..], s);
    }
  }

  lemma {:induction false} BytesJoin(a: string, b: string)
    ensures Bytes(a + b) == Bytes(a) + Bytes(b)
  {
    hide Utf8Length;
    if a == "" {
      assert a + b == b;
    } else {
      assert (a + b)[1..] == a[1..] + b;
      BytesJoin(a[1..], b);
    }
  }

  /** Leading whitespace and what follows it. */
  lemma {:induction false} Lead(s: string) returns (lead: string, text: string)
    ensures s == lead + text && Blank(lead) && (text != "" ==> !IsWhitespace(text[0]))
  {
    hide IsWhitespace;
    lead, text := "", s;
    if s != "" && IsWhitespace(s[0]) {
      lead, text := Lead(s[1..]);
      lead := [s[0]] + lead;
      assert s == [s[0]] + s[1..];
    }
  }

  /** A blank line is dropped. */
  lemma BlankParses(s: string)
    requires Blank(s)
    ensures ParseLine(s) == []
  {
    hide IsWhitespace;
    TrimStartBlank(s, "");
    assert s + "" == s;
  }

  /** Any other line keeps its text without the whitespace around it, at half its leading bytes. */
  lemma LineParses(lead: string, text: string)
    requires Blank(lead) && text != "" && !IsWhitespace(text[0])
    ensures ParseLine(lead + text) == [ParsedLine(TrimEnd(text), Bytes(lead) / 2)]
  {
    hide IsWhitespace;
    TrimStartBlank(lead, text);
    assert TrimStart(text) == text;
    TrimEndKeeps(text);
    BytesJoin(lead, text);
  }

  lemma StripText(lead: string, text: string)
    requires text != "" && !IsWhitespace(text[0])
    ensures StripReturn(lead + text) == lead + StripReturn(text)
    ensures StripReturn(text) != "" && StripReturn(text)[0] == text[0]
  {
  }

  /** A carriage return before the newline makes no difference. */
  lemma StripParses(s: string)
    ensures ParseLine(StripReturn(s)) == ParseLine(s)
  {
    var lead, text := Lead(s);
    if text == "" {
      assert Blank(s) && Blank(StripReturn(s));
      BlankParses(s);
      BlankParses(StripReturn(s));
    } else {
      StripText(lead, text);
      LineParses(lead, text);
      LineParses(lead, StripReturn(text));
      TrimReturn(text);
    }
  }

  /** Text is parsed line by line. */
  lemma ContentByLine(line: string, rest: string)
    requires '\n' !in line
    ensures ParseIndentedContent(line + "\n" + rest) == ParseLine(line) + ParseIndentedContent(rest)
    ensures ParseIndentedContent(line) == ParseLine(line)
  {
    SplitFirst(line, rest);
    StripParses(line);
    hide ParseLine;
    hide StripReturn;
    assert ([StripReturn(line)] + SplitLines(rest))[1..] == SplitLines(rest);
    LastLine(line);
  }

  lemma LastLine(line: string)
    requires '\n' !in line
    ensures ParseIndentedContent(line) == ParseLine(line)
  {
    if line == "" {
      BlankParses("");
    } else {
      assert LineEnd(line) == |line|;
      assert SplitLines(line) == [line];
      assert ParseLines([line][1..]) == [];
    }
  }

  // ---------------------------------------------------------------------
  // Notes
  // ---------------------------------------------------------------------

  function Deeper(rows: seq<ParsedLine>, k: nat): (r: seq<ParsedLine>)
    ensures |r| == |rows|
    ensures forall i :: 0 <= i < |rows| ==> r[i] == ParsedLine(rows[i].text, rows[i].indent + k)
  {
    if rows == [] then [] else [ParsedLine(rows[0].text, rows[0].indent + k)] + Deeper(rows[1..], k)
  }

  lemma DeeperJoin(a: seq<ParsedLine>, b: seq<ParsedLine>, k: nat)
    ensures Deeper(a + b, k) == Deeper(a, k) + Deeper(b, k)
  {
    hide Deeper;
  }

  lemma {:induction false} IndentBlank(depth: nat)
    ensures Blank(Indent(depth)) && Bytes(Indent(depth)) == 2 * depth && '\n' !in Indent(depth)
  {
    if depth > 0 {
      IndentBlank(depth - 1);
      BytesJoin("  ", Indent(depth - 1));
      assert Bytes("  ") == 2 by {
        assert "  "[1..] == " " && " "[1..] == "";
      }
    }
  }

  /** A rendered line of a note parses to that line, two levels below the node's own. */
  lemma NoteLineParses(line: string, depth: nat)
    ensures ParseLine(Indent(depth) + "    " + line) == Deeper(ParseLine(line), depth + 2)
  {
    var lead, text := Lead(line);
    var margin := Indent(depth) + "    ";
    MarginBlank(depth);
    hide Indent;
    hide IsWhitespace;
    hide Deeper;
    assert margin + line == (margin + lead) + text;
    assert Blank(margin + lead);
    if text == "" {
      assert margin + line == margin + lead && line == lead;
      BlankParses(margin + lead);
      BlankParses(lead);
    } else {
      LineParses(margin + lead, text);
      LineParses(lead, text);
      BytesJoin(margin, lead);
      Halves(Bytes(lead), depth);
    }
  }

  lemma MarginBlank(depth: nat)
    ensures Blank(Indent(depth) + "    ") && Bytes(Indent(depth) + "    ") == 2 * depth + 4
    ensures '\n' !in Indent(depth) + "    "
  {
    IndentBlank(depth);
    IndentBlank(2);
    assert Indent(2) == "  " + ("  " + "");
    assert "    " == Indent(2);
    BytesJoin(Indent(depth), Indent(2));
  }

  lemma Halves(lead: nat, depth: nat)
    ensures (2 * depth + 4 + lead) / 2 == lead / 2 + depth + 2
  {
  }

  lemma {:induction false} SplitNoNewline(s: string)
    ensures forall l :: l in SplitLines(s) ==> '\n' !in l
    decreases |s|
  {
    if s != "" && LineEnd(s) < |s| {
      SplitNoNewline(s[LineEnd(s) + 1..]);
    }
  }

  lemma {:induction false} NoteBlockParses(lines: seq<string>, depth: nat, rest: string)
    requires forall l :: l in lines ==> '\n' !in l
    ensures ParseIndentedContent(NoteBlock(lines, depth) + rest)
            == Deeper(ParseLines(lines), depth + 2) + ParseIndentedContent(rest)
  {
    hide ParseIndentedContent;
    hide ParseLine;
    hide Deeper;
    if lines == [] {
      assert NoteBlock(lines, depth) + rest == rest;
    } else {
      var line, more := Indent(depth) + "    " + lines[0], NoteBlock(lines[1..], depth);
      MarginBlank(depth);
      hide Indent;
      assert lines[0] in lines;
      assert NoteBlock(lines, depth) + rest == line + "\n" + (more + rest);
      ContentByLine(line, more + rest);
      NoteLineParses(lines[0], depth);
      NoteBlockParses(lines[1..], depth, rest);
      DeeperJoin(ParseLine(lines[0]), ParseLines(lines[1..]), depth + 2);
    }
  }

  /** A rendered note parses to the note's own lines, two levels below its node. */
  lemma NoteParses(note: string, depth: nat, rest: string)
    ensures ParseIndentedContent(NoteText(Some(note), depth) + rest)
            == Deeper(ParseIndentedContent(note), depth + 2) + ParseIndentedContent(rest)
  {
    hide SplitLines;
    hide ParseLines;
    hide NoteBlock;
    hide Deeper;
    SplitNoNewline(note);
    NoteBlockParses(SplitLines(note), depth, rest);
  }

  // ---------------------------------------------------------------------
  // Trees with notes
  // ---------------------------------------------------------------------

  /** Each name on one line. */
  predicate OneLine(t: Tree)
    decreases t, 1
  {
    '\n' !in t.node.name && OneLineAll(t.kids)
  }

  predicate OneLineAll(ts: seq<Tree>)
    decreases ts, 0
  {
    ts != [] ==> OneLine(ts[0]) && OneLineAll(ts[1..])
  }

  function NoteRows(n: Node, depth: nat): seq<ParsedLine> {
    match n.note
    case Some(note) => Deeper(ParseIndentedContent(note), depth + 2)
    case None => []
  }

  /** Pre-order rows: each name, the lines of its note two levels down, then the children. */
  function NotedRows(t: Tree, depth: nat): seq<ParsedLine>
    decreases t, 1
  {
    [ParsedLine(Heading(t.node.name), depth)] + NoteRows(t.node, depth) + NotedRowsAll(t.kids, depth + 1)
  }

  function NotedRowsAll(ts: seq<Tree>, depth: nat): seq<ParsedLine>
    decreases ts, 0
  {
    if ts == [] then [] else NotedRows(ts[0], depth) + NotedRowsAll(ts[1..], depth)
  }

  lemma {:induction false} NotedParses(t: Tree, depth: nat, rest: string)
    requires OneLine(t)
    ensures ParseIndentedContent(Render(t, depth) + rest) == NotedRows(t, depth) + ParseIndentedContent(rest)
    decreases t, 1
  {
    hide ParseIndentedContent;
    hide Bullet;
    hide NoteText;
    hide NoteRows;
    var note, below := NoteText(t.node.note, depth), RenderAll(t.kids, depth + 1);
    assert Render(t, depth) + rest == Bullet(t.node, depth) + (note + (below + rest));
    BulletParses(t.node, depth, note + (below + rest));
    NotePartParses(t.node, depth, below + rest);
    NotedAllParses(t.kids, depth + 1, rest);
  }

  lemma NotePartParses(n: Node, depth: nat, rest: string)
    ensures ParseIndentedContent(NoteText(n.note, depth) + rest) == NoteRows(n, depth) + ParseIndentedContent(rest)
  {
    hide ParseIndentedContent;
    match n.note
    case Some(note) => NoteParses(note, depth, rest);
    case None =>
      assert NoteText(n.note, depth) + rest == rest;
      assert [] + ParseIndentedContent(rest) == ParseIndentedContent(rest);
  }

  lemma {:induction false} NotedAllParses(ts: seq<Tree>, depth: nat, rest: string)
    requires OneLineAll(ts)
    ensures ParseIndentedContent(RenderAll(ts, depth) + rest) == NotedRowsAll(ts, depth) + ParseIndentedContent(rest)
    decreases ts, 0
  {
    hide ParseIndentedContent;
    hide Render;
    hide NotedRows;
    if ts == [] {
      assert RenderAll(ts, depth) + rest == rest;
    } else {
      var more := RenderAll(ts[1..], depth);
      Grouped(Render(ts[0], depth), more, rest);
      NotedParses(ts[0], depth, more + rest);
      NotedAllParses(ts[1..], depth, rest);
      Grouped(NotedRows(ts[0], depth), NotedRowsAll(ts[1..], depth), ParseIndentedContent(rest));
    }
  }

  lemma Grouped<T>(a: seq<T>, b: seq<T>, c: seq<T>)
    ensures a + b + c == a + (b + c)
  {
  }

  /** The rendered text of a tree with notes parses to its names and the lines of its notes. */
  lemma NotedMarkdownParses(t: Tree)
    requires OneLine(t)
    ensures ParseIndentedContent(Render(t, 0)) == NotedRows(t, 0)
  {
    NotedParses(t, 0, "");
    assert Render(t, 0) + "" == Render(t, 0);
    assert ParseIndentedContent("") == [];
  }

  // ---------------------------------------------------------------------
  // When notes leave no trace
  // ---------------------------------------------------------------------

  /** Every note is blank, line by line. */
  predicate NotesBlank(t: Tree)
    decreases t, 1
  {
    (t.node.note.Some? ==> ParseIndentedContent(t.node.note.value) == []) && NotesBlankAll(t.kids)
  }

  predicate NotesBlankAll(ts: seq<Tree>)
    decreases ts, 0
  {
    ts != [] ==> NotesBlank(ts[0]) && NotesBlankAll(ts[1..])
  }

  /** A tree comes back as its names alone exactly when all its notes are blank. */
  lemma {:induction false} NotesVanishExactly(t: Tree, depth: nat)
    ensures |NotedRows(t, depth)| >= |Rows(Headed(t), depth)|
    ensures |NotedRows(t, depth)| == |Rows(Headed(t), depth)| ==> NotesBlank(t)
    ensures NotedRows(t, depth) == Rows(Headed(t), depth) <==> NotesBlank(t)
    decreases t, 1
  {
    hide ParseIndentedContent;
    NotesVanishAll(t.kids, depth + 1);
    if NotesBlank(t) {
      assert NoteRows(t.node, depth) == [];
    }
  }

  lemma {:induction false} NotesVanishAll(ts: seq<Tree>, depth: nat)
    ensures |NotedRowsAll(ts, depth)| >= |RowsAll(HeadedAll(ts), depth)|
    ensures |NotedRowsAll(ts, depth)| == |RowsAll(HeadedAll(ts), depth)| ==> NotesBlankAll(ts)
    ensures NotedRowsAll(ts, depth) == RowsAll(HeadedAll(ts), depth) <==> NotesBlankAll(ts)
    decreases ts, 0
  {
    if ts != [] {
      NotesVanishExactly(ts[0], depth);
      NotesVanishAll(ts[1..], depth);
      assert HeadedAll(ts)[1..] == HeadedAll(ts[1..]);
    }
  }
}
