/** Rendering a tree as Markdown, parsing the text as indented content and inserting it rebuilds
    the tree. */
module MarkdownRoundTrip {
  import opened Sequences
  import opened Outlines
  import opened IndentedInsert
  import opened InsertReadBack
  import opened Markdown

  /** What a reader sees of a tree: texts and sibling order. */
  datatype Shape = Shape(text: string, kids: seq<Shape>)

  /** The text a bullet comes back as. */
  function Heading(name: string): string {
    TrimEnd("- " + name)
  }

  function Headed(t: Tree): Shape
    decreases t, 1
  {
    Shape(Heading(t.node.name), HeadedAll(t.kids))
  }

  function HeadedAll(ts: seq<Tree>): seq<Shape>
    decreases ts, 0
  {
    if ts == [] then [] else [Headed(ts[0])] + HeadedAll(ts[1..])
  }

  /** Pre-order rows of a shape, each with its depth. */
  function Rows(s: Shape, depth: nat): seq<ParsedLine>
    decreases s, 1
  {
    [ParsedLine(s.text, depth)] + RowsAll(s.kids, depth + 1)
  }

  function RowsAll(ss: seq<Shape>, depth: nat): seq<ParsedLine>
    decreases ss, 0
  {
    if ss == [] then [] else Rows(ss[0], depth) + RowsAll(ss[1..], depth)
  }

  /** No notes, and each name on one line. */
  predicate Plain(t: Tree)
    decreases t, 1
  {
    t.node.note.None? && '\n' !in t.node.name && PlainAll(t.kids)
  }

  predicate PlainAll(ts: seq<Tree>)
    decreases ts, 0
  {
    ts != [] ==> Plain(ts[0]) && PlainAll(ts[1..])
  }

  /** The heading is the name behind a bullet exactly when the name is nonempty and does not end
      in whitespace. */
  lemma HeadingExact(name: string)
    ensures Heading(name) == "- " + name <==> name != "" && !IsWhitespace(name[|name| - 1])
  {
    var s := "- " + name;
    if name == "" {
      assert TrimEnd(s) == TrimEnd(s[..1]);
    } else {
      assert s[|s| - 1] == name[|name| - 1];
      if IsWhitespace(s[|s| - 1]) {
        assert TrimEnd(s) == TrimEnd(s[..|s| - 1]);
        assert |TrimEnd(s)| < |s|;
      }
    }
  }

  // ---------------------------------------------------------------------
  // One bullet
  // ---------------------------------------------------------------------

  lemma {:induction false} IndentProps(depth: nat, s: string)
    requires s != "" && !IsWhitespace(s[0])
    ensures TrimStart(Indent(depth) + s) == s
    ensures Bytes(Indent(depth) + s) == 2 * depth + Bytes(s)
    ensures '\n' !in Indent(depth)
  {
    if depth == 0 {
      assert Indent(0) + s == s;
    } else {
      var inner := Indent(depth - 1) + s;
      IndentProps(depth - 1, s);
      assert Indent(depth) + s == "  " + inner;
      assert ("  " + inner)[1..] == " " + inner;
      assert (" " + inner)[1..] == inner;
    }
  }

  lemma {:induction false} LineEndIs(line: string, rest: string)
    requires '\n' !in line
    ensures LineEnd(line + "\n" + rest) == |line|
  {
    var s := line + "\n" + rest;
    assert s[|line|] == '\n';
    assert forall j :: 0 <= j < |line| ==> s[j] == line[j];
  }

  lemma SplitFirst(line: string, rest: string)
    requires '\n' !in line
    ensures SplitLines(line + "\n" + rest) == [StripReturn(line)] + SplitLines(rest)
  {
    var s := line + "\n" + rest;
    LineEndIs(line, rest);
    assert s[..|line|] == line;
    assert s[|line| + 1..] == rest;
  }

  lemma TrimReturn(s: string)
    ensures TrimEnd(StripReturn(s)) == TrimEnd(s)
  {
  }

  lemma {:induction false} TrimEndKeeps(s: string)
    requires s != "" && !IsWhitespace(s[0])
    ensures TrimEnd(s) != ""
  {
    if IsWhitespace(s[|s| - 1]) {
      TrimEndKeeps(s[..|s| - 1]);
    }
  }

  /** An indented text that starts visibly parses to its trimmed text and its depth. */
  lemma IndentedLine(text: string, depth: nat)
    requires text != "" && !IsWhitespace(text[0])
    ensures ParseLine(Indent(depth) + text) == [ParsedLine(TrimEnd(text), depth)]
  {
    hide TrimEnd;
    hide TrimStart;
    hide Bytes;
    hide Indent;
    var line := Indent(depth) + text;
    IndentProps(depth, text);
    TrimEndKeeps(text);
    assert Trim(line) == TrimEnd(text);
    HalfOfLeading(Bytes(line), Bytes(text), depth);
  }

  lemma HalfOfLeading(whole: nat, part: nat, depth: nat)
    requires whole == part + 2 * depth
    ensures (whole - part) / 2 == depth
  {
  }

  lemma BulletLine(name: string, depth: nat)
    requires '\n' !in name
    ensures ParseLine(StripReturn(Indent(depth) + ("- " + name))) == [ParsedLine(Heading(name), depth)]
  {
    var b := "- " + name;
    TrimReturn(b);
    hide ParseLine;
    hide TrimEnd;
    hide Indent;
    var tail := StripReturn(b);
    assert StripReturn(Indent(depth) + b) == Indent(depth) + tail;
    assert tail[0] == '-';
    IndentedLine(tail, depth);
  }

  /** One rendered bullet parses to one line, at half its leading spaces. */
  lemma BulletParses(n: Node, depth: nat, rest: string)
    requires '\n' !in n.name
    ensures ParseIndentedContent(Bullet(n, depth) + rest)
            == [ParsedLine(Heading(n.name), depth)] + ParseIndentedContent(rest)
  {
    var line := Indent(depth) + ("- " + n.name);
    IndentProps(depth, "-");
    assert Bullet(n, depth) + rest == line + "\n" + rest;
    SplitFirst(line, rest);
    BulletLine(n.name, depth);
    hide ParseLine;
    assert ([StripReturn(line)] + SplitLines(rest))[1..] == SplitLines(rest);
  }

  // ---------------------------------------------------------------------
  // A whole tree
  // ---------------------------------------------------------------------

  lemma {:induction false} RenderParses(t: Tree, depth: nat, rest: string)
    requires Plain(t)
    ensures ParseIndentedContent(Render(t, depth) + rest) == Rows(Headed(t), depth) + ParseIndentedContent(rest)
    decreases t, 1
  {
    hide ParseIndentedContent;
    hide Bullet;
    var below := RenderAll(t.kids, depth + 1);
    assert Render(t, depth) + rest == Bullet(t.node, depth) + (below + rest);
    BulletParses(t.node, depth, below + rest);
    RenderAllParses(t.kids, depth + 1, rest);
  }

  lemma {:induction false} RenderAllParses(ts: seq<Tree>, depth: nat, rest: string)
    requires PlainAll(ts)
    ensures ParseIndentedContent(RenderAll(ts, depth) + rest)
            == RowsAll(HeadedAll(ts), depth) + ParseIndentedContent(rest)
    decreases ts, 0
  {
    hide ParseIndentedContent;
    if ts == [] {
      assert RenderAll(ts, depth) + rest == rest;
    } else {
      var more := RenderAll(ts[1..], depth);
      assert RenderAll(ts, depth) + rest == Render(ts[0], depth) + (more + rest);
      RenderParses(ts[0], depth, more + rest);
      RenderAllParses(ts[1..], depth, rest);
      assert HeadedAll(ts)[1..] == HeadedAll(ts[1..]);
    }
  }

  /** The rendered text parses to the tree's rows. */
  lemma MarkdownParses(t: Tree)
    requires Plain(t)
    ensures ParseIndentedContent(Render(t, 0)) == Rows(Headed(t), 0)
  {
    RenderParses(t, 0, "");
    assert Render(t, 0) + "" == Render(t, 0);
    assert ParseIndentedContent("") == [];
  }

  // ---------------------------------------------------------------------
  // Rows carry their own clamped depths
  // ---------------------------------------------------------------------

  /** Depths are at least lo, and each row is at most one deeper than the one before it. */
  ghost predicate Gentle(rows: seq<ParsedLine>, lo: nat) {
    && (forall i :: 0 <= i < |rows| ==> rows[i].indent >= lo)
    && (forall i :: 0 < i < |rows| ==> rows[i].indent <= rows[i - 1].indent + 1)
    && (rows != [] ==> rows[0].indent == lo)
  }

  lemma GentleJoin(a: seq<ParsedLine>, b: seq<ParsedLine>, lo: nat, at: nat)
    requires Gentle(a, lo) && a != [] && Gentle(b, at) && lo <= at <= lo + 1
    ensures Gentle(a + b, lo)
  {
    var r := a + b;
    forall i | 0 < i < |r| ensures r[i].indent <= r[i - 1].indent + 1 {
      if i == |a| {
        assert r[i] == b[0] && r[i - 1] == a[|a| - 1];
      } else if i > |a| {
        assert r[i] == b[i - |a|] && r[i - 1] == b[i - 1 - |a|];
      }
    }
  }

  lemma {:induction false} RowsGentle(s: Shape, depth: nat)
    ensures Gentle(Rows(s, depth), depth)
    decreases s, 1
  {
    RowsAllGentle(s.kids, depth + 1);
    GentleJoin([ParsedLine(s.text, depth)], RowsAll(s.kids, depth + 1), depth, depth + 1);
  }

  lemma {:induction false} RowsAllGentle(ss: seq<Shape>, depth: nat)
    ensures Gentle(RowsAll(ss, depth), depth)
    decreases ss, 0
  {
    if ss != [] {
      RowsGentle(ss[0], depth);
      RowsAllGentle(ss[1..], depth);
      GentleJoin(Rows(ss[0], depth), RowsAll(ss[1..], depth), depth, depth);
    }
  }

  lemma {:induction false} ClampKeeps(rows: seq<ParsedLine>)
    requires Gentle(rows, 0)
    ensures forall i :: 0 <= i < |rows| ==> Clamp(rows)[i] == rows[i].indent
  {
    if rows != [] {
      var n := |rows| - 1;
      assert Gentle(rows[..n], 0) by {
        forall i | 0 < i < n ensures rows[..n][i].indent <= rows[..n][i - 1].indent + 1 {
          assert rows[i].indent <= rows[i - 1].indent + 1;
        }
      }
      ClampKeeps(rows[..n]);
      if n > 0 {
        assert Clamp(rows[..n])[n - 1] == rows[n - 1].indent;
      }
    }
  }

  // ---------------------------------------------------------------------
  // Rows determine the shape
  // ---------------------------------------------------------------------

  /** Length of the leading run of rows deeper than d. */
  function RunLength(rows: seq<ParsedLine>, d: nat): nat {
    if rows == [] || rows[0].indent <= d then 0 else 1 + RunLength(rows[1..], d)
  }

  lemma {:induction false} RunLengthIs(x: seq<ParsedLine>, y: seq<ParsedLine>, d: nat)
    requires forall i :: 0 <= i < |x| ==> x[i].indent > d
    requires y != [] ==> y[0].indent == d
    ensures RunLength(x + y, d) == |x|
  {
    if x == [] {
      assert x + y == y;
    } else {
      assert (x + y)[1..] == x[1..] + y;
      RunLengthIs(x[1..], y, d);
    }
  }

  lemma SplitUnique(x1: seq<ParsedLine>, y1: seq<ParsedLine>, x2: seq<ParsedLine>, y2: seq<ParsedLine>, d: nat)
    requires x1 + y1 == x2 + y2
    requires Gentle(x1, d + 1) && Gentle(x2, d + 1) && Gentle(y1, d) && Gentle(y2, d)
    ensures x1 == x2 && y1 == y2
  {
    RunLengthIs(x1, y1, d);
    RunLengthIs(x2, y2, d);
    var s := x1 + y1;
    assert x1 == s[..|x1|] && x2 == s[..|x2|];
    assert y1 == s[|x1|..] && y2 == s[|x2|..];
  }

  lemma HeadsAgree(a: seq<Shape>, b: seq<Shape>, depth: nat)
    requires a != [] && RowsAll(a, depth) == RowsAll(b, depth)
    ensures b != [] && a[0].text == b[0].text
    ensures RowsAll(a[0].kids, depth + 1) == RowsAll(b[0].kids, depth + 1)
    ensures RowsAll(a[1..], depth) == RowsAll(b[1..], depth)
  {
    HeadRows(a, depth);
    assert RowsAll(b, depth) != [];
    assert b != [];
    HeadRows(b, depth);
    var xa, ya := RowsAll(a[0].kids, depth + 1), RowsAll(a[1..], depth);
    var xb, yb := RowsAll(b[0].kids, depth + 1), RowsAll(b[1..], depth);
    RowsAllGentle(a[0].kids, depth + 1);
    RowsAllGentle(b[0].kids, depth + 1);
    RowsAllGentle(a[1..], depth);
    RowsAllGentle(b[1..], depth);
    hide RowsAll;
    hide Gentle;
    SameRows(ParsedLine(a[0].text, depth), xa + ya, ParsedLine(b[0].text, depth), xb + yb);
    SplitUnique(xa, ya, xb, yb, depth);
  }

  lemma SameRows(h1: ParsedLine, t1: seq<ParsedLine>, h2: ParsedLine, t2: seq<ParsedLine>)
    requires [h1] + t1 == [h2] + t2
    ensures h1 == h2 && t1 == t2
  {
    assert ([h1] + t1)[0] == h1 && ([h2] + t2)[0] == h2;
    assert ([h1] + t1)[1..] == t1 && ([h2] + t2)[1..] == t2;
  }

  lemma {:induction false} RowsInjective(a: seq<Shape>, b: seq<Shape>, depth: nat)
    requires RowsAll(a, depth) == RowsAll(b, depth)
    ensures a == b
    decreases a
  {
    hide RowsAll;
    if a != [] {
      HeadsAgree(a, b, depth);
      RowsInjective(a[0].kids, b[0].kids, depth + 1);
      RowsInjective(a[1..], b[1..], depth);
      assert a[0] == b[0];
      assert a == [a[0]] + a[1..] && b == [b[0]] + b[1..];
    } else if b != [] {
      HeadsAgree(b, a, depth);
    }
  }

  lemma HeadRows(ss: seq<Shape>, depth: nat)
    requires ss != []
    ensures RowsAll(ss, depth)
            == [ParsedLine(ss[0].text, depth)] + (RowsAll(ss[0].kids, depth + 1) + RowsAll(ss[1..], depth))
  {
  }

  // ---------------------------------------------------------------------
  // The inserted forest as shapes
  // ---------------------------------------------------------------------

  /** The shapes of what a reader is shown. */
  function ShapesOf(ts: seq<Shown>): seq<Shape>
    decreases ts
  {
    if ts == [] then [] else [Shape(ts[0].node.text, ShapesOf(ts[0].kids))] + ShapesOf(ts[1..])
  }

  function Labelled(r: seq<(Created, nat)>): seq<ParsedLine> {
    if r == [] then [] else [ParsedLine(r[0].0.text, r[0].1)] + Labelled(r[1..])
  }

  lemma {:induction false} LabelledAppend(a: seq<(Created, nat)>, b: seq<(Created, nat)>)
    ensures Labelled(a + b) == Labelled(a) + Labelled(b)
  {
    if a == [] {
      assert a + b == b;
    } else {
      assert (a + b)[1..] == a[1..] + b;
      LabelledAppend(a[1..], b);
    }
  }

  /** The rows of the shapes are the reading of what is shown. */
  lemma {:induction false} ShapesRead(ts: seq<Shown>, depth: nat)
    ensures RowsAll(ShapesOf(ts), depth) == Labelled(Reading(ts, depth))
    decreases ts
  {
    hide RowsAll;
    if ts == [] {
      NoRows(depth);
    } else {
      var below, next := Reading(ts[0].kids, depth + 1), Reading(ts[1..], depth);
      ShapesRead(ts[0].kids, depth + 1);
      ShapesRead(ts[1..], depth);
      HeadRows(ShapesOf(ts), depth);
      assert ShapesOf(ts)[1..] == ShapesOf(ts[1..]);
      LabelledPair(ts[0].node, depth, below, next);
      hide Labelled;
    }
  }

  lemma NoRows(depth: nat)
    ensures RowsAll([], depth) == []
  {
  }

  lemma LabelledPair(n: Created, depth: nat, below: seq<(Created, nat)>, next: seq<(Created, nat)>)
    ensures Labelled([(n, depth)] + below + next)
            == [ParsedLine(n.text, depth)] + (Labelled(below) + Labelled(next))
  {
    var r := [(n, depth)] + below + next;
    assert r[1..] == below + next;
    LabelledAppend(below, next);
  }

  lemma {:induction false} LabelledRows(r: seq<(Created, nat)>, rows: seq<ParsedLine>)
    requires |r| == |rows| && forall i :: 0 <= i < |r| ==> r[i].0.text == rows[i].text && r[i].1 == rows[i].indent
    ensures Labelled(r) == rows
  {
    if r != [] {
      LabelledRows(r[1..], rows[1..]);
      assert rows == [rows[0]] + rows[1..];
    }
  }

  /** Lines at the depths of a forest are rebuilt as that forest: it is what any reader is shown, in
      display order, however the server stores the nodes and rescales their priorities. */
  lemma PlantedShows(ss: seq<Shape>, base: Option<Id>, ids: seq<Id>, stored: Stored, rank: Created -> int,
                     ts: seq<Shown>)
    requires |ids| == |RowsAll(ss, 0)| && FreshIds(base, ids)
    requires var rows := RowsAll(ss, 0);
             var c := Planted(rows, Clamp(rows), base, ids);
             Holds(c, stored) && KeepsOrder(c, rank) && Shows(stored, rank, Displayed(stored, rank, base), ts)
    ensures ShapesOf(ts) == ss
  {
    var rows := RowsAll(ss, 0);
    var d := Clamp(rows);
    var c := Planted(rows, d, base, ids);
    RowsAllGentle(ss, 0);
    ClampKeeps(rows);
    hide Clamp;
    hide RowsAll;
    hide Shows;
    hide Holds;
    hide KeepsOrder;
    InsertReadsBack(rows, base, ids, stored, rank, ts);
    LabelledRows(InOrder(c, d), rows);
    ShapesRead(ts, 0);
    RowsInjective(ShapesOf(ts), ss, 0);
  }

  /** Render, parse, insert: with every create succeeding, a plain tree of at most 80 nodes comes back.
      Whatever a reader is then shown under the base, in display order, is the tree with the same
      shape and sibling order, each name behind a bullet. */
  lemma MarkdownRoundTrip(t: Tree, base: Option<Id>, ans: nat -> LineAnswers, stored: Stored, rank: Created -> int,
                          ts: seq<Shown>)
    requires Plain(t) && |Rows(Headed(t), 0)| <= MAX_INSERT_CONTENT_LINES
    requires forall i :: 0 <= i < |Rows(Headed(t), 0)| ==> StopReason(ans(i)).None?
    requires FreshIds(base, MadeIds(ans, |Rows(Headed(t), 0)|))
    requires var held := Expected(base, ParseIndentedContent(Render(t, 0)), ans).0;
             Holds(held, stored) && KeepsOrder(held, rank) && Shows(stored, rank, Displayed(stored, rank, base), ts)
    ensures Expected(base, ParseIndentedContent(Render(t, 0)), ans).1.Complete?
    ensures ShapesOf(ts) == [Headed(t)]
  {
    hide Expected;
    hide Holds;
    hide KeepsOrder;
    hide Shows;
    hide StopReason;
    hide Render;
    hide Planted;
    hide Clamp;
    var rows := Rows(Headed(t), 0);
    MarkdownParses(t);
    assert RowsAll([Headed(t)], 0) == rows;
    var ids := MadeIds(ans, |rows|);
    ExpectedStop(base, rows, ans, ids);
    hide Rows;
    hide RowsAll;
    PlantedShows([Headed(t)], base, ids, stored, rank, ts);
  }
}
