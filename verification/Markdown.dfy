/** Rendering a subtree as nested Markdown bullets and parsing indented text into lines. */
module Markdown {
  import opened Sequences
  import opened Outlines
  import opened NodeSlices
  import opened IndentedInsert

  // ---------------------------------------------------------------------
  // Text
  // ---------------------------------------------------------------------

  /** Unicode White_Space. */
  predicate IsWhitespace(c: char) {
    var v := c as int;
    || 9 <= v <= 13 || v == 32 || v == 0x85 || v == 0xA0 || v == 0x1680 || 0x2000 <= v <= 0x200A
    || v == 0x2028 || v == 0x2029 || v == 0x202F || v == 0x205F || v == 0x3000
  }

  /** Length of a character in UTF-8. */
  function Utf8Length(c: char): nat {
    var v := c as int;
    if v < 0x80 then 1 else if v < 0x800 then 2 else if v < 0x10000 then 3 else 4
  }

  function Bytes(s: string): nat {
    if s == "" then 0 else Utf8Length(s[0]) + Bytes(s[1..])
  }

  function TrimStart(s: string): (r: string)
    ensures |r| <= |s| && Bytes(r) <= Bytes(s)
  {
    if s != "" && IsWhitespace(s[0]) then TrimStart(s[1..]) else s
  }

  function TrimEnd(s: string): (r: string)
    ensures r <= s
  {
    if s != "" && IsWhitespace(s[|s| - 1]) then TrimEnd(s[..|s| - 1]) else s
  }

  function Trim(s: string): string {
    TrimEnd(TrimStart(s))
  }

  /** Position of the first newline, or the length. */
  function LineEnd(s: string): (i: nat)
    ensures i <= |s|
    ensures i < |s| ==> s[i] == '\n'
    ensures forall j :: 0 <= j < i ==> s[j] != '\n'
  {
    if s == "" || s[0] == '\n' then 0 else 1 + LineEnd(s[1..])
  }

  function StripReturn(s: string): string {
    if s != "" && s[|s| - 1] == '\r' then s[..|s| - 1] else s
  }

  /** Lines without their endings; the last line needs none. */
  function SplitLines(s: string): seq<string> {
    if s == "" then []
    else
      var i := LineEnd(s);
      if i == |s| then [s] else [StripReturn(s[..i])] + SplitLines(s[i + 1..])
  }

  // ---------------------------------------------------------------------
  // Parsing
  // ---------------------------------------------------------------------

  /** Blank lines are dropped; the indent is half the leading whitespace, in bytes. */
  function ParseLine(line: string): seq<ParsedLine> {
    var text := Trim(line);
    if text == "" then [] else [ParsedLine(text, (Bytes(line) - Bytes(TrimStart(line))) / 2)]
  }

  function ParseLines(lines: seq<string>): seq<ParsedLine> {
    if lines == [] then [] else ParseLine(lines[0]) + ParseLines(lines[1..])
  }

  function ParseIndentedContent(content: string): seq<ParsedLine> {
    ParseLines(SplitLines(content))
  }

  // ---------------------------------------------------------------------
  // Rendering
  // ---------------------------------------------------------------------

  datatype Tree = Tree(node: Node, kids: seq<Tree>)

  function Indent(depth: nat): string {
    if depth == 0 then "" else "  " + Indent(depth - 1)
  }

  function NoteBlock(lines: seq<string>, depth: nat): string {
    if lines == [] then "" else Indent(depth) + "    " + lines[0] + "\n" + NoteBlock(lines[1..], depth)
  }

  function NoteText(note: Option<string>, depth: nat): string {
    match note
    case Some(text) => NoteBlock(SplitLines(text), depth)
    case None => ""
  }

  function Bullet(n: Node, depth: nat): string {
    Indent(depth) + "- " + n.name + "\n"
  }

  function Render(t: Tree, depth: nat): string
    decreases t, 1
  {
    Bullet(t.node, depth) + NoteText(t.node.note, depth) + RenderAll(t.kids, depth + 1)
  }

  function RenderAll(ts: seq<Tree>, depth: nat): string
    decreases ts, 0
  {
    if ts == [] then "" else Render(ts[0], depth) + RenderAll(ts[1..], depth)
  }

  /** t is the tree that the parent links of the slice describe. */
  ghost predicate Represents(nodes: seq<Node>, t: Tree)
    decreases t, 1
  {
    RepresentsAll(nodes, t.kids, ChildrenOf(nodes, t.node.id))
  }

  ghost predicate RepresentsAll(nodes: seq<Node>, ts: seq<Tree>, roots: seq<Node>)
    decreases ts, 0
  {
    if ts == [] then roots == []
    else roots != [] && ts[0].node == roots[0] && Represents(nodes, ts[0]) && RepresentsAll(nodes, ts[1..], roots[1..])
  }

  method RenderNote(note: Option<string>, depth: nat) returns (out: string)
    ensures out == NoteText(note, depth)
  {
    out := "";
    match note {
      case None =>
      case Some(text) =>
        var lines := SplitLines(text);
        var i := 0;
        while i < |lines|
          invariant i <= |lines|
          invariant out + NoteBlock(lines[i..], depth) == NoteBlock(lines, depth)
        {
          assert lines[i..][0] == lines[i] && lines[i..][1..] == lines[i + 1..];
          var line := Indent(depth) + "    " + lines[i] + "\n";
          assert out + NoteBlock(lines[i..], depth) == out + line + NoteBlock(lines[i + 1..], depth);
          out := out + line;
          i := i + 1;
        }
    }
  }

  /** Append the subtree below node, depth first, children in slice order. */
  method RenderWalk(nodes: seq<Node>, m: map<Id, seq<Node>>, node: Node, depth: nat, out0: string, ghost t: Tree)
    returns (out: string)
    requires forall p :: Lookup(m, p) == ChildrenOf(nodes, p)
    requires Represents(nodes, t) && t.node == node
    ensures out == out0 + Render(t, depth)
    decreases t
  {
    hide ChildrenOf;
    hide NoteText;
    hide Bullet;
    out := out0 + Bullet(node, depth);
    var note := RenderNote(node.note, depth);
    out := out + note;
    ghost var head := out;
    var kids := Lookup(m, node.id);
    ghost var ts := t.kids;
    var i := 0;
    assert kids[0..] == kids;
    while i < |kids|
      invariant i <= |kids|
      invariant forall k :: k in ts ==> k in t.kids
      invariant RepresentsAll(nodes, ts, kids[i..])
      invariant out + RenderAll(ts, depth + 1) == head + RenderAll(t.kids, depth + 1)
    {
      SiblingStep(nodes, ts, kids, i, depth + 1, out);
      assert ts[0] in t.kids;
      out := RenderWalk(nodes, m, kids[i], depth + 1, out, ts[0]);
      ts := ts[1..];
      i := i + 1;
    }
    assert ts == [];
    assert RenderAll(ts, depth + 1) == "";
    Joined(out0, Bullet(node, depth), note, RenderAll(t.kids, depth + 1));
  }

  lemma Joined(a: string, b: string, c: string, d: string)
    ensures a + b + c + d == a + (b + c + d)
  {
  }

  lemma SiblingStep(nodes: seq<Node>, ts: seq<Tree>, kids: seq<Node>, i: nat, depth: nat, out: string)
    requires i < |kids| && RepresentsAll(nodes, ts, kids[i..])
    ensures ts != [] && ts[0].node == kids[i] && Represents(nodes, ts[0])
    ensures RepresentsAll(nodes, ts[1..], kids[i + 1..])
    ensures out + RenderAll(ts, depth) == (out + Render(ts[0], depth)) + RenderAll(ts[1..], depth)
  {
    hide Represents;
    hide Render;
    assert kids[i..][1..] == kids[i + 1..];
  }

  /** Render the subtree of the root found in the slice; nothing if it is not there. */
  method RenderSubtreeMarkdown(nodes: seq<Node>, rootId: Id, ghost t: Tree) returns (out: string)
    requires FirstWithId(nodes, rootId).Some? ==>
               Represents(nodes, t) && FirstWithId(nodes, rootId) == Some(t.node)
    ensures out == if FirstWithId(nodes, rootId).Some? then Render(t, 0) else ""
  {
    var m := GroupByParent(nodes);
    match FirstWithId(nodes, rootId) {
      case Some(root) =>
        out := RenderWalk(nodes, m, root, 0, "", t);
      case None =>
        out := "";
    }
  }
}
