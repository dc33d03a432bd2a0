/** Escaping for the OPML printer and the entity decoder that undoes it. */
module Entities {

  const NBSP := '\U{00A0}'

  /** Every leftmost, non-overlapping occurrence of the pattern replaced. */
  function Replace(s: string, pattern: string, put: string): string
    requires pattern != ""
    decreases |s|
  {
    if |s| < |pattern| then s
    else if s[..|pattern|] == pattern then put + Replace(s[|pattern|..], pattern, put)
    else [s[0]] + Replace(s[1..], pattern, put)
  }

  function XmlEscape(s: string): string {
    var s1 := Replace(s, "&", "&amp;");
    var s2 := Replace(s1, "<", "&lt;");
    var s3 := Replace(s2, ">", "&gt;");
    var s4 := Replace(s3, "\"", "&quot;");
    Replace(s4, "'", "&apos;")
  }

  function DecodeEntities(s: string): string {
    if '&' !in s && NBSP !in s then s
    else
      var s1 := Replace(s, "&lt;", "<");
      var s2 := Replace(s1, "&gt;", ">");
      var s3 := Replace(s2, "&quot;", "\"");
      var s4 := Replace(s3, "&#39;", "'");
      var s5 := Replace(s4, "&apos;", "'");
      var s6 := Replace(s5, "&nbsp;", " ");
      var s7 := Replace(s6, [NBSP], " ");
      Replace(s7, "&amp;", "&")
  }

  // ---------------------------------------------------------------------
  // Reference definitions, one character at a time
  // ---------------------------------------------------------------------

  /** The predefined entity of a character that has one (section 4.6 of XML 1.0). */
  function EscapeChar(c: char): string {
    if c == '&' then "&amp;"
    else if c == '<' then "&lt;"
    else if c == '>' then "&gt;"
    else if c == '"' then "&quot;"
    else if c == '\'' then "&apos;"
    else [c]
  }

  function EscapeEach(s: string): string {
    if s == "" then "" else EscapeChar(s[0]) + EscapeEach(s[1..])
  }

  function SpacesForNbsp(s: string): string {
    if s == "" then "" else [if s[0] == NBSP then ' ' else s[0]] + SpacesForNbsp(s[1..])
  }

  // ---------------------------------------------------------------------
  // Replacement, piece by piece
  // ---------------------------------------------------------------------

  /** A piece without the pattern's first character is passed over. */
  lemma {:induction false} PieceKept(t: string, rest: string, p: string, put: string)
    requires p != "" && p[0] !in t
    ensures Replace(t + rest, p, put) == t + Replace(rest, p, put)
  {
    if t == "" {
      assert t + rest == rest;
    } else {
      var s := t + rest;
      assert s[1..] == t[1..] + rest;
      assert |s| >= |p| ==> s[..|p|][0] != p[0];
      PieceKept(t[1..], rest, p, put);
      assert |s| >= |p| ==> Replace(s, p, put) == [s[0]] + Replace(s[1..], p, put);
      assert t == [t[0]] + t[1..];
      if |s| < |p| {
        assert |rest| < |p|;
      }
    }
  }

  lemma PieceReplaced(rest: string, p: string, put: string)
    requires p != ""
    ensures Replace(p + rest, p, put) == put + Replace(rest, p, put)
  {
    assert (p + rest)[..|p|] == p && (p + rest)[|p|..] == rest;
  }

  /** An ampersand, then neither ampersand nor semicolon up to the closing semicolon. */
  predicate Reference(t: string) {
    |t| >= 2 && t[0] == '&' && t[|t| - 1] == ';' && '&' !in t[1..] && ';' !in t[..|t| - 1]
  }

  /** One entity is never mistaken for another, whatever follows it. */
  lemma SameReference(t: string, rest: string, p: string)
    requires Reference(t) && Reference(p) && p <= t + rest
    ensures p == t
  {
    var s := t + rest;
    assert forall i :: 0 <= i < |p| ==> p[i] == s[i];
    assert forall i :: 0 <= i < |t| ==> t[i] == s[i];
    assert forall i :: 0 <= i < |t| - 1 ==> t[..|t| - 1][i] == t[i];
    assert forall i :: 0 <= i < |p| - 1 ==> p[..|p| - 1][i] == p[i];
  }

  lemma NoMatch(s: string, p: string, put: string)
    requires s != "" && p != "" && !(p <= s)
    ensures Replace(s, p, put) == [s[0]] + Replace(s[1..], p, put)
  {
    assert |s| < |p| ==> s == [s[0]] + s[1..];
  }

  lemma ReferenceKept(t: string, rest: string, p: string, put: string)
    requires Reference(t) && Reference(p) && t != p
    ensures Replace(t + rest, p, put) == t + Replace(rest, p, put)
  {
    hide Replace;
    assert !(p <= t + rest) by {
      if p <= t + rest {
        SameReference(t, rest, p);
      }
    }
    NoMatch(t + rest, p, put);
    assert (t + rest)[1..] == t[1..] + rest;
    PieceKept(t[1..], rest, p, put);
    assert t == [t[0]] + t[1..];
  }

  // ---------------------------------------------------------------------
  // Escaping
  // ---------------------------------------------------------------------

  /** Replacing one character is done character by character. */
  lemma {:induction false} CharReplaced(s: string, rest: string, c: char, put: string)
    ensures Replace(s + rest, [c], put) == Replace(s, [c], put) + Replace(rest, [c], put)
  {
    if s == "" {
      assert s + rest == rest;
    } else {
      assert (s + rest)[..1] == [s[0]] && s[..1] == [s[0]];
      assert (s + rest)[1..] == s[1..] + rest;
      CharReplaced(s[1..], rest, c, put);
    }
  }

  lemma EscapeJoins(s: string, rest: string)
    ensures XmlEscape(s + rest) == XmlEscape(s) + XmlEscape(rest)
  {
    hide Replace;
    var s1, r1 := Replace(s, "&", "&amp;"), Replace(rest, "&", "&amp;");
    var s2, r2 := Replace(s1, "<", "&lt;"), Replace(r1, "<", "&lt;");
    var s3, r3 := Replace(s2, ">", "&gt;"), Replace(r2, ">", "&gt;");
    var s4, r4 := Replace(s3, "\"", "&quot;"), Replace(r3, "\"", "&quot;");
    CharReplaced(s, rest, '&', "&amp;");
    CharReplaced(s1, r1, '<', "&lt;");
    CharReplaced(s2, r2, '>', "&gt;");
    CharReplaced(s3, r3, '"', "&quot;");
    CharReplaced(s4, r4, '\'', "&apos;");
  }

  lemma {:induction false} Absent(s: string, c: char, put: string)
    requires c !in s
    ensures Replace(s, [c], put) == s
  {
    PieceKept(s, "", [c], put);
    assert s + "" == s;
  }

  lemma Present(c: char, put: string)
    ensures Replace([c], [c], put) == put
  {
    PieceReplaced("", [c], put);
    assert [c] + "" == [c] && put + "" == put;
  }

  /** What the replacement of one character makes of a piece of escaped text. */
  lemma OneReplaced(t: string, c: char, put: string)
    requires c !in t || t == [c]
    ensures Replace(t, [c], put) == if t == [c] then put else t
  {
    if t == [c] {
      Present(c, put);
    } else {
      Absent(t, c, put);
    }
  }

  lemma EscapeOne(c: char)
    ensures XmlEscape([c]) == EscapeChar(c)
  {
    hide Replace;
    OneReplaced([c], '&', "&amp;");
    var s1 := if c == '&' then "&amp;" else [c];
    OneReplaced(s1, '<', "&lt;");
    var s2 := if c == '<' then "&lt;" else s1;
    OneReplaced(s2, '>', "&gt;");
    var s3 := if c == '>' then "&gt;" else s2;
    OneReplaced(s3, '"', "&quot;");
    var s4 := if c == '"' then "&quot;" else s3;
    OneReplaced(s4, '\'', "&apos;");
  }

  /** The five replacements in turn are the single-pass escape of each character. */
  lemma {:induction false} EscapeIsPerCharacter(s: string)
    ensures XmlEscape(s) == EscapeEach(s)
  {
    if s != "" {
      EscapeOne(s[0]);
      EscapeIsPerCharacter(s[1..]);
      EscapeJoins([s[0]], s[1..]);
      assert s == [s[0]] + s[1..];
    }
  }

  // ---------------------------------------------------------------------
  // Decoding
  // ---------------------------------------------------------------------

  /** Text the decoder knows: a character that starts no reference, or one of its eight patterns. */
  datatype Piece = Plain(c: char) | Known(j: nat)

  predicate Proper(p: Piece) {
    match p
    case Plain(c) => c != '&' && c != NBSP
    case Known(j) => j < 8
  }

  /** The decoder's k-th pattern and its replacement. */
  function Pattern(k: nat): string {
    match k
    case 0 => "&lt;"
    case 1 => "&gt;"
    case 2 => "&quot;"
    case 3 => "&#39;"
    case 4 => "&apos;"
    case 5 => "&nbsp;"
    case 6 => [NBSP]
    case _ => "&amp;"
  }

  function Substitute(k: nat): string {
    match k
    case 0 => "<"
    case 1 => ">"
    case 2 => "\""
    case 3 => "'"
    case 4 => "'"
    case 5 => " "
    case 6 => " "
    case _ => "&"
  }

  /** What a piece reads after the first k replacements of the decoder. */
  function Form(k: nat, p: Piece): string {
    match p
    case Plain(c) => [c]
    case Known(j) => if k <= j then Pattern(j) else Substitute(j)
  }

  function Forms(k: nat, ps: seq<Piece>): string {
    if ps == [] then "" else Form(k, ps[0]) + Forms(k, ps[1..])
  }

  lemma PatternReference(k: nat)
    requires k < 8 && k != 6
    ensures Reference(Pattern(k))
  {
  }

  lemma PatternsDiffer(j: nat, k: nat)
    requires j < 8 && k < 8 && j != k
    ensures Pattern(j) != Pattern(k)
  {
    assert "&lt;"[1] == 'l' && "&gt;"[1] == 'g' && "&quot;"[1] == 'q' && "&#39;"[1] == '#' && "&nbsp;"[1] == 'n';
    assert "&apos;"[1] == 'a' && "&apos;"[2] == 'p' && "&amp;"[1] == 'a' && "&amp;"[2] == 'm';
    assert |Pattern(j)| == 1 <==> j == 6;
    assert |Pattern(k)| == 1 <==> k == 6;
  }

  lemma SubstituteApart(j: nat, k: nat)
    requires j < k < 8
    ensures Substitute(j) != Pattern(k) && Pattern(k)[0] !in Substitute(j)
    ensures |Substitute(j)| == 1 && Substitute(j)[0] != '&'
  {
  }

  /** Each form is the pattern itself, another entity, or text the pattern does not start in. */
  lemma FormShape(k: nat, p: Piece)
    requires k < 8 && Proper(p)
    ensures Form(k, p) == Pattern(k) || Pattern(k)[0] !in Form(k, p)
            || (Reference(Form(k, p)) && Reference(Pattern(k)))
  {
    match p
    case Plain(c) => PatternStart(k);
    case Known(j) =>
      if j < k {
        SubstituteApart(j, k);
      } else if j > k {
        if j == 6 {
          PatternStart(k);
        } else {
          PatternReference(j);
          if k != 6 {
            PatternReference(k);
          }
        }
      }
  }

  lemma PatternStart(k: nat)
    requires k < 8
    ensures Pattern(k)[0] == if k == 6 then NBSP else '&'
  {
  }

  lemma FormNext(k: nat, p: Piece)
    requires k < 8 && Proper(p)
    ensures Form(k + 1, p) == if Form(k, p) == Pattern(k) then Substitute(k) else Form(k, p)
  {
    match p
    case Plain(c) => PatternStart(k);
    case Known(j) =>
      if j < k {
        SubstituteApart(j, k);
      } else if j > k {
        PatternsDiffer(j, k);
      }
  }

  ghost predicate AllProper(ps: seq<Piece>) {
    forall p :: p in ps ==> Proper(p)
  }

  /** The k-th replacement of the decoder takes each piece one step on. */
  lemma {:induction false} DecodeStep(k: nat, ps: seq<Piece>)
    requires k < 8 && AllProper(ps)
    ensures Replace(Forms(k, ps), Pattern(k), Substitute(k)) == Forms(k + 1, ps)
  {
    if ps != [] {
      var t, rest, p, put := Form(k, ps[0]), Forms(k, ps[1..]), Pattern(k), Substitute(k);
      assert ps[0] in ps;
      DecodeStep(k, ps[1..]);
      FormShape(k, ps[0]);
      FormNext(k, ps[0]);
      hide Form;
      hide Pattern;
      hide Substitute;
      hide Replace;
      if t == p {
        PieceReplaced(rest, p, put);
      } else if p[0] !in t {
        PieceKept(t, rest, p, put);
      } else {
        ReferenceKept(t, rest, p, put);
      }
    }
  }

  lemma FormStart(p: Piece)
    requires Proper(p)
    ensures Form(0, p) != "" && (p.Known? ==> Form(0, p)[0] in {'&', NBSP})
  {
  }

  /** Text that takes the decoder's fast path has nothing to undo. */
  lemma {:induction false} PlainForms(ps: seq<Piece>)
    requires AllProper(ps) && '&' !in Forms(0, ps) && NBSP !in Forms(0, ps)
    ensures Forms(0, ps) == Forms(8, ps)
  {
    if ps != [] {
      var e, t := Forms(0, ps), Form(0, ps[0]);
      assert ps[0] in ps;
      FormStart(ps[0]);
      assert e == t + Forms(0, ps[1..]) && e[0] == t[0] && e[0] in e;
      assert forall c :: c in Forms(0, ps[1..]) ==> c in e;
      PlainForms(ps[1..]);
    }
  }

  /** The decoder's replacements in turn. */
  lemma DecodeSteps(ps: seq<Piece>)
    requires AllProper(ps) && ('&' in Forms(0, ps) || NBSP in Forms(0, ps))
    ensures DecodeEntities(Forms(0, ps)) == Forms(8, ps)
  {
    hide Forms;
    hide Replace;
    assert Replace(Forms(0, ps), "&lt;", "<") == Forms(1, ps) by { DecodeStep(0, ps); }
    assert Replace(Forms(1, ps), "&gt;", ">") == Forms(2, ps) by { DecodeStep(1, ps); }
    assert Replace(Forms(2, ps), "&quot;", "\"") == Forms(3, ps) by { DecodeStep(2, ps); }
    assert Replace(Forms(3, ps), "&#39;", "'") == Forms(4, ps) by { DecodeStep(3, ps); }
    assert Replace(Forms(4, ps), "&apos;", "'") == Forms(5, ps) by { DecodeStep(4, ps); }
    assert Replace(Forms(5, ps), "&nbsp;", " ") == Forms(6, ps) by { DecodeStep(5, ps); }
    assert Replace(Forms(6, ps), [NBSP], " ") == Forms(7, ps) by { DecodeStep(6, ps); }
    assert Replace(Forms(7, ps), "&amp;", "&") == Forms(8, ps) by { DecodeStep(7, ps); }
  }

  /** Any text of plain characters and known references is decoded piece by piece. */
  lemma DecodePieces(ps: seq<Piece>)
    requires AllProper(ps)
    ensures DecodeEntities(Forms(0, ps)) == Forms(8, ps)
  {
    hide Replace;
    if '&' !in Forms(0, ps) && NBSP !in Forms(0, ps) {
      PlainForms(ps);
    } else {
      DecodeSteps(ps);
    }
  }

  lemma DecodeOne(j: nat)
    requires j < 8
    ensures DecodeEntities(Pattern(j)) == Substitute(j)
  {
    var ps := [Known(j)];
    assert ps[1..] == [];
    assert Forms(0, ps) == Pattern(j) + "" == Pattern(j) && Forms(8, ps) == Substitute(j) + "" == Substitute(j);
    DecodePieces(ps);
    hide DecodeEntities;
  }

  /** The references the decoder knows. */
  lemma KnownReferences()
    ensures DecodeEntities("&lt;") == "<" && DecodeEntities("&gt;") == ">" && DecodeEntities("&quot;") == "\""
    ensures DecodeEntities("&#39;") == "'" && DecodeEntities("&apos;") == "'" && DecodeEntities("&amp;") == "&"
    ensures DecodeEntities("&nbsp;") == " " && DecodeEntities("\U{00A0}") == " "
  {
    hide DecodeEntities;
    DecodeOne(0);
    DecodeOne(1);
    DecodeOne(2);
    DecodeOne(3);
    DecodeOne(4);
    DecodeOne(5);
    DecodeOne(6);
    DecodeOne(7);
  }

  /** The piece a character is escaped to. */
  function PieceOf(c: char): Piece {
    if c == '<' then Known(0)
    else if c == '>' then Known(1)
    else if c == '"' then Known(2)
    else if c == '\'' then Known(4)
    else if c == NBSP then Known(6)
    else if c == '&' then Known(7)
    else Plain(c)
  }

  function PiecesOf(s: string): seq<Piece> {
    if s == "" then [] else [PieceOf(s[0])] + PiecesOf(s[1..])
  }

  lemma {:induction false} PiecesEscaped(s: string)
    ensures AllProper(PiecesOf(s))
    ensures Forms(0, PiecesOf(s)) == EscapeEach(s) && Forms(8, PiecesOf(s)) == SpacesForNbsp(s)
  {
    if s != "" {
      PiecesEscaped(s[1..]);
      assert PiecesOf(s)[1..] == PiecesOf(s[1..]);
    }
  }

  /** The decoder undoes the escape, but for non-breaking spaces becoming spaces. */
  lemma DecodeUndoesEscape(s: string)
    ensures DecodeEntities(XmlEscape(s)) == SpacesForNbsp(s)
  {
    hide XmlEscape;
    hide DecodeEntities;
    EscapeIsPerCharacter(s);
    PiecesEscaped(s);
    DecodePieces(PiecesOf(s));
  }

  lemma {:induction false} SpacesSame(s: string)
    ensures SpacesForNbsp(s) == s <==> NBSP !in s
  {
    if s != "" {
      SpacesSame(s[1..]);
      assert s == [s[0]] + s[1..];
      assert SpacesForNbsp(s)[1..] == SpacesForNbsp(s[1..]);
    }
  }

  /** So the round trip is exact for exactly the strings without a non-breaking space. */
  lemma RoundTripExactly(s: string)
    ensures DecodeEntities(XmlEscape(s)) == s <==> NBSP !in s
  {
    DecodeUndoesEscape(s);
    SpacesSame(s);
  }

  /** Escaped text contains no markup character and no bare quote. */
  lemma {:induction false} EscapedIsClean(s: string)
    ensures forall c :: c in ['<', '>', '"', '\''] ==> c !in XmlEscape(s)
  {
    EscapeIsPerCharacter(s);
    hide XmlEscape;
    if s != "" {
      EscapeIsPerCharacter(s[1..]);
      EscapedIsClean(s[1..]);
    }
  }

  /** Decoding the ampersand first, or escaping it last, turns one text into another. */
  lemma AmpersandOrderMatters()
    ensures XmlEscape("&lt;") == "&amp;lt;"
    ensures Replace(Replace("&amp;lt;", "&amp;", "&"), "&lt;", "<") == "<"
    ensures Replace(Replace("<", "<", "&lt;"), "&", "&amp;") == "&amp;lt;"
    ensures DecodeEntities("&amp;lt;") == "&lt;"
  {
    hide Replace;
    assert "&lt;" == "&" + "lt;" && "&amp;lt;" == "&amp;" + "lt;";
    PieceReplaced("lt;", "&", "&amp;");
    PieceKept("lt;", "", "&", "&amp;");
    PieceReplaced("lt;", "&amp;", "&");
    PieceKept("lt;", "", "&amp;", "&");
    assert "lt;" + "" == "lt;" && "<" + "" == "<" && "&lt;" + "" == "&lt;";
    PieceReplaced("", "&lt;", "<");
    PieceReplaced("", "<", "&lt;");
    EmptyReplaced("&lt;", "<");
    EmptyReplaced("<", "&lt;");
    EmptyReplaced("&amp;", "&");
    EmptyReplaced("&", "&amp;");
    Absent("&amp;lt;", '<', "&lt;");
    Absent("&amp;lt;", '>', "&gt;");
    Absent("&amp;lt;", '"', "&quot;");
    Absent("&amp;lt;", '\'', "&apos;");
    RoundTripExactly("&lt;");
    hide DecodeEntities;
  }

  lemma EmptyReplaced(p: string, put: string)
    requires p != ""
    ensures Replace("", p, put) == ""
  {
  }
}
