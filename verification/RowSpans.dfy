/** The lines of a row's body, and the column that an error on a line is laid at. */
module RowSpans {
  import opened Options
  import opened Syntax
  import opened RowText
  import R = RowBody
  import FormatterCode
  import ColumnPaths

  /** The lines a column's entry takes. */
  datatype Span = Span(col: nat, first: nat, last: nat)

  function Newlines(s: string): nat {
    if s == "" then 0 else (if s[0] == '\n' then 1 else 0) + Newlines(s[1..])
  }

  /** format_value_text */
  function ValueShown(cells: Cells, col: nat): string {
    ValueText("  ", CellOf(cells, col), 0, "")
  }

  // What is written.

  function Opening(name: string): string {
    name + " {\n"
  }

  const CLOSING: string := "}\n"

  function CellLine(name: string, cells: Cells, col: nat): string {
    name + " = " + ValueShown(cells, col) + "\n"
  }

  function Lines(ch: seq<R.BodyNode>, cells: Cells): nat
    decreases ch
  {
    if ch == [] then 0 else NodeLines(ch[0], cells) + Lines(ch[1..], cells)
  }

  function NodeLines(node: R.BodyNode, cells: Cells): (n: nat)
    ensures n > 0
    decreases node
  {
    match node
    case Cell(_, col) => 1 + Newlines(ValueShown(cells, col))
    case Block(_, ch) => 2 + Lines(ch, cells)
  }

  /** The column of the first cell in a block. */
  function FirstCol(ch: seq<R.BodyNode>): nat
    decreases ch
  {
    if ch == [] then 0 else if ch[0].Cell? then ch[0].col else FirstCol(ch[0].children)
  }

  /** The spans in the order they are recorded, a block's after its cells'. */
  function Spans(ch: seq<R.BodyNode>, cells: Cells, line: nat): seq<Span>
    decreases ch
  {
    if ch == [] then [] else NodeSpans(ch[0], cells, line) + Spans(ch[1..], cells, line + NodeLines(ch[0], cells))
  }

  function NodeSpans(node: R.BodyNode, cells: Cells, line: nat): seq<Span>
    decreases node
  {
    match node
    case Cell(_, col) => [Span(col, line, line + Newlines(ValueShown(cells, col)))]
    case Block(_, ch) => Spans(ch, cells, line + 1) + [Span(FirstCol(ch), line, line + 1 + Lines(ch, cells))]
  }

  /** at_row: the column of the first span with a line. */
  function FindCol(spans: seq<Span>, line: nat): Option<nat> {
    if spans == [] then None
    else if spans[0].first <= line <= spans[0].last then Some(spans[0].col)
    else FindCol(spans[1..], line)
  }

  /** The column that each character of the text is written for: a cell's own, and a
      block's first for the lines that open and close it. */
  function Owners(ch: seq<R.BodyNode>, cells: Cells): seq<nat>
    decreases ch
  {
    if ch == [] then [] else NodeOwners(ch[0], cells) + Owners(ch[1..], cells)
  }

  function NodeOwners(node: R.BodyNode, cells: Cells): seq<nat>
    decreases node
  {
    match node
    case Cell(name, col) => seq(|CellLine(name, cells, col)|, _ => col)
    case Block(name, ch) => seq(|Opening(name)|, _ => FirstCol(ch)) + Owners(ch, cells) + seq(|CLOSING|, _ => FirstCol(ch))
  }

  // The text, piece by piece.

  lemma {:induction false} BodyThen(ch: seq<R.BodyNode>, cells: Cells, a: string, b: string)
    ensures BodyText(ch, cells, a + b) == BodyText(ch, cells, a) + b
    decreases ch
  {
    hide NodeText;
    if ch != [] {
      BodyThen(ch[1..], cells, a, b);
      NodeThen(ch[0], cells, BodyText(ch[1..], cells, a), b);
    }
  }

  lemma {:induction false} NodeThen(node: R.BodyNode, cells: Cells, a: string, b: string)
    ensures NodeText(node, cells, a + b) == NodeText(node, cells, a) + b
    decreases node
  {
    hide EntryText;
    match node
    case Cell(name, col) => FormatterCode.EntryThen("  ", EntryOf(node, cells), 0, a, b);
    case Block(name, ch) =>
      var close := "}" + ("\n" + a);
      assert "}" + ("\n" + (a + b)) == close + b;
      BodyThen(ch, cells, close, b);
  }

  lemma NodeFirst(ch: seq<R.BodyNode>, cells: Cells)
    requires ch != []
    ensures BodyText(ch, cells, "") == NodeText(ch[0], cells, "") + BodyText(ch[1..], cells, "")
  {
    hide NodeText;
    var rest := BodyText(ch[1..], cells, "");
    NodeThen(ch[0], cells, "", rest);
    assert "" + rest == rest;
  }

  lemma CellPiece(name: string, cells: Cells, col: nat)
    ensures NodeText(R.Cell(name, col), cells, "") == CellLine(name, cells, col)
  {
    hide ValueText;
    var v := CellOf(cells, col);
    FormatterCode.ValueThen("  ", v, 0, "", "\n");
    assert "" + "\n" == "\n" && "\n" + "" == "\n";
    assert name + (" " + ("=" + (" " + (ValueText("  ", v, 0, "") + "\n")))) == CellLine(name, cells, col);
  }

  lemma BlockPiece(name: string, ch: seq<R.BodyNode>, cells: Cells)
    ensures NodeText(R.Block(name, ch), cells, "") == Opening(name) + BodyText(ch, cells, "") + CLOSING
  {
    hide BodyText;
    BodyThen(ch, cells, "", CLOSING);
    assert "" + CLOSING == CLOSING && "}" + ("\n" + "") == CLOSING;
    var body := BodyText(ch, cells, "");
    assert name + (" " + ("{" + ("\n" + (body + CLOSING)))) == Opening(name) + body + CLOSING;
  }

  lemma {:induction false} OwnersLength(ch: seq<R.BodyNode>, cells: Cells)
    ensures |Owners(ch, cells)| == |BodyText(ch, cells, "")|
    decreases ch
  {
    hide NodeText, NodeOwners;
    if ch != [] {
      NodeFirst(ch, cells);
      NodeLength(ch[0], cells);
      OwnersLength(ch[1..], cells);
    }
  }

  lemma {:induction false} NodeLength(node: R.BodyNode, cells: Cells)
    ensures |NodeOwners(node, cells)| == |NodeText(node, cells, "")|
    decreases node
  {
    hide NodeText, BodyText, CellLine, Opening;
    match node
    case Cell(name, col) => CellPiece(name, cells, col);
    case Block(name, ch) =>
      OwnersLength(ch, cells);
      BlockPiece(name, ch, cells);
  }

  // Counting lines.

  lemma {:induction false} NewlinesAppend(a: string, b: string)
    ensures Newlines(a + b) == Newlines(a) + Newlines(b)
    decreases |a|
  {
    if a == "" {
      assert a + b == b;
    } else {
      NewlinesAppend(a[1..], b);
      assert (a + b)[1..] == a[1..] + b;
    }
  }

  lemma {:induction false} NoNewlines(s: string)
    requires forall k :: 0 <= k < |s| ==> s[k] != '\n'
    ensures Newlines(s) == 0
    decreases |s|
  {
    if s != "" {
      NoNewlines(s[1..]);
    }
  }

  lemma FewerLines(s: string, p: nat)
    requires p <= |s|
    ensures Newlines(s[..p]) <= Newlines(s)
  {
    NewlinesAppend(s[..p], s[p..]);
    assert s[..p] + s[p..] == s;
  }

  /** A text that ends its line is on its lines up to there. */
  lemma LinesBefore(s: string, p: nat)
    requires p <= |s|
    ensures Newlines((s + "\n")[..p]) <= Newlines(s)
  {
    assert (s + "\n")[..p] == s[..p];
    FewerLines(s, p);
  }

  lemma OpeningLines(name: string)
    requires Word(name)
    ensures Newlines(name + " {") == 0 && Newlines(name + " = ") == 0 && Newlines(Opening(name)) == 1
  {
    NoNewlines(name + " {");
    NoNewlines(name + " = ");
    NewlinesAppend(name + " {", "\n");
    assert Opening(name) == (name + " {") + "\n";
    assert "\n"[1..] == "";
  }

  lemma ClosingLines()
    ensures Newlines(CLOSING) == 1
  {
    assert CLOSING[1..] == "\n" && "\n"[1..] == "";
  }

  lemma CellLineLines(name: string, cells: Cells, col: nat)
    requires Word(name)
    ensures Newlines(CellLine(name, cells, col)) == 1 + Newlines(ValueShown(cells, col))
    ensures forall p :: 0 <= p < |CellLine(name, cells, col)| ==>
                          Newlines(CellLine(name, cells, col)[..p]) <= Newlines(ValueShown(cells, col))
  {
    hide ValueShown, Word;
    var start, shown := name + " = ", ValueShown(cells, col);
    OpeningLines(name);
    NewlinesAppend(start, shown);
    NewlinesAppend(start + shown, "\n");
    assert "\n"[1..] == "";
    var line := CellLine(name, cells, col);
    assert line == (start + shown) + "\n";
    forall p | 0 <= p < |line| ensures Newlines(line[..p]) <= Newlines(shown) {
      LinesBefore(start + shown, p);
    }
  }

  lemma {:induction false} BodyLines(ch: seq<R.BodyNode>, cells: Cells)
    requires Words(ch)
    ensures Newlines(BodyText(ch, cells, "")) == Lines(ch, cells)
    decreases ch
  {
    hide NodeText, NodeLines, Word;
    if ch != [] {
      NodeFirst(ch, cells);
      NodeNewlines(ch[0], cells);
      BodyLines(ch[1..], cells);
      NewlinesAppend(NodeText(ch[0], cells, ""), BodyText(ch[1..], cells, ""));
    }
  }

  lemma {:induction false} NodeNewlines(node: R.BodyNode, cells: Cells)
    requires Word(node.name) && (node.Block? ==> Words(node.children))
    ensures Newlines(NodeText(node, cells, "")) == NodeLines(node, cells)
    decreases node
  {
    hide NodeText, BodyText, CellLine, Opening, Word, Words, Newlines;
    match node
    case Cell(name, col) =>
      CellPiece(name, cells, col);
      CellLineLines(name, cells, col);
    case Block(name, ch) =>
      BodyLines(ch, cells);
      BlockPiece(name, ch, cells);
      OpeningLines(name);
      ClosingLines();
      NewlinesAppend(Opening(name), BodyText(ch, cells, ""));
      NewlinesAppend(Opening(name) + BodyText(ch, cells, ""), CLOSING);
  }

  // Finding a line's column.

  predicate SpansIn(spans: seq<Span>, from: nat, to: nat) {
    forall k :: 0 <= k < |spans| ==> from <= spans[k].first && spans[k].last < to
  }

  lemma {:induction false} SpansBounds(ch: seq<R.BodyNode>, cells: Cells, line: nat)
    ensures SpansIn(Spans(ch, cells, line), line, line + Lines(ch, cells))
    decreases ch
  {
    hide NodeSpans, NodeLines;
    if ch != [] {
      NodeBounds(ch[0], cells, line);
      SpansBounds(ch[1..], cells, line + NodeLines(ch[0], cells));
    }
  }

  lemma {:induction false} NodeBounds(node: R.BodyNode, cells: Cells, line: nat)
    ensures SpansIn(NodeSpans(node, cells, line), line, line + NodeLines(node, cells))
    decreases node
  {
    hide Spans;
    if node.Block? {
      SpansBounds(node.children, cells, line + 1);
    }
  }

  lemma {:induction false} FindLater(a: seq<Span>, b: seq<Span>, line: nat)
    ensures FindCol(a + b, line) == if FindCol(a, line).Some? then FindCol(a, line) else FindCol(b, line)
    decreases |a|
  {
    if a == [] {
      assert a + b == b;
    } else {
      assert (a + b)[1..] == a[1..] + b;
      FindLater(a[1..], b, line);
    }
  }

  lemma {:induction false} FindNone(spans: seq<Span>, from: nat, to: nat, line: nat)
    requires SpansIn(spans, from, to) && (line < from || line >= to)
    ensures FindCol(spans, line) == None
    decreases |spans|
  {
    if spans != [] {
      FindNone(spans[1..], from, to, line);
    }
  }

  /** An error at a character of the text is laid at the column it is written for. */
  lemma {:induction false} BodyOwner(ch: seq<R.BodyNode>, cells: Cells, line: nat, p: nat)
    requires Words(ch) && p < |BodyText(ch, cells, "")|
    ensures |Owners(ch, cells)| == |BodyText(ch, cells, "")|
    ensures FindCol(Spans(ch, cells, line), line + Newlines(BodyText(ch, cells, "")[..p])) == Some(Owners(ch, cells)[p])
    decreases ch, 0
  {
    hide NodeText, NodeSpans, NodeLines, NodeOwners, Word, SpansIn, FindCol, Newlines;
    OwnersLength(ch, cells);
    NodeFirst(ch, cells);
    NodeLength(ch[0], cells);
    NodeNewlines(ch[0], cells);
    NodeBounds(ch[0], cells, line);
    var first, rest := NodeText(ch[0], cells, ""), BodyText(ch[1..], cells, "");
    var next := line + NodeLines(ch[0], cells);
    var text := BodyText(ch, cells, "");
    FindLater(NodeSpans(ch[0], cells, line), Spans(ch[1..], cells, next), line + Newlines(text[..p]));
    if p < |first| {
      assert text[..p] == first[..p];
      NodeOwner(ch[0], cells, line, p);
    } else {
      var q := p - |first|;
      assert text[..p] == first + rest[..q];
      NewlinesAppend(first, rest[..q]);
      BodyOwner(ch[1..], cells, next, q);
      FindNone(NodeSpans(ch[0], cells, line), line, next, line + Newlines(text[..p]));
    }
  }

  lemma {:induction false} NodeOwner(node: R.BodyNode, cells: Cells, line: nat, p: nat)
    requires Word(node.name) && (node.Block? ==> Words(node.children)) && p < |NodeText(node, cells, "")|
    ensures |NodeOwners(node, cells)| == |NodeText(node, cells, "")|
    ensures FindCol(NodeSpans(node, cells, line), line + Newlines(NodeText(node, cells, "")[..p])) == Some(NodeOwners(node, cells)[p])
    decreases node, 0
  {
    hide NodeText, BodyText, CellLine, Opening, Word, Words, Newlines;
    NodeLength(node, cells);
    match node
    case Cell(name, col) =>
      CellPiece(name, cells, col);
      CellLineLines(name, cells, col);
    case Block(name, ch) =>
      hide Spans, Owners, FindCol;
      BlockPiece(name, ch, cells);
      BlockOwner(name, ch, cells, line, p);
  }

  lemma {:induction false} BlockOwner(name: string, ch: seq<R.BodyNode>, cells: Cells, line: nat, p: nat)
    requires Word(name) && Words(ch) && p < |Opening(name) + BodyText(ch, cells, "") + CLOSING|
    ensures |Owners(ch, cells)| == |BodyText(ch, cells, "")|
    ensures var block := R.Block(name, ch);
            |NodeOwners(block, cells)| == |Opening(name) + BodyText(ch, cells, "") + CLOSING|
            && FindCol(NodeSpans(block, cells, line), line + Newlines((Opening(name) + BodyText(ch, cells, "") + CLOSING)[..p]))
               == Some(NodeOwners(block, cells)[p])
    decreases ch, 1
  {
    hide NodeText, BodyText, Word, Words, Newlines, Spans, Owners, Opening, Lines;
    var open, body := Opening(name), BodyText(ch, cells, "");
    var text := open + body + CLOSING;
    OwnersLength(ch, cells);
    BodyLines(ch, cells);
    SpansBounds(ch, cells, line + 1);
    OpeningLines(name);
    var inner, outer := Spans(ch, cells, line + 1), Span(FirstCol(ch), line, line + 1 + Lines(ch, cells));
    var at := line + Newlines(text[..p]);
    FindLater(inner, [outer], at);
    if p < |open| {
      OpeningAt(name, body + CLOSING, p);
      assert text == open + (body + CLOSING);
      FindNone(inner, line + 1, line + 1 + Lines(ch, cells), at);
    } else if p < |open| + |body| {
      var q := p - |open|;
      assert text[..p] == open + body[..q];
      NewlinesAppend(open, body[..q]);
      BodyOwner(ch, cells, line + 1, q);
    } else {
      ClosingAt(open + body, p);
      NewlinesAppend(open, body);
      FindNone(inner, line + 1, line + 1 + Lines(ch, cells), at);
    }
  }

  lemma OpeningAt(name: string, rest: string, p: nat)
    requires Word(name) && p < |Opening(name)|
    ensures Newlines((Opening(name) + rest)[..p]) == 0
  {
    OpeningLines(name);
    assert (Opening(name) + rest)[..p] == (name + " {")[..p];
    FewerLines(name + " {", p);
  }

  lemma ClosingAt(before: string, p: nat)
    requires |before| <= p < |before + CLOSING|
    ensures Newlines((before + CLOSING)[..p]) == Newlines(before)
  {
    var q := p - |before|;
    assert (before + CLOSING)[..p] == before + CLOSING[..q];
    NewlinesAppend(before, CLOSING[..q]);
    NoNewlines(CLOSING[..q]);
  }

  // The whole body.

  /** The line of a position, the first being 1. */
  function LineOf(text: string, p: nat): nat
    requires p <= |text|
  {
    1 + Newlines(text[..p])
  }

  function BodySpans(cols: seq<string>, cells: Cells): seq<Span>
    requires |cells| == |cols|
  {
    Spans(R.Build(cols, FilledIn(cells), |cols|), cells, 2)
  }

  /** An error at any character past the first line of a row's body names the column
      that character is written for; one on the first line, or past the last, names
      none. */
  lemma ErrorsNameColumns(cols: seq<string>, cells: Cells, p: nat)
    requires |cells| == |cols| && p <= |RowBodyText(cols, cells)|
    requires forall i :: 0 <= i < |cols| ==> AllWords(ColumnPaths.Segments(cols[i]))
    ensures var owners := Owners(R.Build(cols, FilledIn(cells), |cols|), cells);
            && |owners| + 1 == |RowBodyText(cols, cells)|
            && FindCol(BodySpans(cols, cells), LineOf(RowBodyText(cols, cells), p))
               == if 0 < p < |RowBodyText(cols, cells)| then Some(owners[p - 1]) else None
  {
    hide BodyText, Spans, Owners, Lines, SpansIn, Words, AllWords, R.Build, FindCol, Newlines, ColumnPaths.Segments;
    var tree := R.Build(cols, FilledIn(cells), |cols|);
    var body := BodyText(tree, cells, "");
    BuildWords(cols, FilledIn(cells), |cols|);
    OwnersLength(tree, cells);
    BodyLines(tree, cells);
    SpansBounds(tree, cells, 2);
    var text := "\n" + body;
    if p == 0 {
      NoNewlines(text[..0]);
      FindNone(Spans(tree, cells, 2), 2, 2 + Lines(tree, cells), 1);
    } else {
      assert text[..p] == "\n" + body[..p - 1];
      NewlinesAppend("\n", body[..p - 1]);
      OneNewline();
      if p < |text| {
        BodyOwner(tree, cells, 2, p - 1);
      } else {
        assert body[..p - 1] == body;
        FindNone(Spans(tree, cells, 2), 2, 2 + Lines(tree, cells), 2 + Lines(tree, cells));
      }
    }
  }

  lemma OneNewline()
    ensures Newlines("\n") == 1
  {
    assert "\n"[1..] == "";
  }
}
