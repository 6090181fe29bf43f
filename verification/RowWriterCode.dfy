/** The row writer as it runs: the body, the next line's number and the spans grow
    together. */
module RowWriterCode {
  import opened Options
  import opened Syntax
  import opened RowText
  import opened RowSpans
  import R = RowBody
  import ColumnPaths
  import FormatterCode

  /** Every cell of the tree is a non-empty one, and no block is empty. */
  predicate Writable(ch: seq<R.BodyNode>, cells: Cells)
    decreases ch
  {
    forall i :: 0 <= i < |ch| ==> WritableNode(ch[i], cells)
  }

  predicate WritableNode(node: R.BodyNode, cells: Cells)
    decreases node
  {
    match node
    case Cell(_, col) => col < |cells| && cells[col].Some?
    case Block(_, ch) => ch != [] && Writable(ch, cells)
  }

  lemma {:induction false} InsertWritable(ch: seq<R.BodyNode>, segs: seq<string>, col: nat, cells: Cells)
    requires segs != [] && Writable(ch, cells) && col < |cells| && cells[col].Some?
    ensures Writable(R.Insert(ch, segs, col), cells)
    decreases |segs|
  {
    if |segs| > 1 {
      var i := R.FindBlock(ch, segs[0]);
      if i < |ch| {
        assert WritableNode(ch[i], cells);
      }
      InsertWritable(if i < |ch| then ch[i].children else [], segs[1..], col, cells);
    }
  }

  class BodyWriter {
    const cells: Cells
    var body: string
    var line: nat
    var spans: seq<Span>

    /** The body starts with an empty line. */
    constructor (cells: Cells)
      ensures this.cells == cells && body == "\n" && line == 2 && spans == []
    {
      this.cells := cells;
      body, line, spans := "\n", 2, [];
    }

    /** write_row */
    method WriteRow(columns: seq<string>)
      requires |columns| == |cells|
      modifies this
      ensures var tree := R.Build(columns, FilledIn(cells), |columns|);
              body == old(body) + BodyText(tree, cells, "") && spans == old(spans) + Spans(tree, cells, old(line))
    {
      hide R.Insert, ColumnPaths.Segments, Writable;
      var root: seq<R.BodyNode> := [];
      NothingWritable(cells);
      for i := 0 to |columns|
        invariant root == R.Build(columns, FilledIn(cells), i) && Writable(root, cells)
        invariant body == old(body) && line == old(line) && spans == old(spans)
      {
        if cells[i].Some? {
          InsertWritable(root, ColumnPaths.Segments(columns[i]), i, cells);
          root := R.Insert(root, ColumnPaths.Segments(columns[i]), i);
        }
      }
      WriteBlock(root);
    }

    /** write_block */
    method WriteBlock(children: seq<R.BodyNode>)
      requires Writable(children, cells)
      modifies this
      ensures body == old(body) + BodyText(children, cells, "")
      ensures line == old(line) + Lines(children, cells)
      ensures spans == old(spans) + Spans(children, cells, old(line))
      decreases children
    {
      hide NodeText, NodeLines, NodeSpans;
      var i := 0;
      assert children[0..] == children;
      while i < |children|
        invariant i <= |children|
        invariant body + BodyText(children[i..], cells, "") == old(body) + BodyText(children, cells, "")
        invariant line + Lines(children[i..], cells) == old(line) + Lines(children, cells)
        invariant spans + Spans(children[i..], cells, line) == old(spans) + Spans(children, cells, old(line))
      {
        ghost var b, l, s := body, line, spans;
        NodeFirst(children[i..], cells);
        assert children[i..][0] == children[i] && children[i..][1..] == children[i + 1..];
        WriteNode(children[i]);
        Regroup(b, NodeText(children[i], cells, ""), BodyText(children[i + 1..], cells, ""));
        Regroup(s, NodeSpans(children[i], cells, l), Spans(children[i + 1..], cells, line));
        i := i + 1;
      }
      assert body + "" == body && spans + [] == spans;
    }

    /** One child of write_block. */
    method WriteNode(child: R.BodyNode)
      requires WritableNode(child, cells)
      modifies this
      ensures body == old(body) + NodeText(child, cells, "")
      ensures line == old(line) + NodeLines(child, cells)
      ensures spans == old(spans) + NodeSpans(child, cells, old(line))
      decreases child
    {
      hide BodyText, Lines, Spans, ValueShown;
      match child
      case Cell(name, col) =>
        WriteCell(name, col);
        CellPiece(name, cells, col);
      case Block(name, children) =>
        ghost var b, s := body, spans;
        var first := line;
        body := body + name;
        body := body + " {\n";
        line := line + 1;
        WriteBlock(children);
        body := body + "}\n";
        spans := spans + [Span(FirstCol(children), first, line)];
        line := line + 1;
        BlockPiece(name, children, cells);
        Pieces(b, name, BodyText(children, cells, ""));
        Regroup(s, Spans(children, cells, first + 1), [Span(FirstCol(children), first, line - 1)]);
    }

    /** write_cell */
    method WriteCell(name: string, col: nat)
      requires col < |cells| && cells[col].Some?
      modifies this
      ensures body == old(body) + CellLine(name, cells, col)
      ensures line == old(line) + 1 + Newlines(ValueShown(cells, col))
      ensures spans == old(spans) + [Span(col, old(line), old(line) + Newlines(ValueShown(cells, col)))]
    {
      hide ValueText, Newlines;
      var f := new FormatterCode.Formatter("  ");
      f.FormatValue(cells[col].value, 0);
      var text := f.out;
      assert text == ValueShown(cells, col);
      body := body + name;
      body := body + " = ";
      body := body + text;
      body := body + "\n";
      var last := line + Newlines(text);
      spans := spans + [Span(col, line, last)];
      line := last + 1;
    }
  }

  lemma NothingWritable(cells: Cells)
    ensures Writable([], cells)
  {}

  lemma Regroup<T>(a: seq<T>, b: seq<T>, c: seq<T>)
    ensures a + (b + c) == (a + b) + c
  {}

  lemma Pieces(before: string, name: string, body: string)
    ensures before + name + " {\n" + body + "}\n" == before + (Opening(name) + body + CLOSING)
  {}

  /** bind's body and spans. */
  method RowBodyOf(columns: seq<string>, cells: Cells) returns (body: string, spans: seq<Span>)
    requires |cells| == |columns|
    ensures body == RowBodyText(columns, cells) && spans == BodySpans(columns, cells)
  {
    hide BodyText, Spans, R.Build;
    var writer := new BodyWriter(cells);
    writer.WriteRow(columns);
    body, spans := writer.body, writer.spans;
  }

  /** at_row's search. */
  method ColumnOfLine(spans: seq<Span>, line: nat) returns (col: Option<nat>)
    ensures col == FindCol(spans, line)
  {
    var i := 0;
    assert spans[0..] == spans;
    while i < |spans|
      invariant i <= |spans| && FindCol(spans, line) == FindCol(spans[i..], line)
    {
      if spans[i].first <= line <= spans[i].last {
        return Some(spans[i].col);
      }
      i := i + 1;
    }
    col := None;
  }
}
