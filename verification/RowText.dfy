/** The text of a row's body: what it parses as, and the column each of its lines
    belongs to. */
module RowText {
  import opened Options
  import opened Lexing
  import opened LexFacts
  import opened Syntax
  import opened SyntaxText
  import opened SyntaxTheorems
  import R = RowBody
  import ColumnPaths

  type Cells = seq<Option<Value>>

  function FilledIn(cells: Cells): (f: seq<bool>)
    ensures |f| == |cells|
  {
    seq(|cells|, i requires 0 <= i < |cells| => cells[i].Some?)
  }

  /** The cell of a column; null where there is none. */
  function CellOf(cells: Cells, col: nat): Value {
    if col < |cells| && cells[col].Some? then cells[col].value else NullVal
  }

  // The text, and the entries it stands for.

  function BodyText(ch: seq<R.BodyNode>, cells: Cells, tail: string): string
    decreases ch
  {
    if ch == [] then tail else NodeText(ch[0], cells, BodyText(ch[1..], cells, tail))
  }

  function NodeText(node: R.BodyNode, cells: Cells, tail: string): string
    decreases node
  {
    match node
    case Cell(name, col) => EntryText("  ", Assignment(name, false, CellOf(cells, col)), 0, tail)
    case Block(name, ch) => NameText(name, false, " " + ("{" + ("\n" + BodyText(ch, cells, "}" + ("\n" + tail)))))
  }

  function EntriesOf(ch: seq<R.BodyNode>, cells: Cells): (r: seq<Entry>)
    ensures |r| == |ch|
    decreases ch
  {
    if ch == [] then [] else [EntryOf(ch[0], cells)] + EntriesOf(ch[1..], cells)
  }

  function EntryOf(node: R.BodyNode, cells: Cells): (e: Entry)
    decreases node
  {
    match node
    case Cell(name, col) => Assignment(name, false, CellOf(cells, col))
    case Block(name, ch) => Block(name, false, EntriesOf(ch, cells))
  }

  /** bind's document: an empty first line, and the row's tree. */
  function RowBodyText(cols: seq<string>, cells: Cells): string
    requires |cells| == |cols|
  {
    "\n" + BodyText(R.Build(cols, FilledIn(cells), |cols|), cells, "")
  }

  // Names and values.

  /** A field's name: no keyword, for a schema with a field so named is refused. */
  predicate Word(name: string) {
    && name != "" && IdentStart(name[0]) && (forall k :: 0 <= k < |name| ==> IdentPart(name[k]))
    && name !in {"true", "false", "null"}
  }

  predicate Words(ch: seq<R.BodyNode>)
    decreases ch
  {
    forall i :: 0 <= i < |ch| ==> Word(ch[i].name) && (ch[i].Block? ==> Words(ch[i].children))
  }

  ghost predicate ProperCells(c: Config, cells: Cells, deep: nat) {
    forall i :: 0 <= i < |cells| && cells[i].Some? ==> Proper(c, cells[i].value, deep)
  }

  /** What parse_row_cell read is what parse_value made of the lexer's tokens. */
  ghost predicate ParsedCell(c: Config, v: Value, deep: nat) {
    exists ts :: Sound(c, ts) && ParseValue(ts, deep).Some? && ParseValue(ts, deep).value.node == v
  }

  ghost predicate ParsedCells(c: Config, cells: Cells, deep: nat) {
    forall i :: 0 <= i < |cells| && cells[i].Some? ==> ParsedCell(c, cells[i].value, deep)
  }

  lemma ParsedProper(c: Config, cells: Cells, deep: nat)
    requires ParsedCells(c, cells, deep)
    ensures ProperCells(c, cells, deep)
  {
    hide Sound, ParseValue, Proper;
    forall i | 0 <= i < |cells| && cells[i].Some? ensures Proper(c, cells[i].value, deep) {
      assert ParsedCell(c, cells[i].value, deep);
      var ts :| Sound(c, ts) && ParseValue(ts, deep).Some? && ParseValue(ts, deep).value.node == cells[i].value;
      ValueProper(c, ts, deep);
    }
  }

  lemma WordProper(c: Config, name: string)
    requires Word(name)
    ensures ProperName(c, name, false) && BareKind(name) == Ident
  {
    WordToken(c, name);
    hide LexAt;
    assert LexAt(c, name).token == NameToken(name, false);
  }

  lemma NullProper(c: Config, deep: nat)
    ensures Proper(c, NullVal, deep)
  {
    WordToken(c, "null");
    hide LexAt;
    assert LexAt(c, "null").token == ValueToken(NullVal);
  }

  lemma CellProper(c: Config, cells: Cells, deep: nat, col: nat)
    requires ProperCells(c, cells, deep)
    ensures Proper(c, CellOf(cells, col), deep)
  {
    NullProper(c, deep);
    hide Proper;
  }

  // A value is proper in more room, and under other limits.

  predicate Scalar(t: Token) {
    t.kind in {Ident, Int, Float, Bool, Null, TimestampLit, DurationLit}
  }

  lemma ScalarAnywhere(c: Config, c': Config, t: Token)
    requires Produced(c, t) && Scalar(t)
    ensures Produced(c', t)
  {
    var s :| s != "" && LexAt(c, s).token == t;
    SameScalar(c, c', s);
    hide LexAt;
    assert LexAt(c', s).token == t;
  }

  lemma SameScalar(c: Config, c': Config, s: string)
    requires s != "" && Scalar(LexAt(c, s).token)
    ensures LexAt(c', s) == LexAt(c, s)
  {
    NoScalar(c, s);
    hide LexNumber, LexIdent, LexDirective, LexString, LexTriple, LexBytes, CommentEnd, LineEnd, Punctuation;
  }

  lemma NoScalar(c: Config, s: string)
    requires s != ""
    ensures At(s, 0) == '"' && At(s, 1) == '"' && At(s, 2) == '"' ==> !Scalar(LexTriple(c, s).token)
    ensures At(s, 0) == 'b' && At(s, 1) == '"' ==> !Scalar(LexBytes(c, s).token)
  {}

  lemma {:induction false} ProperMore(c: Config, c': Config, v: Value, deep: nat, more: nat)
    requires Proper(c, v, deep) && deep <= more
    ensures Proper(c', v, more)
    decreases v, 0
  {
    hide Produced, ProperEntry, IsUtf8, AllOctets;
    match v
    case ListVal(vs) =>
      forall i | 0 <= i < |vs| ensures Proper(c', vs[i], more - 1) {
        ProperMore(c, c', vs[i], deep - 1, more - 1);
      }
    case BlockVal(es) => BodyMore(c, c', es, deep - 1, more - 1);
    case StringVal(_) =>
    case BytesVal(_) =>
    case _ => ScalarAnywhere(c, c', ValueToken(v));
  }

  lemma {:induction false} EntryMore(c: Config, c': Config, e: Entry, deep: nat, more: nat)
    requires ProperEntry(c, e, deep) && deep <= more
    ensures ProperEntry(c', e, more)
    decreases e, 0
  {
    hide Produced, Proper, IsUtf8;
    match e
    case Assignment(key, quoted, v) =>
      NameMore(c, c', key, quoted);
      ProperMore(c, c', v, deep, more);
    case MapEntry(key, quoted, v) =>
      NameMore(c, c', key, quoted);
      ProperMore(c, c', v, deep, more);
    case Block(name, quoted, es) =>
      NameMore(c, c', name, quoted);
      BodyMore(c, c', es, deep - 1, more - 1);
    case TypeEntry(_) =>
  }

  lemma NameMore(c: Config, c': Config, name: string, quoted: bool)
    requires ProperName(c, name, quoted)
    ensures ProperName(c', name, quoted)
  {
    hide Produced;
    if !quoted {
      ScalarAnywhere(c, c', NameToken(name, false));
    }
  }

  lemma {:induction false} BodyMore(c: Config, c': Config, es: seq<Entry>, deep: nat, more: nat)
    requires ProperBody(c, es, deep) && deep <= more
    ensures ProperBody(c', es, more)
    decreases es, 1
  {
    hide ProperEntry;
    forall i | 0 <= i < |es| ensures ProperEntry(c', es[i], more) {
      EntryMore(c, c', es[i], deep, more);
    }
  }

  lemma CellsMore(c: Config, c': Config, cells: Cells, deep: nat, more: nat)
    requires ProperCells(c, cells, deep) && deep <= more
    ensures ProperCells(c', cells, more)
  {
    hide Proper;
    forall i | 0 <= i < |cells| && cells[i].Some? ensures Proper(c', cells[i].value, more) {
      ProperMore(c, c', cells[i].value, deep, more);
    }
  }

  /** How deep the blocks of a tree nest. */
  function Height(ch: seq<R.BodyNode>): nat
    decreases ch
  {
    if ch == [] then 0
    else
      var first := if ch[0].Block? then 1 + Height(ch[0].children) else 0;
      var rest := Height(ch[1..]);
      if first > rest then first else rest
  }

  lemma {:induction false} RowProper(c: Config, ch: seq<R.BodyNode>, cells: Cells, deep: nat, room: nat)
    requires Words(ch) && ProperCells(c, cells, deep) && deep + Height(ch) <= room
    ensures ProperBody(c, EntriesOf(ch, cells), room)
    decreases ch
  {
    hide ProperCells, Proper, ProperEntry;
    if ch != [] {
      RowProper(c, ch[1..], cells, deep, room);
      NodeProper(c, ch[0], cells, deep, room);
    }
  }

  lemma {:induction false} NodeProper(c: Config, node: R.BodyNode, cells: Cells, deep: nat, room: nat)
    requires Word(node.name) && ProperCells(c, cells, deep)
    requires if node.Block? then Words(node.children) && deep + 1 + Height(node.children) <= room else deep <= room
    ensures ProperEntry(c, EntryOf(node, cells), room) && !EntryOf(node, cells).TypeEntry?
    decreases node
  {
    hide Proper, ProperCells, ProperName, Words, Word;
    WordProper(c, node.name);
    match node
    case Cell(name, col) =>
      CellProper(c, cells, deep, col);
      ProperMore(c, c, CellOf(cells, col), deep, room);
    case Block(name, ch) =>
      RowProper(c, ch, cells, deep, room - 1);
  }

  // The tokens of the text.

  lemma {:induction false} BodyLex(c: Config, ch: seq<R.BodyNode>, cells: Cells, deep: nat, tail: string)
    requires ProperBody(c, EntriesOf(ch, cells), deep) && EntriesFit(c, EntriesOf(ch, cells))
    ensures Tokens(c, BodyText(ch, cells, tail)) == EntriesTokens(EntriesOf(ch, cells), Tokens(c, tail))
    decreases ch
  {
    hide Tokens, ProperEntry, EntryFits, NodeText, EntryTokens, EntryOf;
    if ch != [] {
      var es := EntriesOf(ch, cells);
      assert es[0] == EntryOf(ch[0], cells) && es[1..] == EntriesOf(ch[1..], cells);
      BodyLex(c, ch[1..], cells, deep, tail);
      NodeLex(c, ch[0], cells, deep, BodyText(ch[1..], cells, tail));
    }
  }

  lemma {:induction false} NodeLex(c: Config, node: R.BodyNode, cells: Cells, deep: nat, tail: string)
    requires ProperEntry(c, EntryOf(node, cells), deep) && EntryFits(c, EntryOf(node, cells))
    ensures Tokens(c, NodeText(node, cells, tail)) == EntryTokens(EntryOf(node, cells), Tokens(c, tail))
    decreases node
  {
    hide Tokens, EntryText, BytesFit, ProperName, NameText, NameToken, Proper, EntriesFit;
    match node
    case Cell(name, col) => EntryLex(c, "  ", EntryOf(node, cells), 0, deep, tail);
    case Block(name, ch) =>
      var close := "}" + ("\n" + tail);
      BodyLex(c, ch, cells, deep - 1, close);
      OpenedLex(c, name, false, BodyText(ch, cells, close));
      Mark(c, '}', "\n" + tail);
      LineBreak(c, tail);
  }

  lemma {:induction false} UnfitBody(c: Config, ch: seq<R.BodyNode>, cells: Cells, deep: nat, tail: string)
    requires ProperBody(c, EntriesOf(ch, cells), deep) && !EntriesFit(c, EntriesOf(ch, cells))
    ensures HasIllegal(Tokens(c, BodyText(ch, cells, tail)))
    decreases ch
  {
    hide Tokens, ProperEntry, EntryFits, NodeText, EntryTokens, EntryOf, HasIllegal;
    var es := EntriesOf(ch, cells);
    assert ch != [] && es[0] == EntryOf(ch[0], cells) && es[1..] == EntriesOf(ch[1..], cells);
    var rest := BodyText(ch[1..], cells, tail);
    if EntryFits(c, es[0]) {
      UnfitBody(c, ch[1..], cells, deep, tail);
      NodeLex(c, ch[0], cells, deep, rest);
      EntryIllegal(es[0], Tokens(c, rest));
    } else {
      UnfitNode(c, ch[0], cells, deep, rest);
    }
  }

  lemma {:induction false} UnfitNode(c: Config, node: R.BodyNode, cells: Cells, deep: nat, tail: string)
    requires ProperEntry(c, EntryOf(node, cells), deep) && !EntryFits(c, EntryOf(node, cells))
    ensures HasIllegal(Tokens(c, NodeText(node, cells, tail)))
    decreases node
  {
    hide Tokens, EntryText, BytesFit, ProperName, NameText, NameToken, Proper, EntriesFit, HasIllegal;
    match node
    case Cell(name, col) => UnfitEntry(c, "  ", EntryOf(node, cells), 0, deep, tail);
    case Block(name, ch) =>
      UnfitBody(c, ch, cells, deep - 1, "}" + ("\n" + tail));
      IllegalBlock(c, name, false, BodyText(ch, cells, "}" + ("\n" + tail)));
  }

  // Reading a path.

  /** What a path of names leads to. */
  function Lookup(es: seq<Entry>, path: seq<string>): Option<Value>
    requires path != []
    decreases es
  {
    if es == [] then None
    else
      match es[0]
      case Assignment(key, _, v) =>
        if key != path[0] then Lookup(es[1..], path) else if |path| == 1 then Some(v) else None
      case Block(name, _, inner) =>
        if name != path[0] then Lookup(es[1..], path) else if |path| == 1 then None else Lookup(inner, path[1..])
      case _ => Lookup(es[1..], path)
  }

  lemma {:induction false} UnderAt(name: string, leaves: seq<R.Leaf>, k: nat)
    requires k < |leaves|
    ensures R.Under(name, leaves)[k] == R.Leaf([name] + leaves[k].path, leaves[k].col)
    decreases k
  {
    if k > 0 {
      UnderAt(name, leaves[1..], k - 1);
    }
  }

  lemma {:induction false} LeafNamed(ch: seq<R.BodyNode>, k: nat) returns (i: nat)
    requires k < |R.Leaves(ch)|
    ensures i < |ch| && R.Leaves(ch)[k].path != [] && R.Leaves(ch)[k].path[0] == ch[i].name
    decreases ch
  {
    hide R.Under;
    var first := R.NodeLeaves(ch[0]);
    if k < |first| {
      i := 0;
      if ch[0].Block? {
        UnderAt(ch[0].name, R.Leaves(ch[0].children), k);
      }
    } else {
      i := LeafNamed(ch[1..], k - |first|);
      i := i + 1;
    }
  }

  lemma PathsNamed(ch: seq<R.BodyNode>)
    ensures forall k :: 0 <= k < |R.Leaves(ch)| ==> R.Leaves(ch)[k].path != []
  {
    hide R.Leaves;
    forall k | 0 <= k < |R.Leaves(ch)| ensures R.Leaves(ch)[k].path != [] {
      var i := LeafNamed(ch, k);
    }
  }

  /** Where names are bound once, every cell is found at its path. */
  lemma {:induction false} LookupFinds(ch: seq<R.BodyNode>, cells: Cells, k: nat)
    requires R.NamesApart(ch) && k < |R.Leaves(ch)|
    ensures var leaf := R.Leaves(ch)[k];
            leaf.path != [] && Lookup(EntriesOf(ch, cells), leaf.path) == Some(CellOf(cells, leaf.col))
    decreases ch
  {
    hide R.Under, CellOf;
    var es := EntriesOf(ch, cells);
    var i := LeafNamed(ch, k);
    assert es[0] == EntryOf(ch[0], cells) && es[1..] == EntriesOf(ch[1..], cells);
    var leaf, first := R.Leaves(ch)[k], R.NodeLeaves(ch[0]);
    if k >= |first| {
      var j := LeafNamed(ch[1..], k - |first|);
      assert ch[0].name != ch[j + 1].name;
      LookupFinds(ch[1..], cells, k - |first|);
    } else if ch[0].Block? {
      var inner := R.Leaves(ch[0].children);
      UnderAt(ch[0].name, inner, k);
      LookupFinds(ch[0].children, cells, k);
      assert leaf.path[1..] == inner[k].path;
    }
  }

  /** Whatever is found is a cell at that path. */
  lemma {:induction false} LookupIs(ch: seq<R.BodyNode>, cells: Cells, path: seq<string>) returns (k: nat)
    requires path != [] && Lookup(EntriesOf(ch, cells), path).Some?
    ensures k < |R.Leaves(ch)| && R.Leaves(ch)[k].path == path
    decreases ch
  {
    hide R.Under, CellOf;
    var es := EntriesOf(ch, cells);
    assert es[0] == EntryOf(ch[0], cells) && es[1..] == EntriesOf(ch[1..], cells);
    if ch[0].name != path[0] {
      k := LookupIs(ch[1..], cells, path);
      k := k + |R.NodeLeaves(ch[0])|;
    } else if ch[0].Cell? {
      k := 0;
    } else {
      k := LookupIs(ch[0].children, cells, path[1..]);
      UnderAt(ch[0].name, R.Leaves(ch[0].children), k);
    }
  }

  function UnquotedCells(cells: Cells): (r: Cells)
    ensures |r| == |cells|
  {
    seq(|cells|, i requires 0 <= i < |cells| => if cells[i].Some? then Some(Unquoted(cells[i].value)) else None)
  }

  lemma {:induction false} UnquotedRow(ch: seq<R.BodyNode>, cells: Cells)
    ensures UnquotedEntries(EntriesOf(ch, cells)) == EntriesOf(ch, UnquotedCells(cells))
    decreases ch
  {
    hide UnquotedCells;
    if ch != [] {
      UnquotedRow(ch[1..], cells);
      var es := EntriesOf(ch, cells);
      assert es[0] == EntryOf(ch[0], cells) && es[1..] == EntriesOf(ch[1..], cells);
      match ch[0]
      case Cell(name, col) => UnquotedCell(cells, col);
      case Block(name, inner) => UnquotedRow(inner, cells);
    }
  }

  lemma UnquotedCell(cells: Cells, col: nat)
    ensures Unquoted(CellOf(cells, col)) == CellOf(UnquotedCells(cells), col)
  {}

  // Which rows are read.

  /** A cell at a path is within the limits. */
  predicate LeafReads(c: Config, cells: Cells, leaf: R.Leaf, room: nat) {
    var v := CellOf(cells, leaf.col);
    0 < |leaf.path| <= room + 1 && BytesFit(c, v) && Within(v, room + 1 - |leaf.path|)
  }

  predicate LeavesRead(c: Config, cells: Cells, leaves: seq<R.Leaf>, room: nat) {
    forall k :: 0 <= k < |leaves| ==> LeafReads(c, cells, leaves[k], room)
  }

  lemma ReadTogether(c: Config, cells: Cells, a: seq<R.Leaf>, b: seq<R.Leaf>, room: nat)
    ensures LeavesRead(c, cells, a + b, room) <==> LeavesRead(c, cells, a, room) && LeavesRead(c, cells, b, room)
  {
    hide LeafReads;
    var all := a + b;
    if LeavesRead(c, cells, all, room) {
      forall k | 0 <= k < |a| ensures LeafReads(c, cells, a[k], room) {
        assert all[k] == a[k];
      }
      forall k | 0 <= k < |b| ensures LeafReads(c, cells, b[k], room) {
        assert all[|a| + k] == b[k];
      }
    }
  }

  /** The limits of a tree's entries are those of its cells. */
  lemma {:induction false} BodyReads(c: Config, ch: seq<R.BodyNode>, cells: Cells, room: nat)
    requires R.OneBlockEach(ch)
    ensures EntriesFit(c, EntriesOf(ch, cells)) && EntriesWithin(EntriesOf(ch, cells), room)
       <==> LeavesRead(c, cells, R.Leaves(ch), room)
    decreases ch
  {
    hide LeavesRead, EntryFits, EntryWithin, EntryOf, R.NodeLeaves;
    if ch == [] {
      assert LeavesRead(c, cells, [], room) by { NoLeaves(c, cells, room); }
    } else {
      var es := EntriesOf(ch, cells);
      assert es[0] == EntryOf(ch[0], cells) && es[1..] == EntriesOf(ch[1..], cells);
      FirstWithin(es, room);
      FirstFits(c, es);
      BodyReads(c, ch[1..], cells, room);
      NodeReads(c, ch[0], cells, room);
      ReadTogether(c, cells, R.NodeLeaves(ch[0]), R.Leaves(ch[1..]), room);
    }
  }

  lemma NoLeaves(c: Config, cells: Cells, room: nat)
    ensures LeavesRead(c, cells, [], room)
  {}

  lemma FirstFits(c: Config, es: seq<Entry>)
    requires es != []
    ensures EntriesFit(c, es) <==> EntryFits(c, es[0]) && EntriesFit(c, es[1..])
  {
    hide BytesFit;
    forall i | 0 <= i < |es| && i > 0 ensures es[i] == es[1..][i - 1] {}
  }

  lemma {:induction false} NodeReads(c: Config, node: R.BodyNode, cells: Cells, room: nat)
    requires node.Block? ==> node.children != [] && R.OneBlockEach(node.children)
    ensures EntryFits(c, EntryOf(node, cells)) && EntryWithin(EntryOf(node, cells), room)
       <==> LeavesRead(c, cells, R.NodeLeaves(node), room)
    decreases node
  {
    hide CellOf, R.Under, BytesFit, Within;
    match node
    case Cell(name, col) =>
      OneLeaf(c, cells, R.Leaf([name], col), room);
    case Block(name, ch) =>
      hide LeavesRead;
      PathsNamed(ch);
      if room > 0 {
        BodyReads(c, ch, cells, room - 1);
        DeeperReads(c, cells, name, R.Leaves(ch), room);
      } else {
        SomeLeaf(ch);
        NoRoom(c, cells, name, R.Leaves(ch));
      }
  }

  lemma OneLeaf(c: Config, cells: Cells, leaf: R.Leaf, room: nat)
    ensures LeavesRead(c, cells, [leaf], room) <==> LeafReads(c, cells, leaf, room)
  {
    hide LeafReads;
    assert [leaf][0] == leaf;
  }

  lemma {:induction false} SomeLeaf(ch: seq<R.BodyNode>)
    requires ch != [] && R.OneBlockEach(ch)
    ensures R.Leaves(ch) != []
    decreases ch
  {
    if ch[0].Block? {
      SomeLeaf(ch[0].children);
    }
  }

  lemma DeeperReads(c: Config, cells: Cells, name: string, leaves: seq<R.Leaf>, room: nat)
    requires room > 0 && forall k :: 0 <= k < |leaves| ==> leaves[k].path != []
    ensures LeavesRead(c, cells, leaves, room - 1) <==> LeavesRead(c, cells, R.Under(name, leaves), room)
  {
    hide R.Under, CellOf, BytesFit, Within;
    var under := R.Under(name, leaves);
    forall k | 0 <= k < |leaves| ensures LeafReads(c, cells, leaves[k], room - 1) <==> LeafReads(c, cells, under[k], room) {
      UnderAt(name, leaves, k);
    }
    hide LeafReads;
  }

  lemma NoRoom(c: Config, cells: Cells, name: string, leaves: seq<R.Leaf>)
    requires leaves != [] && leaves[0].path != []
    ensures !LeavesRead(c, cells, R.Under(name, leaves), 0)
  {
    UnderAt(name, leaves, 0);
    assert !LeafReads(c, cells, R.Under(name, leaves)[0], 0);
  }

  // The row.

  /** A cell is within the limits where its column's path puts it. */
  predicate CellReads(c: Config, cols: seq<string>, cells: Cells, i: nat, maxDepth: nat)
    requires i < |cols|
  {
    var blocks := |ColumnPaths.Segments(cols[i])| - 1;
    blocks <= maxDepth && BytesFit(c, CellOf(cells, i)) && Within(CellOf(cells, i), maxDepth - blocks)
  }

  predicate AllWords(segs: seq<string>) {
    forall k :: 0 <= k < |segs| ==> Word(segs[k])
  }

  predicate RowReadable(c: Config, cols: seq<string>, cells: Cells, maxDepth: nat)
    requires |cells| == |cols|
  {
    forall i :: 0 <= i < |cols| && cells[i].Some? ==> CellReads(c, cols, cells, i, maxDepth)
  }

  lemma {:induction false} InsertWords(ch: seq<R.BodyNode>, segs: seq<string>, col: nat)
    requires segs != [] && Words(ch) && AllWords(segs)
    ensures Words(R.Insert(ch, segs, col))
    decreases |segs|
  {
    hide Word;
    if |segs| > 1 {
      var i := R.FindBlock(ch, segs[0]);
      InsertWords(if i < |ch| then ch[i].children else [], segs[1..], col);
    }
  }

  lemma {:induction false} BuildWords(cols: seq<string>, filled: seq<bool>, n: nat)
    requires |filled| == |cols| && n <= |cols| && forall i :: 0 <= i < |cols| ==> AllWords(ColumnPaths.Segments(cols[i]))
    ensures Words(R.Build(cols, filled, n))
    decreases n
  {
    hide Words, AllWords, R.Insert, ColumnPaths.Segments;
    if n > 0 {
      BuildWords(cols, filled, n - 1);
      if filled[n - 1] {
        InsertWords(R.Build(cols, filled, n - 1), ColumnPaths.Segments(cols[n - 1]), n - 1);
      }
    } else {
      NoWords();
    }
  }

  lemma NoWords()
    ensures Words([])
  {}

  lemma {:induction false} WantedHas(cols: seq<string>, filled: seq<bool>, n: nat, i: nat)
    requires |filled| == |cols| && i < n <= |cols| && filled[i]
    ensures R.Leaf(ColumnPaths.Segments(cols[i]), i) in multiset(R.Wanted(cols, filled, n))
    decreases n
  {
    hide ColumnPaths.Segments;
    if i < n - 1 {
      WantedHas(cols, filled, n - 1, i);
    }
  }

  lemma {:induction false} WantedFilled(cols: seq<string>, filled: seq<bool>, n: nat, x: R.Leaf)
    requires |filled| == |cols| && n <= |cols| && x in multiset(R.Wanted(cols, filled, n))
    ensures x.col < n && filled[x.col] && x.path == ColumnPaths.Segments(cols[x.col])
    decreases n
  {
    hide ColumnPaths.Segments;
    if n > 0 {
      var last := if filled[n - 1] then [R.Leaf(ColumnPaths.Segments(cols[n - 1]), n - 1)] else [];
      if x !in multiset(last) {
        WantedFilled(cols, filled, n - 1, x);
      }
    }
  }

  /** The cells of the tree are the filled columns. */
  lemma LeafOf(cols: seq<string>, filled: seq<bool>, i: nat) returns (k: nat)
    requires |filled| == |cols| && i < |cols| && filled[i]
    ensures var leaves := R.Leaves(R.Build(cols, filled, |cols|));
            k < |leaves| && leaves[k] == R.Leaf(ColumnPaths.Segments(cols[i]), i)
  {
    hide R.Leaves, R.Build, R.Wanted, ColumnPaths.Segments;
    R.EachCellOnce(cols, filled, |cols|);
    WantedHas(cols, filled, |cols|, i);
    k := R.IndexIn(R.Leaves(R.Build(cols, filled, |cols|)), R.Leaf(ColumnPaths.Segments(cols[i]), i));
  }

  lemma ColumnOf(cols: seq<string>, filled: seq<bool>, k: nat)
    requires |filled| == |cols| && k < |R.Leaves(R.Build(cols, filled, |cols|))|
    ensures var x := R.Leaves(R.Build(cols, filled, |cols|))[k];
            x.col < |cols| && filled[x.col] && x.path == ColumnPaths.Segments(cols[x.col])
  {
    hide R.Leaves, R.Build, R.Wanted, ColumnPaths.Segments;
    R.EachCellOnce(cols, filled, |cols|);
    var leaves := R.Leaves(R.Build(cols, filled, |cols|));
    assert leaves[k] in multiset(leaves);
    WantedFilled(cols, filled, |cols|, leaves[k]);
  }

  lemma LeavesReadable(c: Config, cols: seq<string>, cells: Cells, maxDepth: nat)
    requires |cells| == |cols|
    ensures LeavesRead(c, cells, R.Leaves(R.Build(cols, FilledIn(cells), |cols|)), maxDepth)
       <==> RowReadable(c, cols, cells, maxDepth)
  {
    hide R.Leaves, R.Build, ColumnPaths.Segments, BytesFit, Within, CellOf;
    var leaves := R.Leaves(R.Build(cols, FilledIn(cells), |cols|));
    if RowReadable(c, cols, cells, maxDepth) {
      forall k | 0 <= k < |leaves| ensures LeafReads(c, cells, leaves[k], maxDepth) {
        ColumnOf(cols, FilledIn(cells), k);
        assert CellReads(c, cols, cells, leaves[k].col, maxDepth);
      }
    }
    if LeavesRead(c, cells, leaves, maxDepth) {
      forall i | 0 <= i < |cols| && cells[i].Some? ensures CellReads(c, cols, cells, i, maxDepth) {
        var k := LeafOf(cols, FilledIn(cells), i);
        assert LeafReads(c, cells, leaves[k], maxDepth);
      }
    }
  }

  /** What a row's text parses as, when its cells were read under the limits of its
      stream: its tree's entries, unless the text is past the size limit, or a cell is
      past the limits of this parse where its path puts it. */
  lemma RowParses(c: Config, stream: Config, cols: seq<string>, cells: Cells, deep: nat, maxDepth: nat)
    requires |cells| == |cols| && ParsedCells(stream, cells, deep)
    requires forall i :: 0 <= i < |cols| ==> AllWords(ColumnPaths.Segments(cols[i]))
    ensures var tree := R.Build(cols, FilledIn(cells), |cols|);
            Parse(c, RowBodyText(cols, cells), maxDepth)
            == if |RowBodyText(cols, cells)| <= c.maxSize && RowReadable(c, cols, cells, maxDepth) then
                 Some(Document("", EntriesOf(tree, UnquotedCells(cells))))
               else None
  {
    hide *;
    var tree := R.Build(cols, FilledIn(cells), |cols|);
    var es := EntriesOf(tree, cells);
    var room := deep + Height(tree);
    ParsedProper(stream, cells, deep);
    CellsMore(stream, c, cells, deep, deep);
    BuildWords(cols, FilledIn(cells), |cols|);
    RowProper(c, tree, cells, deep, room);
    R.BuildKeepsBlocks(cols, FilledIn(cells), |cols|);
    BodyReads(c, tree, cells, maxDepth);
    LeavesReadable(c, cols, cells, maxDepth);
    UnquotedRow(tree, cells);
    TreeParses(c, tree, cells, room, maxDepth);
    ParsedText(c, cols, cells, maxDepth);
  }

  lemma ParsedText(c: Config, cols: seq<string>, cells: Cells, maxDepth: nat)
    requires |cells| == |cols|
    ensures var body := BodyText(R.Build(cols, FilledIn(cells), |cols|), cells, "");
            Parse(c, RowBodyText(cols, cells), maxDepth)
            == if |RowBodyText(cols, cells)| <= c.maxSize then ParseDocument(Tokens(c, body), "", maxDepth) else None
  {
    hide Tokens, ParseDocument, BodyText, R.Build;
    LineBreak(c, BodyText(R.Build(cols, FilledIn(cells), |cols|), cells, ""));
  }

  lemma TreeParses(c: Config, ch: seq<R.BodyNode>, cells: Cells, deep: nat, maxDepth: nat)
    requires ProperBody(c, EntriesOf(ch, cells), deep)
    ensures var es := EntriesOf(ch, cells);
            ParseDocument(Tokens(c, BodyText(ch, cells, "")), "", maxDepth)
            == if EntriesFit(c, es) && EntriesWithin(es, maxDepth) then Some(Document("", UnquotedEntries(es))) else None
  {
    hide *;
    var es := EntriesOf(ch, cells);
    if EntriesFit(c, es) {
      BodyLex(c, ch, cells, deep, "");
      NoTokens(c);
      RowDocument(c, ch, cells, deep);
      DocumentParse(c, Document("", es), deep, maxDepth);
    } else {
      UnfitBody(c, ch, cells, deep, "");
      DocumentStops(Tokens(c, BodyText(ch, cells, "")), "", maxDepth);
    }
  }

  lemma RowDocument(c: Config, ch: seq<R.BodyNode>, cells: Cells, deep: nat)
    requires ProperBody(c, EntriesOf(ch, cells), deep)
    ensures var d := Document("", EntriesOf(ch, cells));
            ProperDocument(c, d, deep) && DocumentTokens(d) == EntriesTokens(d.entries, [])
            && UnquotedDocument(d) == Document("", UnquotedEntries(d.entries))
  {
    hide ProperEntry, EntriesTokens, UnquotedEntries;
    RowKinds(ch, cells);
  }

  lemma {:induction false} RowKinds(ch: seq<R.BodyNode>, cells: Cells)
    ensures forall i :: 0 <= i < |ch| ==> EntriesOf(ch, cells)[i].Assignment? || EntriesOf(ch, cells)[i].Block?
    decreases ch
  {
    if ch != [] {
      RowKinds(ch[1..], cells);
    }
  }

  /** Every non-empty cell is what the parsed row has at its column's path, and no
      other path leads anywhere. */
  lemma RowReadsBack(c: Config, stream: Config, cols: seq<string>, cells: Cells, deep: nat, maxDepth: nat)
    requires |cells| == |cols| && ParsedCells(stream, cells, deep)
    requires forall i :: 0 <= i < |cols| ==> AllWords(ColumnPaths.Segments(cols[i])) && !ColumnPaths.Offends(cols, i)
    requires Parse(c, RowBodyText(cols, cells), maxDepth).Some?
    ensures var es := Parse(c, RowBodyText(cols, cells), maxDepth).value.entries;
            && (forall i :: 0 <= i < |cols| && cells[i].Some? ==>
                  Lookup(es, ColumnPaths.Segments(cols[i])) == Some(Unquoted(cells[i].value)))
            && (forall path :: path != [] && Lookup(es, path).Some? ==> AtColumn(cols, cells, path))
  {
    hide Parse, RowBodyText, R.Build, R.NamesApart, R.Leaves, Lookup, ColumnPaths.Segments, ColumnPaths.Offends, AllWords, RowReadable, Unquoted;
    var filled := FilledIn(cells);
    var tree := R.Build(cols, filled, |cols|);
    RowParses(c, stream, cols, cells, deep, maxDepth);
    R.NoNameTwice(cols, filled);
    var shown := UnquotedCells(cells);
    forall i | 0 <= i < |cols| && cells[i].Some?
      ensures Lookup(EntriesOf(tree, shown), ColumnPaths.Segments(cols[i])) == Some(Unquoted(cells[i].value)) {
      var k := LeafOf(cols, filled, i);
      LookupFinds(tree, shown, k);
    }
    forall path: seq<string> | path != [] && Lookup(EntriesOf(tree, shown), path).Some? ensures AtColumn(cols, cells, path) {
      var k := LookupIs(tree, shown, path);
      ColumnOf(cols, filled, k);
      var i := R.Leaves(tree)[k].col;
      assert cells[i].Some? && ColumnPaths.Segments(cols[i]) == path;
    }
  }

  predicate AtColumn(cols: seq<string>, cells: Cells, path: seq<string>)
    requires |cells| == |cols|
  {
    exists i :: 0 <= i < |cols| && cells[i].Some? && ColumnPaths.Segments(cols[i]) == path
  }
}
