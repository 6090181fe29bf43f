/** The order of a row's body: cells and blocks stand in the order of their first
    columns. */
module RowOrder {
  import opened ColumnPaths
  import opened RowBody

  /** The column of the first cell. */
  function FirstColumn(node: BodyNode): nat
    decreases node
  {
    match node
    case Cell(_, col) => col
    case Block(_, ch) => if ch == [] then 0 else FirstColumn(ch[0])
  }

  /** Blocks are not empty, and at every level first columns rise. */
  predicate Ordered(ch: seq<BodyNode>)
    decreases ch
  {
    && (forall i :: 0 <= i < |ch| ==> OrderedNode(ch[i]))
    && forall i, j :: 0 <= i < j < |ch| ==> FirstColumn(ch[i]) < FirstColumn(ch[j])
  }

  predicate OrderedNode(node: BodyNode)
    decreases node
  {
    node.Block? ==> node.children != [] && Ordered(node.children)
  }

  /** Every column in the tree is below the bound. */
  predicate Below(ch: seq<BodyNode>, bound: nat)
    decreases ch
  {
    forall i :: 0 <= i < |ch| ==> NodeBelow(ch[i], bound)
  }

  predicate NodeBelow(node: BodyNode, bound: nat)
    decreases node
  {
    match node
    case Cell(_, col) => col < bound
    case Block(_, ch) => Below(ch, bound)
  }

  lemma {:induction false} FirstBelow(node: BodyNode, bound: nat)
    requires OrderedNode(node) && NodeBelow(node, bound)
    ensures FirstColumn(node) < bound
    decreases node
  {
    if node.Block? {
      assert OrderedNode(node.children[0]) && NodeBelow(node.children[0], bound);
      FirstBelow(node.children[0], bound);
    }
  }

  lemma {:induction false} BelowMore(ch: seq<BodyNode>, bound: nat, more: nat)
    requires Below(ch, bound) && bound <= more
    ensures Below(ch, more)
    decreases ch
  {
    forall i | 0 <= i < |ch| ensures NodeBelow(ch[i], more) {
      assert NodeBelow(ch[i], bound);
      if ch[i].Block? {
        BelowMore(ch[i].children, bound, more);
      }
    }
  }

  /** A cell of a later column goes last, or into a block whose first column it leaves. */
  lemma {:induction false} InsertOrdered(ch: seq<BodyNode>, segs: seq<string>, col: nat)
    requires segs != [] && Ordered(ch) && Below(ch, col)
    ensures var r := Insert(ch, segs, col);
            Ordered(r) && Below(r, col + 1) && (ch != [] ==> FirstColumn(r[0]) == FirstColumn(ch[0]))
    decreases |segs|
  {
    BelowMore(ch, col, col + 1);
    var i := if |segs| == 1 then |ch| else FindBlock(ch, segs[0]);
    if i < |ch| {
      assert OrderedNode(ch[i]) && NodeBelow(ch[i], col);
      InsertOrdered(ch[i].children, segs[1..], col);
      Replaced(ch, i, Block(segs[0], Insert(ch[i].children, segs[1..], col)), col + 1);
    } else {
      var node := if |segs| == 1 then Cell(segs[0], col) else Block(segs[0], Insert([], segs[1..], col));
      if |segs| > 1 {
        InsertOrdered([], segs[1..], col);
        NewFirst(segs[1..], col);
      }
      Appended(ch, node, col);
    }
  }

  lemma {:induction false} NewFirst(segs: seq<string>, col: nat)
    requires segs != []
    ensures Insert([], segs, col) != [] && FirstColumn(Insert([], segs, col)[0]) == col
    decreases |segs|
  {
    if |segs| > 1 {
      NewFirst(segs[1..], col);
      assert FindBlock([], segs[0]) == 0;
    }
  }

  lemma {:induction false} Replaced(ch: seq<BodyNode>, i: nat, node: BodyNode, bound: nat)
    requires i < |ch| && Ordered(ch) && Below(ch, bound)
    requires OrderedNode(node) && NodeBelow(node, bound) && FirstColumn(node) == FirstColumn(ch[i])
    ensures Ordered(ch[i := node]) && Below(ch[i := node], bound)
  {
    hide FirstColumn, OrderedNode, NodeBelow;
  }

  lemma {:induction false} Appended(ch: seq<BodyNode>, node: BodyNode, col: nat)
    requires Ordered(ch) && Below(ch, col) && OrderedNode(node) && NodeBelow(node, col + 1) && FirstColumn(node) == col
    ensures Ordered(ch + [node]) && Below(ch + [node], col + 1)
  {
    BelowMore(ch, col, col + 1);
    forall i | 0 <= i < |ch| ensures FirstColumn(ch[i]) < col {
      assert OrderedNode(ch[i]) && NodeBelow(ch[i], col);
      FirstBelow(ch[i], col);
    }
    hide FirstColumn, OrderedNode, NodeBelow;
  }

  lemma {:induction false} BuildOrdered(cols: seq<string>, filled: seq<bool>, n: nat)
    requires |filled| == |cols| && n <= |cols|
    ensures Ordered(Build(cols, filled, n)) && Below(Build(cols, filled, n), n)
    decreases n
  {
    if n > 0 {
      BuildOrdered(cols, filled, n - 1);
      var ch := Build(cols, filled, n - 1);
      if filled[n - 1] {
        InsertOrdered(ch, Segments(cols[n - 1]), n - 1);
      } else {
        BelowMore(ch, n - 1, n);
      }
    }
  }

  /** No cell of a tree in order has a lower column than the first of its node. */
  lemma {:induction false} FirstIsLeast(ch: seq<BodyNode>, x: Leaf)
    requires Ordered(ch) && x in Leaves(ch)
    ensures FirstColumn(ch[0]) <= x.col
    decreases ch, 1
  {
    if x in NodeLeaves(ch[0]) {
      assert OrderedNode(ch[0]);
      NodeLeast(ch[0], x);
    } else {
      var rest := ch[1..];
      assert forall i :: 0 <= i < |rest| ==> rest[i] == ch[i + 1];
      assert Ordered(rest) by {
        forall i | 0 <= i < |rest| ensures OrderedNode(rest[i]) {
          assert OrderedNode(ch[i + 1]);
        }
        hide OrderedNode, FirstColumn;
      }
      FirstIsLeast(rest, x);
      assert FirstColumn(ch[0]) < FirstColumn(ch[1]);
    }
  }

  lemma {:induction false} NodeLeast(node: BodyNode, x: Leaf)
    requires OrderedNode(node) && x in NodeLeaves(node)
    ensures FirstColumn(node) <= x.col
    decreases node, 0
  {
    if node.Block? {
      var y := UnderFrom(node.name, Leaves(node.children), x);
      FirstIsLeast(node.children, y);
    }
  }

  lemma {:induction false} UnderFrom(name: string, leaves: seq<Leaf>, x: Leaf) returns (y: Leaf)
    requires x in Under(name, leaves)
    ensures y in leaves && y.col == x.col
    decreases |leaves|
  {
    if x == Leaf([name] + leaves[0].path, leaves[0].col) {
      y := leaves[0];
    } else {
      y := UnderFrom(name, leaves[1..], x);
    }
  }
}
