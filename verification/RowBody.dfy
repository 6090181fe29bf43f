/** The body of a dataset row: each non-empty cell at its column's path, cells that
    share a prefix in one block. */
module RowBody {
  import opened ColumnPaths

  datatype BodyNode = Cell(name: string, col: nat) | Block(name: string, children: seq<BodyNode>)

  /** A cell and the path it stands at. */
  datatype Leaf = Leaf(path: seq<string>, col: nat)

  /** The index of the block of a name, or the number of children. */
  function FindBlock(ch: seq<BodyNode>, name: string): (i: nat)
    ensures i <= |ch| && (i < |ch| ==> ch[i].Block? && ch[i].name == name)
    ensures forall k :: 0 <= k < i ==> !(ch[k].Block? && ch[k].name == name)
  {
    if ch == [] then 0
    else if ch[0].Block? && ch[0].name == name then 0
    else 1 + FindBlock(ch[1..], name)
  }

  /** Put a cell at its path: into the block of its first segment, or a new one. */
  function Insert(ch: seq<BodyNode>, segs: seq<string>, col: nat): (r: seq<BodyNode>)
    requires segs != []
    ensures r != []
    decreases |segs|
  {
    if |segs| == 1 then ch + [Cell(segs[0], col)]
    else
      var i := FindBlock(ch, segs[0]);
      if i < |ch| then ch[i := Block(segs[0], Insert(ch[i].children, segs[1..], col))]
      else ch + [Block(segs[0], Insert([], segs[1..], col))]
  }

  /** write_row's tree: the non-empty cells of the first n columns. */
  function Build(cols: seq<string>, filled: seq<bool>, n: nat): seq<BodyNode>
    requires |filled| == |cols| && n <= |cols|
  {
    if n == 0 then []
    else if filled[n - 1] then Insert(Build(cols, filled, n - 1), Segments(cols[n - 1]), n - 1)
    else Build(cols, filled, n - 1)
  }

  // The cells of a tree.

  function Leaves(ch: seq<BodyNode>): seq<Leaf>
    decreases ch
  {
    if ch == [] then [] else NodeLeaves(ch[0]) + Leaves(ch[1..])
  }

  function NodeLeaves(node: BodyNode): seq<Leaf>
    decreases node
  {
    match node
    case Cell(name, col) => [Leaf([name], col)]
    case Block(name, ch) => Under(name, Leaves(ch))
  }

  function Under(name: string, leaves: seq<Leaf>): (r: seq<Leaf>)
    ensures |r| == |leaves|
  {
    if leaves == [] then [] else [Leaf([name] + leaves[0].path, leaves[0].col)] + Under(name, leaves[1..])
  }

  lemma {:induction false} LeavesAppend(a: seq<BodyNode>, b: seq<BodyNode>)
    ensures Leaves(a + b) == Leaves(a) + Leaves(b)
    decreases |a|
  {
    hide NodeLeaves;
    if a == [] {
      assert a + b == b;
    } else {
      LeavesAppend(a[1..], b);
      assert (a + b)[1..] == a[1..] + b;
    }
  }

  lemma LeavesOne(node: BodyNode)
    ensures Leaves([node]) == NodeLeaves(node)
  {
    assert [node][1..] == [];
  }

  lemma LeavesUpdate(ch: seq<BodyNode>, i: nat, node: BodyNode)
    requires i < |ch|
    ensures Leaves(ch) == Leaves(ch[..i]) + NodeLeaves(ch[i]) + Leaves(ch[i + 1..])
    ensures Leaves(ch[i := node]) == Leaves(ch[..i]) + NodeLeaves(node) + Leaves(ch[i + 1..])
  {
    hide NodeLeaves, Leaves;
    LeavesOne(ch[i]);
    LeavesOne(node);
    LeavesAppend(ch[..i], [ch[i]]);
    LeavesAppend(ch[..i] + [ch[i]], ch[i + 1..]);
    LeavesAppend(ch[..i], [node]);
    LeavesAppend(ch[..i] + [node], ch[i + 1..]);
    assert ch == ch[..i] + [ch[i]] + ch[i + 1..];
    assert ch[i := node] == ch[..i] + [node] + ch[i + 1..];
  }

  /** More cells below a block are more cells under its name. */
  lemma UnderMore(name: string, a: seq<Leaf>, b: seq<Leaf>, leaf: Leaf)
    requires multiset(a) == multiset(b) + multiset{leaf}
    ensures multiset(Under(name, a)) == multiset(Under(name, b)) + multiset{Leaf([name] + leaf.path, leaf.col)}
  {
    hide Under;
    var k := IndexIn(a, leaf);
    var rest := a[..k] + a[k + 1..];
    MultisetSplit(a, k);
    Cancel(multiset(rest), multiset(b), leaf);
    UnderSame(name, rest, b);
    UnderSplit(name, a, k);
  }

  lemma IndexIn(a: seq<Leaf>, leaf: Leaf) returns (k: nat)
    requires leaf in multiset(a)
    ensures k < |a| && a[k] == leaf
  {
    k :| 0 <= k < |a| && a[k] == leaf;
  }

  lemma Cancel(a: multiset<Leaf>, b: multiset<Leaf>, x: Leaf)
    requires a + multiset{x} == b + multiset{x}
    ensures a == b
  {
    forall y ensures a[y] == b[y] {
      assert (a + multiset{x})[y] == (b + multiset{x})[y];
    }
  }

  /** The order of the cells below does not matter. */
  lemma {:induction false} UnderSame(name: string, a: seq<Leaf>, b: seq<Leaf>)
    requires multiset(a) == multiset(b)
    ensures multiset(Under(name, a)) == multiset(Under(name, b))
    decreases |b|
  {
    hide Under;
    if b == [] {
      assert |a| == |multiset(a)| == 0;
      assert a == b;
    } else {
      assert b[0] in multiset(b);
      var k := IndexIn(a, b[0]);
      SameWithout(a, b, k);
      UnderSame(name, a[..k] + a[k + 1..], b[1..]);
      UnderSplit(name, a, k);
      UnderSplit(name, b, 0);
      assert b[..0] + b[1..] == b[1..];
    }
  }

  lemma SameWithout(a: seq<Leaf>, b: seq<Leaf>, k: nat)
    requires multiset(a) == multiset(b) && b != [] && k < |a| && a[k] == b[0]
    ensures multiset(a[..k] + a[k + 1..]) == multiset(b[1..])
  {
    MultisetSplit(a, k);
    MultisetSplit(b, 0);
    assert b[..0] + b[1..] == b[1..];
    Cancel(multiset(a[..k] + a[k + 1..]), multiset(b[1..]), b[0]);
  }

  lemma MultisetSplit<T>(s: seq<T>, k: nat)
    requires k < |s|
    ensures multiset(s) == multiset(s[..k] + s[k + 1..]) + multiset{s[k]}
  {
    assert s == s[..k] + [s[k]] + s[k + 1..];
  }

  lemma {:induction false} UnderSplit(name: string, a: seq<Leaf>, k: nat)
    requires k < |a|
    ensures multiset(Under(name, a))
         == multiset(Under(name, a[..k] + a[k + 1..])) + multiset{Leaf([name] + a[k].path, a[k].col)}
    decreases k
  {
    hide Under;
    var rest := a[..k] + a[k + 1..];
    if k == 0 {
      assert rest == a[1..];
      UnderStep(name, a);
    } else {
      UnderSplit(name, a[1..], k - 1);
      assert rest[1..] == a[1..][..k - 1] + a[1..][k..];
      UnderStep(name, a);
      UnderStep(name, rest);
    }
  }

  lemma UnderStep(name: string, a: seq<Leaf>)
    requires a != []
    ensures multiset(Under(name, a)) == multiset{Leaf([name] + a[0].path, a[0].col)} + multiset(Under(name, a[1..]))
  {}

  /** Inserting a cell adds exactly that cell, at its path. */
  lemma {:induction false} InsertAdds(ch: seq<BodyNode>, segs: seq<string>, col: nat)
    requires segs != []
    ensures multiset(Leaves(Insert(ch, segs, col))) == multiset(Leaves(ch)) + multiset{Leaf(segs, col)}
    decreases |segs|
  {
    hide Leaves, Under, NodeLeaves;
    if |segs| == 1 {
      LeavesAppend(ch, [Cell(segs[0], col)]);
      OneCell(segs, col);
    } else {
      var i := FindBlock(ch, segs[0]);
      assert [segs[0]] + segs[1..] == segs;
      var inner := if i < |ch| then ch[i].children else [];
      InsertAdds(inner, segs[1..], col);
      UnderMore(segs[0], Leaves(Insert(inner, segs[1..], col)), Leaves(inner), Leaf(segs[1..], col));
      BlockLeaves(segs[0], Insert(inner, segs[1..], col));
      if i < |ch| {
        LeavesUpdate(ch, i, Block(segs[0], Insert(inner, segs[1..], col)));
        BlockLeaves(segs[0], inner);
      } else {
        LeavesAppend(ch, [Block(segs[0], Insert(inner, segs[1..], col))]);
        NothingUnder(segs[0]);
      }
    }
  }

  lemma OneCell(segs: seq<string>, col: nat)
    requires |segs| == 1
    ensures Leaves([Cell(segs[0], col)]) == [Leaf(segs, col)]
  {
    LeavesOne(Cell(segs[0], col));
    assert [segs[0]] == segs;
  }

  lemma BlockLeaves(name: string, ch: seq<BodyNode>)
    ensures Leaves([Block(name, ch)]) == NodeLeaves(Block(name, ch)) == Under(name, Leaves(ch))
  {
    LeavesOne(Block(name, ch));
  }

  lemma NothingUnder(name: string)
    ensures Under(name, Leaves([])) == []
  {}

  /** The cells a row should have: each non-empty one at its column's path. */
  function Wanted(cols: seq<string>, filled: seq<bool>, n: nat): seq<Leaf>
    requires |filled| == |cols| && n <= |cols|
  {
    if n == 0 then []
    else Wanted(cols, filled, n - 1) + if filled[n - 1] then [Leaf(Segments(cols[n - 1]), n - 1)] else []
  }

  /** Every non-empty cell is written exactly once, at its column's path, and
      nothing else is. */
  lemma {:induction false} EachCellOnce(cols: seq<string>, filled: seq<bool>, n: nat)
    requires |filled| == |cols| && n <= |cols|
    ensures multiset(Leaves(Build(cols, filled, n))) == multiset(Wanted(cols, filled, n))
    decreases n
  {
    hide Leaves, Insert, Segments;
    if n > 0 {
      EachCellOnce(cols, filled, n - 1);
      if filled[n - 1] {
        InsertAdds(Build(cols, filled, n - 1), Segments(cols[n - 1]), n - 1);
      }
    } else {
      NothingUnder("");
      assert Leaves([]) == [] by { LeavesNone(); }
    }
  }

  lemma LeavesNone()
    ensures Leaves([]) == []
  {}

  // One block for each prefix.

  /** No two blocks beside each other share a name, at any depth, and no block is
      empty. */
  predicate OneBlockEach(ch: seq<BodyNode>)
    decreases ch
  {
    && (forall i, j :: 0 <= i < j < |ch| && ch[i].Block? && ch[j].Block? ==> ch[i].name != ch[j].name)
    && (forall i :: 0 <= i < |ch| && ch[i].Block? ==> ch[i].children != [] && OneBlockEach(ch[i].children))
  }

  lemma {:induction false} InsertKeepsBlocks(ch: seq<BodyNode>, segs: seq<string>, col: nat)
    requires segs != [] && OneBlockEach(ch)
    ensures OneBlockEach(Insert(ch, segs, col))
    decreases |segs|
  {
    if |segs| > 1 {
      var i := FindBlock(ch, segs[0]);
      InsertKeepsBlocks(if i < |ch| then ch[i].children else [], segs[1..], col);
    }
  }

  /** A row's body has one block for each prefix that its cells share. */
  lemma {:induction false} BuildKeepsBlocks(cols: seq<string>, filled: seq<bool>, n: nat)
    requires |filled| == |cols| && n <= |cols|
    ensures OneBlockEach(Build(cols, filled, n))
    decreases n
  {
    hide Insert, Segments, OneBlockEach;
    if n > 0 {
      BuildKeepsBlocks(cols, filled, n - 1);
      if filled[n - 1] {
        InsertKeepsBlocks(Build(cols, filled, n - 1), Segments(cols[n - 1]), n - 1);
      }
    } else {
      NoBlocks();
    }
  }

  lemma NoBlocks()
    ensures OneBlockEach([])
  {}

  // On an accepted header, no name is written twice in a block.

  /** Each cell once, and no path at or inside another. */
  ghost predicate Apart(cells: multiset<Leaf>) {
    && (forall x :: cells[x] <= 1)
    && (forall x, y :: x in cells && y in cells && x != y ==> !Overlap(x.path, y.path))
  }

  predicate NamesApart(ch: seq<BodyNode>)
    decreases ch
  {
    && (forall i, j :: 0 <= i < j < |ch| ==> ch[i].name != ch[j].name)
    && (forall i :: 0 <= i < |ch| && ch[i].Block? ==> NamesApart(ch[i].children))
  }

  lemma {:induction false} WantedColumns(cols: seq<string>, filled: seq<bool>, n: nat, x: Leaf)
    requires |filled| == |cols| && n <= |cols| && x in multiset(Wanted(cols, filled, n))
    ensures x.col < n && x.path == Segments(cols[x.col])
    decreases n
  {
    hide Segments;
    if n > 0 {
      var last := if filled[n - 1] then [Leaf(Segments(cols[n - 1]), n - 1)] else [];
      if x !in multiset(last) {
        WantedColumns(cols, filled, n - 1, x);
      }
    }
  }

  lemma {:induction false} WantedApart(cols: seq<string>, filled: seq<bool>, n: nat)
    requires |filled| == |cols| && n <= |cols| && forall i :: 0 <= i < n ==> !Offends(cols, i)
    ensures Apart(multiset(Wanted(cols, filled, n)))
    decreases n
  {
    hide Segments, Offends, Apart;
    if n == 0 {
      NothingApart();
    } else {
      WantedApart(cols, filled, n - 1);
      if filled[n - 1] {
        var last := Leaf(Segments(cols[n - 1]), n - 1);
        var before := multiset(Wanted(cols, filled, n - 1));
        forall x | x in before ensures ApartFrom(x, last) {
          WantedColumns(cols, filled, n - 1, x);
          EarlierApart(cols, x.col, n - 1);
        }
        ApartAdd(before, last);
        assert multiset(Wanted(cols, filled, n - 1) + [last]) == before + multiset{last};
      } else {
        assert Wanted(cols, filled, n - 1) + [] == Wanted(cols, filled, n - 1);
      }
    }
  }

  lemma NothingApart()
    ensures Apart(multiset([]))
  {}

  ghost predicate ApartFrom(x: Leaf, y: Leaf) {
    x != y && !Overlap(x.path, y.path) && !Overlap(y.path, x.path)
  }

  lemma ApartAdd(cells: multiset<Leaf>, last: Leaf)
    requires Apart(cells) && forall x :: x in cells ==> ApartFrom(x, last)
    ensures Apart(cells + multiset{last})
  {
    hide Overlap;
    NotFromItself(last);
  }

  lemma NotFromItself(x: Leaf)
    ensures !ApartFrom(x, x)
  {}

  lemma EarlierApart(cols: seq<string>, j: nat, i: nat)
    requires j < i < |cols| && !Offends(cols, i)
    ensures !Overlap(Segments(cols[j]), Segments(cols[i])) && !Overlap(Segments(cols[i]), Segments(cols[j]))
  {
    hide Segments;
  }

  /** The cells of one child, and of two. */
  lemma ChildCells(ch: seq<BodyNode>, i: nat, j: nat)
    requires i < j < |ch|
    ensures multiset(NodeLeaves(ch[i])) + multiset(NodeLeaves(ch[j])) <= multiset(Leaves(ch))
  {
    hide NodeLeaves, Leaves;
    LeavesUpdate(ch, i, ch[i]);
    LeavesUpdate(ch[i + 1..], j - i - 1, ch[j]);
  }

  lemma ChildCell(ch: seq<BodyNode>, i: nat)
    requires i < |ch|
    ensures multiset(NodeLeaves(ch[i])) <= multiset(Leaves(ch))
  {
    hide NodeLeaves, Leaves;
    LeavesUpdate(ch, i, ch[i]);
  }

  /** A child has a cell whose path starts with its name. */
  lemma {:induction false} SomeCell(node: BodyNode) returns (x: Leaf)
    requires node.Block? ==> node.children != [] && OneBlockEach(node.children)
    ensures x in multiset(NodeLeaves(node)) && [node.name] <= x.path
    decreases node
  {
    match node
    case Cell(name, col) =>
      x := Leaf([name], col);
      assert NodeLeaves(node)[0] == x;
    case Block(name, ch) =>
      var y := SomeCell(ch[0]);
      ChildCell(ch, 0);
      x := Leaf([name] + y.path, y.col);
      InUnder(name, Leaves(ch), y);
  }

  lemma {:induction false} InUnder(name: string, leaves: seq<Leaf>, y: Leaf)
    ensures multiset(Under(name, leaves))[Leaf([name] + y.path, y.col)] >= multiset(leaves)[y]
    decreases |leaves|
  {
    if leaves != [] {
      InUnder(name, leaves[1..], y);
      assert leaves == [leaves[0]] + leaves[1..];
    }
  }

  lemma SameNameOverlap(a: BodyNode, b: BodyNode, x: Leaf, y: Leaf)
    requires a.name == b.name && (a.Cell? || b.Cell?)
    requires x in multiset(NodeLeaves(a)) && y in multiset(NodeLeaves(b)) && [a.name] <= x.path && [b.name] <= y.path
    ensures Overlap(x.path, y.path)
  {
    if a.Cell? {
      assert x.path == [a.name];
    } else {
      assert y.path == [b.name];
    }
  }

  lemma {:induction false} ApartNames(ch: seq<BodyNode>)
    requires OneBlockEach(ch) && Apart(multiset(Leaves(ch)))
    ensures NamesApart(ch)
    decreases ch
  {
    hide Leaves, NodeLeaves;
    forall i, j | 0 <= i < j < |ch| ensures ch[i].name != ch[j].name {
      if ch[i].name == ch[j].name {
        TwoCells(ch, i, j);
      }
    }
    forall i | 0 <= i < |ch| && ch[i].Block? ensures NamesApart(ch[i].children) {
      ApartBelow(ch, i);
      ApartNames(ch[i].children);
    }
  }

  lemma TwoCells(ch: seq<BodyNode>, i: nat, j: nat)
    requires OneBlockEach(ch) && i < j < |ch| && ch[i].name == ch[j].name
    ensures !Apart(multiset(Leaves(ch)))
  {
    var x := SomeCell(ch[i]);
    var y := SomeCell(ch[j]);
    ChildCells(ch, i, j);
    SameNameOverlap(ch[i], ch[j], x, y);
    hide Leaves, NodeLeaves, OneBlockEach;
    var both := multiset(NodeLeaves(ch[i])) + multiset(NodeLeaves(ch[j]));
    assert both[x] <= multiset(Leaves(ch))[x] && both[y] <= multiset(Leaves(ch))[y];
    if x == y {
      assert both[x] >= 2;
    }
  }

  lemma ApartBelow(ch: seq<BodyNode>, i: nat)
    requires i < |ch| && ch[i].Block? && Apart(multiset(Leaves(ch)))
    ensures Apart(multiset(Leaves(ch[i].children)))
  {
    hide Leaves, Under, Apart;
    ChildCell(ch, i);
    assert NodeLeaves(ch[i]) == Under(ch[i].name, Leaves(ch[i].children));
    UnderApart(ch[i].name, Leaves(ch[i].children), multiset(Leaves(ch)));
  }

  lemma UnderApart(name: string, below: seq<Leaf>, all: multiset<Leaf>)
    requires multiset(Under(name, below)) <= all && Apart(all)
    ensures Apart(multiset(below))
  {
    hide Under, Overlap;
    forall x: Leaf ensures multiset(below)[x] <= 1 {
      InUnder(name, below, x);
      assert multiset(Under(name, below))[Leaf([name] + x.path, x.col)] <= all[Leaf([name] + x.path, x.col)];
    }
    forall x: Leaf, y: Leaf | x in multiset(below) && y in multiset(below) && x != y ensures !Overlap(x.path, y.path) {
      PairApart(name, below, all, x, y);
    }
  }

  lemma PairApart(name: string, below: seq<Leaf>, all: multiset<Leaf>, x: Leaf, y: Leaf)
    requires multiset(Under(name, below)) <= all && Apart(all)
    requires x in multiset(below) && y in multiset(below) && x != y
    ensures !Overlap(x.path, y.path)
  {
    hide Under, Overlap;
    InUnder(name, below, x);
    InUnder(name, below, y);
    NamedOverlap(name, x, y);
    assert Leaf([name] + x.path, x.col) in all && Leaf([name] + y.path, y.col) in all;
  }

  lemma NamedOverlap(name: string, x: Leaf, y: Leaf)
    ensures Overlap(x.path, y.path) ==> Overlap([name] + x.path, [name] + y.path)
    ensures x != y ==> Leaf([name] + x.path, x.col) != Leaf([name] + y.path, y.col)
  {
    assert ([name] + x.path)[1..] == x.path && ([name] + y.path)[1..] == y.path;
  }

  /** On a header that the check accepts, every block of a row's body binds each of
      its names once. */
  lemma NoNameTwice(cols: seq<string>, filled: seq<bool>)
    requires |filled| == |cols| && forall i :: 0 <= i < |cols| ==> !Offends(cols, i)
    ensures NamesApart(Build(cols, filled, |cols|))
  {
    hide Leaves, Build, Wanted, Offends, OneBlockEach, Apart;
    WantedApart(cols, filled, |cols|);
    EachCellOnce(cols, filled, |cols|);
    BuildKeepsBlocks(cols, filled, |cols|);
    ApartNames(Build(cols, filled, |cols|));
  }
}
