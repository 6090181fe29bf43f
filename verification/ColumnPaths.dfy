/** The header check of a dataset's column paths: a trie of the columns seen so far
    against the pairwise rule it stands for. */
module ColumnPaths {
  import opened Options

  // Paths.

  /** The segments between the dots of a column name. */
  function Segments(c: string): (s: seq<string>)
    ensures s != []
  {
    var i := Dot(c);
    if i == |c| then [c] else [c[..i]] + Segments(c[i + 1..])
  }

  function Dot(c: string): (i: nat)
    ensures i <= |c| && (forall j :: 0 <= j < i ==> c[j] != '.') && (i < |c| ==> c[i] == '.')
  {
    if c == "" || c[0] == '.' then 0 else 1 + Dot(c[1..])
  }

  /** As the check spells it: a dot first, last, or twice in a row. */
  predicate EmptySegment(c: string) {
    c != "" && (c[0] == '.' || c[|c| - 1] == '.' || exists i :: 0 <= i < |c| - 1 && TwoDots(c, i))
  }

  predicate TwoDots(c: string, i: nat)
    requires i + 1 < |c|
  {
    c[i] == '.' && c[i + 1] == '.'
  }

  predicate HasEmpty(segs: seq<string>) {
    exists k :: 0 <= k < |segs| && segs[k] == ""
  }

  /** The spelled check finds exactly the empty segments, but for a name that is
      empty altogether, which it lets through. */
  lemma {:induction false} EmptySegmentIs(c: string)
    requires c != ""
    ensures EmptySegment(c) <==> HasEmpty(Segments(c))
    decreases |c|
  {
    hide HasEmpty, EmptySegment;
    var i := Dot(c);
    if i == |c| {
      OneSegment(c);
    } else if i == |c| - 1 {
      LastDot(c);
    } else {
      EmptySegmentIs(c[i + 1..]);
      DotsAfter(c, i);
      EmptyAfter(c[..i], Segments(c[i + 1..]));
      assert |c[..i]| == i;
    }
  }

  /** The empty name: one empty segment, and the spelled check passes it. */
  lemma EmptyNamePasses()
    ensures Segments("") == [""] && HasEmpty(Segments("")) && !EmptySegment("")
  {
    assert Segments("")[0] == "";
  }

  lemma OneSegment(c: string)
    requires c != "" && Dot(c) == |c|
    ensures !EmptySegment(c) && !HasEmpty(Segments(c))
  {
    assert Segments(c)[0] == c;
  }

  lemma LastDot(c: string)
    requires c != "" && Dot(c) == |c| - 1
    ensures EmptySegment(c) && HasEmpty(Segments(c))
  {
    var rest := c[Dot(c) + 1..];
    assert rest == "";
    assert Segments(rest) == [rest];
    assert Segments(c)[1] == "";
  }

  lemma EmptyAfter(first: string, tail: seq<string>)
    ensures HasEmpty([first] + tail) <==> first == "" || HasEmpty(tail)
  {
    var segs := [first] + tail;
    if first == "" {
      assert segs[0] == "";
    }
    if HasEmpty(tail) {
      var k :| 0 <= k < |tail| && tail[k] == "";
      assert segs[k + 1] == "";
    }
  }

  /** Empty segments after the first dot are those of the rest. */
  lemma DotsAfter(c: string, i: nat)
    requires i == Dot(c) < |c| && c[i + 1..] != ""
    ensures EmptySegment(c) <==> i == 0 || EmptySegment(c[i + 1..])
  {
    hide EmptySegment, Dot;
    if i == 0 {
      DotFirst(c);
    } else {
      if EmptySegment(c) {
        DotsInRest(c, i);
      }
      if EmptySegment(c[i + 1..]) {
        DotsInWhole(c, i);
      }
    }
  }

  lemma DotFirst(c: string)
    requires c != "" && c[0] == '.'
    ensures EmptySegment(c)
  {}

  lemma DotsInRest(c: string, i: nat)
    requires 0 < i < |c| - 1 && c[i] == '.' && (forall j :: 0 <= j < i ==> c[j] != '.') && EmptySegment(c)
    ensures EmptySegment(c[i + 1..])
  {
    var rest := c[i + 1..];
    if c[|c| - 1] == '.' {
      assert rest[|rest| - 1] == '.';
    } else {
      var k :| 0 <= k < |c| - 1 && TwoDots(c, k);
      if k == i {
        assert rest[0] == '.';
      } else {
        assert TwoDots(rest, k - i - 1);
      }
    }
  }

  lemma DotsInWhole(c: string, i: nat)
    requires i < |c| - 1 && c[i] == '.' && EmptySegment(c[i + 1..])
    ensures EmptySegment(c)
  {
    var rest := c[i + 1..];
    if rest[0] == '.' {
      assert TwoDots(c, i);
    } else if rest[|rest| - 1] == '.' {
      assert c[|c| - 1] == '.';
    } else {
      var k :| 0 <= k < |rest| - 1 && TwoDots(rest, k);
      assert TwoDots(c, k + i + 1);
    }
  }

  // The rule.

  /** One path is the other or a prefix of it. */
  predicate Overlap(a: seq<string>, b: seq<string>) {
    a <= b || b <= a
  }

  /** Column i has an empty segment, or overlaps an earlier one. */
  predicate Offends(cols: seq<string>, i: nat)
    requires i < |cols|
  {
    EmptySegment(cols[i]) || exists j :: 0 <= j < i && Overlap(Segments(cols[j]), Segments(cols[i]))
  }

  // The trie.

  datatype Node = Node(children: map<string, nat>, column: Option<nat>, first: nat)

  datatype Fault = Empty | Overlaps(prev: nat) | Twice(prev: nat)

  /** The nodes are a trie, labelled by their paths. */
  ghost predicate Trie(nodes: seq<Node>, paths: seq<seq<string>>) {
    && |nodes| == |paths| > 0 && paths[0] == []
    && (forall a, b :: 0 <= a < b < |paths| ==> paths[a] != paths[b])
    && (forall k, s :: 0 <= k < |nodes| && s in nodes[k].children ==>
          nodes[k].children[s] < |nodes| && paths[nodes[k].children[s]] == paths[k] + [s])
    && (forall n :: 0 < n < |nodes| ==> HasParent(nodes, paths, n))
  }

  ghost predicate HasParent(nodes: seq<Node>, paths: seq<seq<string>>, n: nat)
    requires |nodes| == |paths| && n < |paths|
  {
    paths[n] != [] && exists k :: 0 <= k < |nodes| && paths[k] + [Last(paths[n])] == paths[n]
                                  && Last(paths[n]) in nodes[k].children && nodes[k].children[Last(paths[n])] == n
  }

  function Last(p: seq<string>): string
    requires p != []
  {
    p[|p| - 1]
  }

  /** A path with no child at its parent has no node. */
  lemma NoChild(nodes: seq<Node>, paths: seq<seq<string>>, at: nat, s: string)
    requires Trie(nodes, paths) && at < |nodes| && s !in nodes[at].children
    ensures paths[at] + [s] !in paths
  {
    if n :| 0 <= n < |paths| && paths[n] == paths[at] + [s] {
      assert HasParent(nodes, paths, n);
      var k :| 0 <= k < |nodes| && paths[k] + [Last(paths[n])] == paths[n]
               && Last(paths[n]) in nodes[k].children && nodes[k].children[Last(paths[n])] == n;
      assert (paths[k] + [s])[..|paths[n]| - 1] == paths[k];
      assert (paths[at] + [s])[..|paths[n]| - 1] == paths[at];
      assert k == at;
    }
  }

  /** Add a child for a segment. */
  lemma Grown(nodes: seq<Node>, paths: seq<seq<string>>, at: nat, s: string, first: nat)
    requires Trie(nodes, paths) && at < |nodes| && s !in nodes[at].children
    ensures var child := Node(map[], None, first);
            Trie(nodes[at := nodes[at].(children := nodes[at].children[s := |nodes|])] + [child], paths + [paths[at] + [s]])
  {
    NoChild(nodes, paths, at, s);
    var child := Node(map[], None, first);
    var nodes' := nodes[at := nodes[at].(children := nodes[at].children[s := |nodes|])] + [child];
    var paths' := paths + [paths[at] + [s]];
    assert forall a :: 0 <= a < |paths| ==> paths[a] in paths;
    forall n | 0 < n < |nodes'| ensures HasParent(nodes', paths', n) {
      if n < |nodes| {
        assert HasParent(nodes, paths, n);
        var k :| 0 <= k < |nodes| && paths[k] + [Last(paths[n])] == paths[n]
                 && Last(paths[n]) in nodes[k].children && nodes[k].children[Last(paths[n])] == n;
        assert paths'[k] + [Last(paths'[n])] == paths'[n];
        assert Last(paths'[n]) in nodes'[k].children && nodes'[k].children[Last(paths'[n])] == n;
      } else {
        assert Last(paths'[n]) == s;
        assert paths'[at] + [s] == paths'[n] && nodes'[at].children[s] == n;
      }
    }
  }

  // What the trie holds.

  /** Some column before i goes through p. */
  ghost predicate Passed(cols: seq<string>, i: nat, p: seq<string>)
    requires i <= |cols|
  {
    exists j :: 0 <= j < i && p <= Segments(cols[j])
  }

  /** p is one of the first len prefixes of the column being read. */
  ghost predicate OnWay(segs: seq<string>, len: nat, p: seq<string>) {
    0 < |p| <= len <= |segs| && p == segs[..|p|]
  }

  ghost predicate Members(cols: seq<string>, i: nat, segs: seq<string>, len: nat, paths: seq<seq<string>>)
    requires i <= |cols|
  {
    forall p :: p in paths <==> p == [] || Passed(cols, i, p) || OnWay(segs, len, p)
  }

  ghost predicate AllColumns(cols: seq<string>, i: nat, nodes: seq<Node>, paths: seq<seq<string>>)
    requires i <= |cols| && |nodes| == |paths|
  {
    forall k :: 0 <= k < |nodes| ==> ColumnAt(cols, i, nodes[k], paths[k])
  }

  ghost predicate AllEnd(cols: seq<string>, i: nat, nodes: seq<Node>, paths: seq<seq<string>>)
    requires i <= |cols| && |nodes| == |paths|
  {
    forall j :: 0 <= j < i ==> Ends(cols, nodes, paths, j)
  }

  ghost predicate AllFirst(cols: seq<string>, i: nat, segs: seq<string>, nodes: seq<Node>, paths: seq<seq<string>>)
    requires i <= |cols| && |nodes| == |paths|
  {
    forall k :: 0 < k < |nodes| ==> FirstThrough(cols, i, segs, nodes[k], paths[k])
  }

  /** The nodes are the prefixes of the columns before i, and of the first len
      segments of column i; a node's column ends there, and its first column goes
      through it. */
  ghost predicate Holds(cols: seq<string>, i: nat, segs: seq<string>, len: nat, nodes: seq<Node>, paths: seq<seq<string>>)
    requires i <= |cols| && len <= |segs|
  {
    && Trie(nodes, paths)
    && Members(cols, i, segs, len, paths)
    && AllColumns(cols, i, nodes, paths)
    && AllEnd(cols, i, nodes, paths)
    && AllFirst(cols, i, segs, nodes, paths)
  }

  ghost predicate ColumnAt(cols: seq<string>, i: nat, node: Node, path: seq<string>)
    requires i <= |cols|
  {
    node.column.Some? ==> node.column.value < i && Segments(cols[node.column.value]) == path
  }

  ghost predicate Ends(cols: seq<string>, nodes: seq<Node>, paths: seq<seq<string>>, j: nat)
    requires j < |cols| && |nodes| == |paths|
  {
    exists k :: 0 <= k < |nodes| && paths[k] == Segments(cols[j]) && nodes[k].column == Some(j)
  }

  /** The column that made the node, an earlier one or column i itself. */
  ghost predicate FirstThrough(cols: seq<string>, i: nat, segs: seq<string>, node: Node, path: seq<string>)
    requires i <= |cols|
  {
    && node.first <= i && path <= (if node.first < i then Segments(cols[node.first]) else segs)
    && (node.first == i ==> !Passed(cols, i, path))
  }

  /** Column i agrees with none of the first i so far: none ends strictly above the
      node, and the node is new exactly when none goes through it. */
  ghost predicate Descent(cols: seq<string>, i: nat, segs: seq<string>, len: nat, paths: seq<seq<string>>, at: nat, created: bool)
    requires i <= |cols| && len <= |segs|
  {
    && at < |paths| && paths[at] == segs[..len]
    && (forall j :: 0 <= j < i ==> !(Segments(cols[j]) <= segs[..len] && |Segments(cols[j])| < len))
    && (len > 0 ==> (created <==> !Passed(cols, i, segs[..len])))
    && (len == 0 ==> !created)
  }

  // One segment down.

  lemma PathAt(paths: seq<seq<string>>, k: nat)
    requires k < |paths|
    ensures paths[k] in paths
  {}

  /** No column ends at a node on the way without the node saying so. */
  lemma EndsHere(cols: seq<string>, i: nat, segs: seq<string>, len: nat, nodes: seq<Node>, paths: seq<seq<string>>, at: nat, j: nat)
    requires i <= |cols| && len <= |segs| && Holds(cols, i, segs, len, nodes, paths)
    requires at < |nodes| && j < i && Segments(cols[j]) == paths[at]
    ensures nodes[at].column.Some?
  {
    hide Segments, Members, AllFirst, AllColumns, HasParent;
    assert Ends(cols, nodes, paths, j);
    var k :| 0 <= k < |nodes| && paths[k] == Segments(cols[j]) && nodes[k].column == Some(j);
    assert k == at;
  }

  lemma NoneAbove(cols: seq<string>, i: nat, segs: seq<string>, len: nat, nodes: seq<Node>, paths: seq<seq<string>>, at: nat, created: bool)
    requires i <= |cols| && len < |segs| && Holds(cols, i, segs, len, nodes, paths)
    requires Descent(cols, i, segs, len, paths, at, created) && at < |nodes| && nodes[at].column.None?
    ensures forall j :: 0 <= j < i ==> !(Segments(cols[j]) <= segs[..len + 1] && |Segments(cols[j])| < len + 1)
  {
    hide Holds, Segments;
    forall j | 0 <= j < i && Segments(cols[j]) <= segs[..len + 1] && |Segments(cols[j])| < len + 1
      ensures false
    {
      PrefixOf(Segments(cols[j]), segs, len);
      if |Segments(cols[j])| == len {
        EndsHere(cols, i, segs, len, nodes, paths, at, j);
      }
    }
  }

  lemma PrefixOf(p: seq<string>, segs: seq<string>, len: nat)
    requires len < |segs| && p <= segs[..len + 1] && |p| < len + 1
    ensures p <= segs[..len] && (|p| == len ==> p == segs[..len])
  {
    assert segs[..len + 1][..|p|] == segs[..|p|];
  }

  lemma PassedUp(cols: seq<string>, i: nat, p: seq<string>, s: string)
    requires i <= |cols| && Passed(cols, i, p + [s])
    ensures Passed(cols, i, p)
  {
    var j :| 0 <= j < i && p + [s] <= Segments(cols[j]);
    assert p <= Segments(cols[j]);
  }

  /** The trie, and the column's first len segments: which of them are new. */
  lemma MembersNext(cols: seq<string>, i: nat, segs: seq<string>, len: nat, paths: seq<seq<string>>, created: bool)
    requires i <= |cols| && len < |segs| && Members(cols, i, segs, len, paths)
    requires len > 0 ==> (created <==> !Passed(cols, i, segs[..len]))
    requires len == 0 ==> !created
    ensures segs[..len + 1] in paths ==>
              Members(cols, i, segs, len + 1, paths) && (created <==> !Passed(cols, i, segs[..len + 1]))
    ensures segs[..len + 1] !in paths ==>
              Members(cols, i, segs, len + 1, paths + [segs[..len + 1]]) && !Passed(cols, i, segs[..len + 1])
  {
    hide Passed;
    var p := segs[..len + 1];
    assert p == segs[..len] + [segs[len]];
    if len > 0 && Passed(cols, i, p) {
      PassedUp(cols, i, segs[..len], segs[len]);
    }
    if len > 0 && created {
      assert !Passed(cols, i, p);
    }
    OnWayNext(segs, len, p);
    var paths' := paths + [p];
    assert forall q :: q in paths' <==> q in paths || q == p;
  }

  lemma OnWayNext(segs: seq<string>, len: nat, p: seq<string>)
    requires len < |segs| && p == segs[..len + 1]
    ensures forall q :: OnWay(segs, len + 1, q) <==> OnWay(segs, len, q) || q == p
  {
    forall q ensures OnWay(segs, len + 1, q) <==> OnWay(segs, len, q) || q == p {
      if |q| == len + 1 {
        assert segs[..|q|] == p;
      }
    }
  }

  lemma TrieSizes(nodes: seq<Node>, paths: seq<seq<string>>)
    requires Trie(nodes, paths)
    ensures |nodes| == |paths|
  {}

  lemma StepExisting(cols: seq<string>, i: nat, segs: seq<string>, len: nat, nodes: seq<Node>, paths: seq<seq<string>>, at: nat, created: bool)
    requires i <= |cols| && len < |segs| && Holds(cols, i, segs, len, nodes, paths)
    requires Descent(cols, i, segs, len, paths, at, created) && at < |nodes| && nodes[at].column.None?
    requires segs[len] in nodes[at].children
    ensures nodes[at].children[segs[len]] < |nodes|
    ensures Holds(cols, i, segs, len + 1, nodes, paths)
    ensures Descent(cols, i, segs, len + 1, paths, nodes[at].children[segs[len]], created)
  {
    hide Segments, AllFirst, AllColumns, AllEnd, HasParent, Members, Passed;
    NoneAbove(cols, i, segs, len, nodes, paths, at, created);
    var next := nodes[at].children[segs[len]];
    assert paths[next] == segs[..len] + [segs[len]] == segs[..len + 1];
    PathAt(paths, next);
    MembersNext(cols, i, segs, len, paths, created);
  }

  lemma StepNew(cols: seq<string>, i: nat, segs: seq<string>, len: nat, nodes: seq<Node>, paths: seq<seq<string>>, at: nat, created: bool)
    requires i <= |cols| && len < |segs| && Holds(cols, i, segs, len, nodes, paths)
    requires Descent(cols, i, segs, len, paths, at, created) && at < |nodes| && nodes[at].column.None?
    requires segs[len] !in nodes[at].children
    ensures var nodes' := WithChild(nodes, at, segs[len], i);
            var paths' := paths + [segs[..len + 1]];
            Holds(cols, i, segs, len + 1, nodes', paths') && Descent(cols, i, segs, len + 1, paths', |nodes|, true)
  {
    hide Segments, AllFirst, AllColumns, AllEnd, HasParent, Members, Passed, Trie;
    TrieSizes(nodes, paths);
    NoneAbove(cols, i, segs, len, nodes, paths, at, created);
    assert segs[..len] + [segs[len]] == segs[..len + 1];
    NoChild(nodes, paths, at, segs[len]);
    Grown(nodes, paths, at, segs[len], i);
    MembersNext(cols, i, segs, len, paths, created);
    NewNode(cols, i, segs, len, nodes, paths, at);
  }

  /** The trie with a new child, made by column i. */
  function WithChild(nodes: seq<Node>, at: nat, s: string, i: nat): (r: seq<Node>)
    requires at < |nodes|
  {
    nodes[at := nodes[at].(children := nodes[at].children[s := |nodes|])] + [Node(map[], None, i)]
  }

  lemma NewNode(cols: seq<string>, i: nat, segs: seq<string>, len: nat, nodes: seq<Node>, paths: seq<seq<string>>, at: nat)
    requires i <= |cols| && len < |segs| && |nodes| == |paths| && at < |nodes|
    requires AllColumns(cols, i, nodes, paths) && AllEnd(cols, i, nodes, paths) && AllFirst(cols, i, segs, nodes, paths)
    requires !Passed(cols, i, segs[..len + 1])
    ensures var nodes', paths' := WithChild(nodes, at, segs[len], i), paths + [segs[..len + 1]];
            && AllColumns(cols, i, nodes', paths') && AllEnd(cols, i, nodes', paths')
            && AllFirst(cols, i, segs, nodes', paths')
  {
    hide Segments, Passed;
    var nodes', paths' := WithChild(nodes, at, segs[len], i), paths + [segs[..len + 1]];
    forall j | 0 <= j < i ensures Ends(cols, nodes', paths', j) {
      assert Ends(cols, nodes, paths, j);
      var k :| 0 <= k < |nodes| && paths[k] == Segments(cols[j]) && nodes[k].column == Some(j);
      assert paths'[k] == Segments(cols[j]) && nodes'[k].column == Some(j);
    }
    hide Ends;
    forall k | 0 < k < |nodes'| ensures FirstThrough(cols, i, segs, nodes'[k], paths'[k]) {
      if k < |nodes| {
        assert FirstThrough(cols, i, segs, nodes[k], paths[k]);
      }
    }
    forall k | 0 <= k < |nodes'| ensures ColumnAt(cols, i, nodes'[k], paths'[k]) {
      if k < |nodes| {
        assert ColumnAt(cols, i, nodes[k], paths[k]);
      }
    }
  }

  /** The whole column taken in: it ends at its node. */
  lemma Accepted(cols: seq<string>, i: nat, nodes: seq<Node>, paths: seq<seq<string>>, at: nat, created: bool, next: seq<string>)
    requires i < |cols|
    requires Holds(cols, i, Segments(cols[i]), |Segments(cols[i])|, nodes, paths)
    requires Descent(cols, i, Segments(cols[i]), |Segments(cols[i])|, paths, at, created) && created && at < |nodes|
    requires nodes[at].column.None?
    ensures Holds(cols, i + 1, next, 0, nodes[at := nodes[at].(column := Some(i))], paths)
  {
    hide Segments, HasParent, AllFirst, AllColumns, AllEnd, Members, Passed, Trie;
    var mine := Segments(cols[i]);
    assert mine[..|mine|] == mine;
    TrieSizes(nodes, paths);
    SameTrie(nodes, paths, at, i);
    MembersAfter(cols, i, next, paths);
    EndedNode(cols, i, nodes, paths, at, next);
  }

  lemma MembersAfter(cols: seq<string>, i: nat, next: seq<string>, paths: seq<seq<string>>)
    requires i < |cols| && Members(cols, i, Segments(cols[i]), |Segments(cols[i])|, paths)
    ensures Members(cols, i + 1, next, 0, paths)
  {
    hide Segments;
    var mine := Segments(cols[i]);
    forall p ensures Passed(cols, i + 1, p) <==> Passed(cols, i, p) || p <= mine {
      if p <= mine {
        assert p <= Segments(cols[i]);
      }
    }
    hide Passed;
    forall p ensures p <= mine <==> p == [] || OnWay(mine, |mine|, p) {
      if p <= mine {
        assert p == mine[..|p|];
      }
    }
  }

  lemma EndedNode(cols: seq<string>, i: nat, nodes: seq<Node>, paths: seq<seq<string>>, at: nat, next: seq<string>)
    requires i < |cols| && |nodes| == |paths| && at < |nodes| && paths[at] == Segments(cols[i])
    requires AllColumns(cols, i, nodes, paths) && AllEnd(cols, i, nodes, paths)
    requires AllFirst(cols, i, Segments(cols[i]), nodes, paths) && nodes[at].column.None?
    ensures var nodes' := nodes[at := nodes[at].(column := Some(i))];
            && AllColumns(cols, i + 1, nodes', paths) && AllEnd(cols, i + 1, nodes', paths)
            && AllFirst(cols, i + 1, next, nodes', paths)
  {
    hide Segments, Passed;
    var nodes' := nodes[at := nodes[at].(column := Some(i))];
    forall j | 0 <= j < i + 1 ensures Ends(cols, nodes', paths, j) {
      if j < i {
        assert Ends(cols, nodes, paths, j);
        var k :| 0 <= k < |nodes| && paths[k] == Segments(cols[j]) && nodes[k].column == Some(j);
        assert paths[k] == Segments(cols[j]) && nodes'[k].column == Some(j);
      } else {
        assert paths[at] == Segments(cols[i]) && nodes'[at].column == Some(i);
      }
    }
    hide Ends;
    forall k | 0 < k < |nodes'| ensures FirstThrough(cols, i + 1, next, nodes'[k], paths[k]) {
      assert FirstThrough(cols, i, Segments(cols[i]), nodes[k], paths[k]);
    }
    forall k | 0 <= k < |nodes'| ensures ColumnAt(cols, i + 1, nodes'[k], paths[k]) {
      assert ColumnAt(cols, i, nodes[k], paths[k]);
    }
  }

  lemma SameTrie(nodes: seq<Node>, paths: seq<seq<string>>, at: nat, i: nat)
    requires Trie(nodes, paths) && at < |nodes|
    ensures Trie(nodes[at := nodes[at].(column := Some(i))], paths)
  {
    var nodes' := nodes[at := nodes[at].(column := Some(i))];
    forall n | 0 < n < |nodes'| ensures HasParent(nodes', paths, n) {
      assert HasParent(nodes, paths, n);
      var k :| 0 <= k < |nodes| && paths[k] + [Last(paths[n])] == paths[n]
               && Last(paths[n]) in nodes[k].children && nodes[k].children[Last(paths[n])] == n;
      assert nodes'[k].children[Last(paths[n])] == n;
    }
  }

  // The check.

  /** Why a column is refused, with the earlier column it names. */
  ghost predicate FaultIs(cols: seq<string>, i: nat, fault: Fault)
    requires i < |cols|
  {
    match fault
    case Empty => EmptySegment(cols[i])
    case Twice(prev) => prev < i && Segments(cols[prev]) == Segments(cols[i])
    case Overlaps(prev) =>
      prev < i && (Segments(cols[prev]) < Segments(cols[i]) || Segments(cols[i]) < Segments(cols[prev]))
  }

  datatype Verdict = Fine | Refused(column: nat, fault: Fault)

  /** column_path_error: none exactly when no column has an empty segment and no two
      overlap, and otherwise the first column that does, in time linear in the
      header. */
  method ColumnPathError(cols: seq<string>) returns (r: Verdict)
    ensures r.Fine? ==> forall i :: 0 <= i < |cols| ==> !Offends(cols, i)
    ensures r.Refused? ==>
              && r.column < |cols| && Offends(cols, r.column) && FaultIs(cols, r.column, r.fault)
              && forall k :: 0 <= k < r.column ==> !Offends(cols, k)
  {
    hide Holds, Descent, EmptySegment, Segments, Trie;
    var nodes := [Node(map[], None, 0)];
    ghost var paths: seq<seq<string>> := [[]];
    var i := 0;
    StartTrie(cols, if cols == [] then [] else Segments(cols[0]));
    while i < |cols|
      invariant i <= |cols|
      invariant Holds(cols, i, if i < |cols| then Segments(cols[i]) else [], 0, nodes, paths) && NodesThere(nodes, paths)
      invariant forall k :: 0 <= k < i ==> !Offends(cols, k)
    {
      if EmptySegment(cols[i]) {
        return Refused(i, Empty);
      }
      var fault;
      fault, nodes, paths := TakeIn(cols, i, nodes, paths, if i + 1 < |cols| then Segments(cols[i + 1]) else []);
      if fault.Some? {
        return Refused(i, fault.value);
      }
      i := i + 1;
    }
    r := Fine;
  }

  ghost predicate NodesThere(nodes: seq<Node>, paths: seq<seq<string>>) {
    |nodes| == |paths| > 0
  }

  lemma StartTrie(cols: seq<string>, segs: seq<string>)
    ensures Holds(cols, 0, segs, 0, [Node(map[], None, 0)], [[]])
  {}

  /** One column down the trie, making nodes where there are none. */
  method TakeIn(cols: seq<string>, i: nat, nodes: seq<Node>, ghost paths: seq<seq<string>>, ghost next: seq<string>)
    returns (fault: Option<Fault>, nodes': seq<Node>, ghost paths': seq<seq<string>>)
    requires i < |cols| && Holds(cols, i, Segments(cols[i]), 0, nodes, paths) && NodesThere(nodes, paths)
    requires !EmptySegment(cols[i])
    ensures fault.Some? ==> Offends(cols, i) && FaultIs(cols, i, fault.value)
    ensures fault.None? ==>
              !Offends(cols, i) && Holds(cols, i + 1, next, 0, nodes', paths') && NodesThere(nodes', paths')
  {
    hide Holds, Descent, EmptySegment, Segments, Offends, FaultIs;
    nodes', paths' := nodes, paths;
    var segs := Segments(cols[i]);
    var at: nat, created, len := 0, false, 0;
    StartDescent(cols, i, segs, nodes, paths);
    while len < |segs|
      invariant len <= |segs| && at < |nodes'| && NodesThere(nodes', paths')
      invariant Holds(cols, i, segs, len, nodes', paths') && Descent(cols, i, segs, len, paths', at, created)
    {
      if nodes'[at].column.Some? {
        FoundAbove(cols, i, segs, len, nodes', paths', at, created);
        return Some(Overlaps(nodes'[at].column.value)), nodes', paths';
      }
      if segs[len] in nodes'[at].children {
        StepExisting(cols, i, segs, len, nodes', paths', at, created);
        at := nodes'[at].children[segs[len]];
      } else {
        StepNew(cols, i, segs, len, nodes', paths', at, created);
        at, nodes', paths', created := |nodes'|, WithChild(nodes', at, segs[len], i), paths' + [segs[..len + 1]], true;
      }
      len := len + 1;
    }
    if nodes'[at].column.Some? {
      FoundTwice(cols, i, segs, nodes', paths', at, created);
      return Some(Twice(nodes'[at].column.value)), nodes', paths';
    }
    if !created {
      FoundBelow(cols, i, segs, nodes', paths', at, created);
      return Some(Overlaps(nodes'[at].first)), nodes', paths';
    }
    NothingFound(cols, i, segs, nodes', paths', at, created);
    Accepted(cols, i, nodes', paths', at, created, next);
    nodes' := nodes'[at := nodes'[at].(column := Some(i))];
    fault := None;
  }

  lemma StartDescent(cols: seq<string>, i: nat, segs: seq<string>, nodes: seq<Node>, paths: seq<seq<string>>)
    requires i < |cols| && Holds(cols, i, segs, 0, nodes, paths)
    ensures Descent(cols, i, segs, 0, paths, 0, false)
  {
    hide Segments;
  }

  lemma FoundAbove(cols: seq<string>, i: nat, segs: seq<string>, len: nat, nodes: seq<Node>, paths: seq<seq<string>>, at: nat, created: bool)
    requires i < |cols| && segs == Segments(cols[i]) && len < |segs| && Holds(cols, i, segs, len, nodes, paths)
    requires Descent(cols, i, segs, len, paths, at, created) && at < |nodes| && nodes[at].column.Some?
    ensures Offends(cols, i) && FaultIs(cols, i, Overlaps(nodes[at].column.value))
  {
    hide Segments, EmptySegment, Trie, Members, AllEnd, AllFirst;
    assert ColumnAt(cols, i, nodes[at], paths[at]);
    assert segs[..len] < segs;
    assert Overlap(Segments(cols[nodes[at].column.value]), Segments(cols[i]));
  }

  lemma FoundTwice(cols: seq<string>, i: nat, segs: seq<string>, nodes: seq<Node>, paths: seq<seq<string>>, at: nat, created: bool)
    requires i < |cols| && segs == Segments(cols[i]) && Holds(cols, i, segs, |segs|, nodes, paths)
    requires Descent(cols, i, segs, |segs|, paths, at, created) && at < |nodes| && nodes[at].column.Some?
    ensures Offends(cols, i) && FaultIs(cols, i, Twice(nodes[at].column.value))
  {
    hide Segments, EmptySegment, Trie, Members, AllEnd, AllFirst;
    assert ColumnAt(cols, i, nodes[at], paths[at]);
    assert segs[..|segs|] == segs;
    assert Overlap(Segments(cols[nodes[at].column.value]), Segments(cols[i]));
  }

  lemma FoundBelow(cols: seq<string>, i: nat, segs: seq<string>, nodes: seq<Node>, paths: seq<seq<string>>, at: nat, created: bool)
    requires i < |cols| && segs == Segments(cols[i]) && Holds(cols, i, segs, |segs|, nodes, paths)
    requires Descent(cols, i, segs, |segs|, paths, at, created) && at < |nodes| && nodes[at].column.None? && !created
    ensures Offends(cols, i) && FaultIs(cols, i, Overlaps(nodes[at].first))
  {
    assert segs != [];
    hide Segments, EmptySegment, Members, AllColumns, AllEnd, Passed;
    assert segs[..|segs|] == segs;
    assert at != 0;
    assert FirstThrough(cols, i, segs, nodes[at], paths[at]);
    var j := nodes[at].first;
    if Segments(cols[j]) == segs {
      EndsHere(cols, i, segs, |segs|, nodes, paths, at, j);
    }
    assert Overlap(Segments(cols[j]), Segments(cols[i]));
  }

  lemma NothingFound(cols: seq<string>, i: nat, segs: seq<string>, nodes: seq<Node>, paths: seq<seq<string>>, at: nat, created: bool)
    requires i < |cols| && segs == Segments(cols[i]) && Holds(cols, i, segs, |segs|, nodes, paths)
    requires Descent(cols, i, segs, |segs|, paths, at, created) && at < |nodes| && nodes[at].column.None? && created
    requires !EmptySegment(cols[i])
    ensures !Offends(cols, i)
  {
    hide Segments, EmptySegment, Holds;
    assert segs[..|segs|] == segs;
    forall j | 0 <= j < i ensures !Overlap(Segments(cols[j]), segs) {
      PassedBy(cols, i, j, segs);
      LongPrefix(Segments(cols[j]), segs);
    }
  }

  lemma PassedBy(cols: seq<string>, i: nat, j: nat, p: seq<string>)
    requires j < i <= |cols|
    ensures p <= Segments(cols[j]) ==> Passed(cols, i, p)
  {}

  lemma LongPrefix(a: seq<string>, b: seq<string>)
    ensures a <= b && |a| >= |b| ==> b <= a
  {}
}
