/** Rows and headers as text: what the scanner finds is a row, and every row is found. */
module RowGrammar {
  import opened Bytes
  import opened RowScanner
  import opened RowPieces

  // Parentheses.

  function Deeper(p: Piece, depth: nat): nat
    requires depth > 0
  {
    if p == One(OPEN) then depth + 1 else if p == One(CLOSE) then depth - 1 else depth
  }

  /** The parentheses open past the pieces, of those open before; 0 once all are closed. */
  function Depth(ps: seq<Piece>, depth: nat): nat {
    if depth == 0 || ps == [] then depth else Depth(ps[1..], Deeper(ps[0], depth))
  }

  lemma {:induction false} MatchingStep(s: seq<Byte>, i: nat, j: nat, p: Piece, depth: nat)
    requires i < j <= |s| && SkipAt(s, i) == Past(if p.One? then i else j) && (p.One? ==> s[i] == p.b && j == i + 1)
    requires depth > 0 && Deeper(p, depth) > 0
    ensures Matching(s, i, depth) == Matching(s, j, Deeper(p, depth))
  {
    hide SkipAt;
  }

  lemma {:induction false} MatchingWalk(s: seq<Byte>, i: nat, k: nat, ps: seq<Piece>, depth: nat)
    requires Reads(s, i, k, ps) && depth > 0 && Depth(ps, depth) > 0
    ensures Matching(s, i, depth) == Matching(s, k, Depth(ps, depth))
    decreases |ps|
  {
    if ps == [] {
      assert i == k;
    } else {
      FirstSkipped(s, i, k, ps);
      var j, d := i + |PieceText(ps[0])|, Deeper(ps[0], depth);
      assert Depth(ps, depth) == Depth(ps[1..], d) && d > 0;
      hide *;
      MatchingStep(s, i, j, ps[0], depth);
      MatchingWalk(s, j, k, ps[1..], d);
    }
  }

  lemma {:induction false} MatchingSplits(s: seq<Byte>, i: nat, depth: nat) returns (ps: seq<Piece>, k: nat)
    requires i <= |s| && depth > 0
    ensures Reads(s, i, k, ps) && Depth(ps, depth) > 0 && Halts(s, k)
    ensures k < |s| && SkipAt(s, k) == Past(k) ==> s[k] == CLOSE && Depth(ps, depth) == 1
    decreases |s| - i
  {
    if Halts(s, i) && (i < |s| && SkipAt(s, i) == Past(i) ==> s[i] == CLOSE && depth == 1) {
      ps, k := [], i;
      assert s[i..k] == [];
    } else {
      hide SkipAt, Reads;
      var p, j := PieceAt(s, i);
      var rest;
      rest, k := MatchingSplits(s, j, Deeper(p, depth));
      ps := [p] + rest;
      Prepend(s, i, j, k, p, rest);
    }
  }

  // The closing parenthesis.

  /** Pieces lie between the positions, with so many parentheses open past them of the one before. */
  ghost predicate Nested(s: seq<Byte>, i: nat, k: nat, depth: nat) {
    exists ps :: Reads(s, i, k, ps) && Depth(ps, 1) == depth
  }

  /** A literal inside the parenthesis is cut off. */
  ghost predicate Spoiled(s: seq<Byte>, i: nat) {
    exists k: nat, depth: nat :: Nested(s, i, k, depth) && depth > 0 && k < |s| && Broken(s[k..])
  }

  lemma {:induction false} NestedMatching(s: seq<Byte>, i: nat, k: nat, depth: nat)
    requires Nested(s, i, k, depth) && depth > 0
    ensures Matching(s, i, 1) == Matching(s, k, depth)
  {
    var ps :| Reads(s, i, k, ps) && Depth(ps, 1) == depth;
    MatchingWalk(s, i, k, ps, 1);
  }

  lemma {:induction false} NestedTo(s: seq<Byte>, i: nat) returns (k: nat, depth: nat)
    requires i <= |s|
    ensures Nested(s, i, k, depth) && depth > 0 && k <= |s| && Matching(s, i, 1) == Matching(s, k, depth) && Halts(s, k)
    ensures k < |s| && SkipAt(s, k) == Past(k) ==> s[k] == CLOSE && depth == 1
  {
    var ps;
    ps, k := MatchingSplits(s, i, 1);
    depth := Depth(ps, 1);
    hide SkipAt;
    NestedMatching(s, i, k, depth);
  }

  /** The parenthesis found closes balanced pieces, and such a one is found. */
  lemma {:induction false} ClosedExactly(s: seq<Byte>, i: nat, k: nat)
    requires i <= |s|
    ensures Matching(s, i, 1) == Stop(k) <==> Nested(s, i, k, 1) && k < |s| && s[k] == CLOSE
  {
    if Nested(s, i, k, 1) && k < |s| && s[k] == CLOSE {
      NestedMatching(s, i, k, 1);
      MarkSkip(s, k);
      hide SkipAt;
    } else if Matching(s, i, 1) == Stop(k) {
      var end, depth := NestedTo(s, i);
      hide SkipAt, Nested;
    }
  }

  lemma {:induction false} SpoiledExactly(s: seq<Byte>, i: nat)
    requires i <= |s|
    ensures Matching(s, i, 1).Bad? <==> Spoiled(s, i)
  {
    if Spoiled(s, i) {
      var k: nat, depth: nat :| Nested(s, i, k, depth) && depth > 0 && k < |s| && Broken(s[k..]);
      NestedMatching(s, i, k, depth);
      BrokenExactly(s, k);
      hide SkipAt;
    } else if Matching(s, i, 1).Bad? {
      var end, depth := NestedTo(s, i);
      if end < |s| {
        BrokenExactly(s, end);
      }
      hide SkipAt, Nested;
    }
  }

  lemma {:induction false} MarkSkip(s: seq<Byte>, k: nat)
    requires k < |s| && (s[k] == CLOSE || s[k] == OPEN || s[k] == AT)
    ensures SkipAt(s, k) == Past(k)
  {}

  // Rows.

  predicate Between(ps: seq<Piece>) {
    forall p :: p in ps && p.One? ==> Blank(p.b)
  }

  /** Only blanks, comments and literals stand before the position. */
  ghost predicate Gap(s: seq<Byte>, k: nat) {
    exists ps :: Reads(s, 0, k, ps) && Between(ps)
  }

  /** A row: a gap, an opening parenthesis, balanced pieces, the closing one. */
  ghost predicate Row(s: seq<Byte>, start: nat, end: nat) {
    && Gap(s, start) && start < end < |s|
    && s[start] == OPEN && Nested(s, start + 1, end, 1) && s[end] == CLOSE
  }

  lemma {:induction false} GapWalk(s: seq<Byte>, i: nat, k: nat, ps: seq<Piece>)
    requires Reads(s, i, k, ps) && Between(ps)
    ensures FindRow(s, i) == FindRow(s, k)
    decreases |ps|
  {
    if ps == [] {
      assert i == k;
    } else {
      FirstSkipped(s, i, k, ps);
      var j := i + |PieceText(ps[0])|;
      assert Between(ps[1..]);
      assert ps[0] in ps;
      BlankSkip(s, i);
      hide *;
      GapStep(s, i, j, ps[0]);
      GapWalk(s, j, k, ps[1..]);
    }
  }

  lemma {:induction false} BlankSkip(s: seq<Byte>, i: nat)
    requires i < |s|
    ensures Blank(s[i]) ==> SkipAt(s, i) == Past(i)
  {}

  lemma {:induction false} GapStep(s: seq<Byte>, i: nat, j: nat, p: Piece)
    requires i < j <= |s| && SkipAt(s, i) == Past(if p.One? then i else j)
    requires p.One? ==> s[i] == p.b && j == i + 1 && Blank(p.b)
    ensures FindRow(s, i) == FindRow(s, j)
  {
    BlankSkip(s, i);
    hide SkipAt, Matching;
  }

  lemma {:induction false} GapSplits(s: seq<Byte>, i: nat) returns (ps: seq<Piece>, k: nat)
    requires i <= |s|
    ensures Reads(s, i, k, ps) && Between(ps) && Halts(s, k)
    ensures k < |s| ==> !Blank(s[k])
    decreases |s| - i
  {
    if Halts(s, i) && (i < |s| ==> !Blank(s[i])) {
      ps, k := [], i;
      assert s[i..k] == [];
    } else {
      BlankSkip(s, i);
      hide SkipAt, Reads;
      var p, j := PieceAt(s, i);
      var rest;
      rest, k := GapSplits(s, j);
      ps := [p] + rest;
      Prepend(s, i, j, k, p, rest);
    }
  }

  lemma {:induction false} GapFound(s: seq<Byte>, k: nat)
    requires Gap(s, k)
    ensures k <= |s| && FindRow(s, 0) == FindRow(s, k)
  {
    var ps :| Reads(s, 0, k, ps) && Between(ps);
    GapWalk(s, 0, k, ps);
  }

  /** The first position past the gap. */
  lemma {:induction false} GapEnd(s: seq<Byte>) returns (k: nat)
    ensures Gap(s, k) && k <= |s| && FindRow(s, 0) == FindRow(s, k) && Halts(s, k)
    ensures k < |s| ==> !Blank(s[k])
  {
    var ps;
    ps, k := GapSplits(s, 0);
    hide SkipAt;
    GapFound(s, k);
  }

  /** The answer where no gap is left. */
  lemma {:induction false} PastGap(s: seq<Byte>, k: nat)
    requires k <= |s| && Halts(s, k) && (k < |s| ==> !Blank(s[k]))
    ensures k == |s| || SkipAt(s, k).Incomplete? ==> FindRow(s, k) == NeedMore
    ensures k < |s| && SkipAt(s, k).Malformed? ==> FindRow(s, k) == BadLiteral
    ensures k < |s| && SkipAt(s, k) == Past(k) ==>
      FindRow(s, k)
      == if s[k] == AT then Done
         else if s[k] != OPEN then NotARow(k)
         else match Matching(s, k + 1, 1) case Bad => BadLiteral case More => InRow case Stop(end) => Found(k, end)
  {
    hide SkipAt, Matching;
  }

  lemma {:induction false} MarkFound(s: seq<Byte>, k: nat)
    requires Gap(s, k) && k < |s| && !Blank(s[k]) && Fits(One(s[k]), s[k + 1..])
    ensures SkipAt(s, k) == Past(k)
    ensures FindRow(s, 0)
      == if s[k] == AT then Done
         else if s[k] != OPEN then NotARow(k)
         else match Matching(s, k + 1, 1) case Bad => BadLiteral case More => InRow case Stop(end) => Found(k, end)
  {
    assert s[k..] == PieceText(One(s[k])) + s[k + 1..];
    PieceSkipped(s, k, One(s[k]), s[k + 1..]);
    hide SkipAt, Fits;
    GapFound(s, k);
    PastGap(s, k);
  }

  lemma {:induction false} BrokenFound(s: seq<Byte>, k: nat)
    requires Gap(s, k) && k < |s| && Broken(s[k..])
    ensures FindRow(s, 0) == BadLiteral
  {
    BrokenExactly(s, k);
    BlankSkip(s, k);
    hide SkipAt;
    GapFound(s, k);
    PastGap(s, k);
  }

  lemma {:induction false} MarkAt(s: seq<Byte>, k: nat)
    requires k < |s| && (SkipAt(s, k) == Past(k) || s[k] == OPEN || s[k] == AT)
    ensures Fits(One(s[k]), s[k + 1..])
    ensures s[k] == OPEN || s[k] == AT ==> !Blank(s[k])
  {
    if s[k] == OPEN || s[k] == AT {
      MarkSkip(s, k);
    }
    OneStands(s, k);
  }

  /** A row is found exactly where one stands. */
  lemma {:induction false} RowExactly(s: seq<Byte>, start: nat, end: nat)
    ensures FindRow(s, 0) == Found(start, end) <==> Row(s, start, end)
  {
    if FindRow(s, 0) == Found(start, end) {
      RowFound(s, start, end);
    } else if Row(s, start, end) {
      RowAt(s, start, end);
    }
    hide *;
  }

  lemma {:induction false} RowFound(s: seq<Byte>, start: nat, end: nat)
    requires FindRow(s, 0) == Found(start, end)
    ensures Row(s, start, end)
  {
    var k := GapEnd(s);
    PastGap(s, k);
    hide SkipAt, Gap, FindRow, Matching, Nested;
    var i := start + 1;
    assert k == start && Matching(s, i, 1) == Stop(end);
    ClosedExactly(s, i, end);
  }

  lemma {:induction false} RowAt(s: seq<Byte>, start: nat, end: nat)
    requires Row(s, start, end)
    ensures FindRow(s, 0) == Found(start, end)
  {
    var i := start + 1;
    ClosedExactly(s, i, end);
    MarkAt(s, start);
    hide SkipAt, FindRow, Matching, Nested;
    MarkFound(s, start);
  }

  /** Between rows a directive ends them, and any other entry is refused where it stands. */
  lemma {:induction false} NoRowExactly(s: seq<Byte>)
    ensures FindRow(s, 0).Done? <==> exists k: nat :: Gap(s, k) && k < |s| && s[k] == AT
    ensures forall at: nat :: FindRow(s, 0) == NotARow(at)
              <==> Gap(s, at) && at < |s| && !Blank(s[at]) && s[at] !in [AT, OPEN] && Fits(One(s[at]), s[at + 1..])
  {
    var k := GapEnd(s);
    PastGap(s, k);
    if k < |s| && SkipAt(s, k) == Past(k) {
      MarkAt(s, k);
    }
    hide SkipAt, Gap, FindRow, Matching, Fits;
    forall at: nat | Gap(s, at) && at < |s| && !Blank(s[at]) && Fits(One(s[at]), s[at + 1..]) ensures
        FindRow(s, 0) == if s[at] == AT then Done else if s[at] != OPEN then NotARow(at) else FindRow(s, 0) {
      MarkFound(s, at);
    }
    forall at: nat | Gap(s, at) && at < |s| && s[at] == AT ensures FindRow(s, 0) == Done {
      MarkAt(s, at);
      MarkFound(s, at);
    }
  }

  /** A malformed literal is reported exactly where a newline cuts one off, before a row or inside one. */
  lemma {:induction false} BadExactly(s: seq<Byte>)
    ensures FindRow(s, 0).BadLiteral? <==>
              exists k: nat :: Gap(s, k) && k < |s| && (Broken(s[k..]) || (s[k] == OPEN && Spoiled(s, k + 1)))
  {
    if k: nat :| Gap(s, k) && k < |s| && (Broken(s[k..]) || (s[k] == OPEN && Spoiled(s, k + 1))) {
      if Broken(s[k..]) {
        BrokenFound(s, k);
      } else {
        SpoiledExactly(s, k + 1);
        MarkAt(s, k);
        hide SkipAt, FindRow, Matching, Spoiled, Gap, Fits;
        MarkFound(s, k);
      }
    } else if FindRow(s, 0).BadLiteral? {
      var at := GapEnd(s);
      PastGap(s, at);
      hide Gap, FindRow, Matching, Broken, Spoiled;
      if at < |s| {
        BrokenExactly(s, at);
        SpoiledExactly(s, at + 1);
      }
    }
  }

  /** A row has begun and no more: a parenthesis stands past the gap, and nothing yet closes or spoils it. */
  lemma {:induction false} InRowExactly(s: seq<Byte>)
    ensures FindRow(s, 0).InRow? <==>
              exists k: nat :: Gap(s, k) && k < |s| && s[k] == OPEN && !Spoiled(s, k + 1) && forall end: nat :: !Row(s, k, end)
  {
    forall k: nat | Gap(s, k) && k < |s| && s[k] == OPEN && !Spoiled(s, k + 1) && forall end: nat :: !Row(s, k, end)
      ensures FindRow(s, 0) == InRow
    {
      SpoiledExactly(s, k + 1);
      MarkAt(s, k);
      hide SkipAt, FindRow, Matching, Spoiled, Gap, Fits, Row;
      MarkFound(s, k);
      if Matching(s, k + 1, 1).Stop? {
        RowExactly(s, k, Matching(s, k + 1, 1).at);
      }
    }
    if FindRow(s, 0).InRow? {
      var at := GapEnd(s);
      PastGap(s, at);
      hide SkipAt, FindRow, Matching, Spoiled, Gap, Fits, Row;
      SpoiledExactly(s, at + 1);
      forall end: nat ensures !Row(s, at, end) {
        RowExactly(s, at, end);
      }
    }
  }

  // The header.

  /** The keyword stands here, whole and not part of a longer name. */
  predicate Keyword(s: seq<Byte>, k: nat) {
    k + 8 < |s| && KeywordAt(s, k) && !IdentPart(s[k + 8])
  }

  /** The keyword stands here or may yet. */
  predicate KeywordSoFar(s: seq<Byte>, k: nat) {
    KeywordAt(s, k) && (k + 8 < |s| ==> !IdentPart(s[k + 8]))
  }

  /** No keyword stands among the pieces, outside literals and comments. */
  predicate NoKeyword(s: seq<Byte>, i: nat, ps: seq<Piece>)
    decreases |ps|
  {
    ps == [] || ((ps[0].One? ==> !KeywordSoFar(s, i)) && NoKeyword(s, i + |PieceText(ps[0])|, ps[1..]))
  }

  ghost predicate BeforeKeyword(s: seq<Byte>, k: nat) {
    exists ps :: Reads(s, 0, k, ps) && NoKeyword(s, 0, ps)
  }

  ghost predicate BeforeOpen(s: seq<Byte>, i: nat, k: nat) {
    exists ps :: Reads(s, i, k, ps) && One(OPEN) !in ps
  }

  lemma {:induction false} KeywordWalk(s: seq<Byte>, i: nat, k: nat, ps: seq<Piece>)
    requires Reads(s, i, k, ps) && NoKeyword(s, i, ps)
    ensures FindKeyword(s, i) == FindKeyword(s, k)
    decreases |ps|
  {
    if ps == [] {
      assert i == k;
    } else {
      var j := i + |PieceText(ps[0])|;
      NoKeywordFirst(s, i, j, ps);
      FirstSkipped(s, i, k, ps);
      hide *;
      KeywordStep(s, i, j, ps[0]);
      KeywordWalk(s, j, k, ps[1..]);
    }
  }

  lemma {:induction false} NoKeywordFirst(s: seq<Byte>, i: nat, j: nat, ps: seq<Piece>)
    requires ps != [] && NoKeyword(s, i, ps) && j == i + |PieceText(ps[0])|
    ensures NoKeyword(s, j, ps[1..]) && (ps[0].One? ==> !KeywordSoFar(s, i))
  {
    hide KeywordSoFar, PieceText;
  }

  lemma {:induction false} KeywordStep(s: seq<Byte>, i: nat, j: nat, p: Piece)
    requires i < j <= |s| && SkipAt(s, i) == Past(if p.One? then i else j)
    requires p.One? ==> j == i + 1 && !KeywordSoFar(s, i)
    ensures FindKeyword(s, i) == FindKeyword(s, j)
  {
    hide SkipAt;
  }

  lemma {:induction false} KeywordSplits(s: seq<Byte>, i: nat) returns (ps: seq<Piece>, k: nat)
    requires i <= |s|
    ensures Reads(s, i, k, ps) && NoKeyword(s, i, ps) && Halts(s, k)
    ensures k < |s| && SkipAt(s, k) == Past(k) ==> KeywordSoFar(s, k)
    decreases |s| - i
  {
    if Halts(s, i) && (i < |s| && SkipAt(s, i) == Past(i) ==> KeywordSoFar(s, i)) {
      ps, k := [], i;
      assert s[i..k] == [];
    } else {
      hide SkipAt, Reads, KeywordSoFar;
      var p, j := PieceAt(s, i);
      var rest;
      rest, k := KeywordSplits(s, j);
      ps := [p] + rest;
      assert |s[i..j]| == |PieceText(p)|;
      Prepend(s, i, j, k, p, rest);
      hide PieceText, Halts;
    }
  }

  lemma {:induction false} KeywordFound(s: seq<Byte>, k: nat)
    requires BeforeKeyword(s, k)
    ensures k <= |s| && FindKeyword(s, 0) == FindKeyword(s, k)
  {
    var ps :| Reads(s, 0, k, ps) && NoKeyword(s, 0, ps);
    KeywordWalk(s, 0, k, ps);
  }

  lemma {:induction false} KeywordStop(s: seq<Byte>, k: nat)
    requires KeywordSoFar(s, k)
    ensures SkipAt(s, k) == Past(k)
    ensures FindKeyword(s, k) == if k + 8 < |s| then Stop(k) else More
  {
    assert s[k] == s[k..k + 8][0] == AT;
    MarkSkip(s, k);
    hide SkipAt;
  }

  lemma {:induction false} KeywordExactly(s: seq<Byte>, k: nat)
    ensures FindKeyword(s, 0) == Stop(k) <==> BeforeKeyword(s, k) && Keyword(s, k)
  {
    if BeforeKeyword(s, k) && Keyword(s, k) {
      KeywordFound(s, k);
      KeywordStop(s, k);
      hide *;
    } else if FindKeyword(s, 0) == Stop(k) {
      var end := KeywordEnd(s);
      assert end < |s|;
      if SkipAt(s, end) == Past(end) {
        KeywordStop(s, end);
      }
      hide SkipAt, KeywordAt, BeforeKeyword;
    }
  }

  lemma {:induction false} KeywordEnd(s: seq<Byte>) returns (k: nat)
    ensures BeforeKeyword(s, k) && k <= |s| && FindKeyword(s, 0) == FindKeyword(s, k) && Halts(s, k)
    ensures k < |s| && SkipAt(s, k) == Past(k) ==> KeywordSoFar(s, k)
  {
    var ps;
    ps, k := KeywordSplits(s, 0);
    hide SkipAt, KeywordSoFar;
    KeywordFound(s, k);
  }

  lemma {:induction false} KeywordBad(s: seq<Byte>)
    ensures FindKeyword(s, 0).Bad? <==> exists j: nat :: BeforeKeyword(s, j) && j < |s| && Broken(s[j..])
  {
    hide Broken;
    forall j: nat | BeforeKeyword(s, j) && j < |s| && Broken(s[j..]) ensures FindKeyword(s, 0).Bad? {
      KeywordFound(s, j);
      BrokenExactly(s, j);
      hide SkipAt;
    }
    var end := KeywordEnd(s);
    if end < |s| {
      BrokenExactly(s, end);
      if SkipAt(s, end) == Past(end) {
        KeywordStop(s, end);
      }
    }
    hide SkipAt, KeywordAt, BeforeKeyword;
  }

  lemma {:induction false} ByteWalk(s: seq<Byte>, i: nat, k: nat, ps: seq<Piece>)
    requires Reads(s, i, k, ps) && One(OPEN) !in ps
    ensures FindByte(s, i, OPEN) == FindByte(s, k, OPEN)
    decreases |ps|
  {
    if ps == [] {
      assert i == k;
    } else {
      FirstSkipped(s, i, k, ps);
      assert ps[0] in ps;
      var j := i + |PieceText(ps[0])|;
      hide *;
      ByteStep(s, i, j, ps[0]);
      ByteWalk(s, j, k, ps[1..]);
    }
  }

  lemma {:induction false} ByteStep(s: seq<Byte>, i: nat, j: nat, p: Piece)
    requires i < j <= |s| && SkipAt(s, i) == Past(if p.One? then i else j)
    requires p != One(OPEN) && (p.One? ==> s[i] == p.b && j == i + 1)
    ensures FindByte(s, i, OPEN) == FindByte(s, j, OPEN)
  {
    hide SkipAt;
  }

  lemma {:induction false} ByteSplits(s: seq<Byte>, i: nat) returns (ps: seq<Piece>, k: nat)
    requires i <= |s|
    ensures Reads(s, i, k, ps) && One(OPEN) !in ps && Halts(s, k)
    ensures k < |s| && SkipAt(s, k) == Past(k) ==> s[k] == OPEN
    decreases |s| - i
  {
    if Halts(s, i) && (i < |s| && SkipAt(s, i) == Past(i) ==> s[i] == OPEN) {
      ps, k := [], i;
      assert s[i..k] == [];
    } else {
      hide SkipAt, Reads;
      var p, j := PieceAt(s, i);
      var rest;
      rest, k := ByteSplits(s, j);
      ps := [p] + rest;
      Prepend(s, i, j, k, p, rest);
    }
  }

  lemma {:induction false} OpenFound(s: seq<Byte>, i: nat, k: nat)
    requires BeforeOpen(s, i, k)
    ensures k <= |s| && FindByte(s, i, OPEN) == FindByte(s, k, OPEN)
  {
    var ps :| Reads(s, i, k, ps) && One(OPEN) !in ps;
    ByteWalk(s, i, k, ps);
  }

  lemma {:induction false} OpenExactly(s: seq<Byte>, i: nat, k: nat)
    requires i <= |s|
    ensures FindByte(s, i, OPEN) == Stop(k) <==> BeforeOpen(s, i, k) && k < |s| && s[k] == OPEN
  {
    if BeforeOpen(s, i, k) && k < |s| && s[k] == OPEN {
      OpenFound(s, i, k);
      MarkSkip(s, k);
      hide SkipAt, BeforeOpen;
    } else if FindByte(s, i, OPEN) == Stop(k) {
      var end := OpenEnd(s, i);
      hide SkipAt, BeforeOpen;
    }
  }

  lemma {:induction false} OpenEnd(s: seq<Byte>, i: nat) returns (k: nat)
    requires i <= |s|
    ensures BeforeOpen(s, i, k) && k <= |s| && FindByte(s, i, OPEN) == FindByte(s, k, OPEN) && Halts(s, k)
    ensures k < |s| && SkipAt(s, k) == Past(k) ==> s[k] == OPEN
  {
    var ps;
    ps, k := ByteSplits(s, i);
    hide SkipAt;
    OpenFound(s, i, k);
  }

  lemma {:induction false} OpenBad(s: seq<Byte>, i: nat)
    requires i <= |s|
    ensures FindByte(s, i, OPEN).Bad? <==> exists j: nat :: BeforeOpen(s, i, j) && j < |s| && Broken(s[j..])
  {
    hide Broken;
    forall j: nat | BeforeOpen(s, i, j) && j < |s| && Broken(s[j..]) ensures FindByte(s, i, OPEN).Bad? {
      OpenFound(s, i, j);
      BrokenExactly(s, j);
      hide SkipAt;
    }
    var end := OpenEnd(s, i);
    if end < |s| {
      BrokenExactly(s, end);
    }
    hide SkipAt, BeforeOpen;
  }

  /** `@dataset`, pieces without a parenthesis, and balanced pieces in parentheses. */
  ghost predicate Header(s: seq<Byte>, k: nat, open: nat, end: nat) {
    && BeforeKeyword(s, k) && Keyword(s, k)
    && BeforeOpen(s, k + 8, open) && open < end < |s| && s[open] == OPEN
    && Nested(s, open + 1, end, 1) && s[end] == CLOSE
  }

  /** The header found ends where the first header does. */
  lemma {:induction false} HeaderExactly(s: seq<Byte>, end: nat)
    ensures HeaderEnd(s) == Stop(end) <==> exists k: nat, open: nat :: Header(s, k, open, end)
  {
    hide FindKeyword, FindByte, Matching;
    if HeaderEnd(s) == Stop(end) {
      HeaderFound(s, end);
    }
    forall k: nat, open: nat | Header(s, k, open, end) ensures HeaderEnd(s) == Stop(end) {
      HeaderAt(s, k, open, end);
    }
  }

  /** The three scans of a header one after another. */
  lemma {:induction false} HeaderSteps(s: seq<Byte>, k: nat, i: nat, open: nat, j: nat, end: nat)
    requires FindKeyword(s, 0) == Stop(k) && i == k + 8 && FindByte(s, i, OPEN) == Stop(open) && j == open + 1
    ensures HeaderEnd(s) == Matching(s, j, 1)
  {
    hide FindKeyword, FindByte, Matching;
  }

  lemma {:induction false} HeaderFound(s: seq<Byte>, end: nat)
    requires HeaderEnd(s) == Stop(end)
    ensures exists k: nat, open: nat :: Header(s, k, open, end)
  {
    var k := FindKeyword(s, 0).at;
    var i := k + 8;
    var open := FindByte(s, i, OPEN).at;
    var j := open + 1;
    assert FindKeyword(s, 0) == Stop(k) && FindByte(s, i, OPEN) == Stop(open) && Matching(s, j, 1) == Stop(end);
    assert i <= open < j <= end < |s|;
    hide FindKeyword, FindByte, Matching;
    KeywordExactly(s, k);
    OpenExactly(s, i, open);
    ClosedExactly(s, j, end);
    HeaderOf(s, k, i, open, j, end);
  }

  lemma {:induction false} HeaderOf(s: seq<Byte>, k: nat, i: nat, open: nat, j: nat, end: nat)
    requires i == k + 8 && j == open + 1 && open < end < |s|
    requires BeforeKeyword(s, k) && Keyword(s, k) && BeforeOpen(s, i, open) && s[open] == OPEN
    requires Nested(s, j, end, 1) && s[end] == CLOSE
    ensures Header(s, k, open, end)
  {
    hide BeforeKeyword, Keyword, BeforeOpen, Nested;
  }

  lemma {:induction false} HeaderAt(s: seq<Byte>, k: nat, open: nat, end: nat)
    requires Header(s, k, open, end)
    ensures HeaderEnd(s) == Stop(end)
  {
    var i, j := k + 8, open + 1;
    assert BeforeKeyword(s, k) && Keyword(s, k) && BeforeOpen(s, i, open) && Nested(s, j, end, 1);
    assert i <= |s| && j <= end < |s| && s[open] == OPEN && s[end] == CLOSE;
    hide *;
    KeywordExactly(s, k);
    OpenExactly(s, i, open);
    ClosedExactly(s, j, end);
    HeaderSteps(s, k, i, open, j, end);
  }

  /** A literal is cut off after the keyword, before its parenthesis or inside it. */
  ghost predicate ListSpoiled(s: seq<Byte>, i: nat) {
    exists j: nat :: BeforeOpen(s, i, j) && j < |s| && (Broken(s[j..]) || (s[j] == OPEN && Spoiled(s, j + 1)))
  }

  lemma {:induction false} ListBadExactly(s: seq<Byte>, i: nat)
    requires i <= |s|
    ensures (FindByte(s, i, OPEN).Bad? || (FindByte(s, i, OPEN).Stop? && Matching(s, FindByte(s, i, OPEN).at + 1, 1).Bad?))
        <==> ListSpoiled(s, i)
  {
    hide FindByte, Matching, BeforeOpen, Broken, Spoiled;
    OpenBad(s, i);
    if FindByte(s, i, OPEN).Stop? {
      var open := FindByte(s, i, OPEN).at;
      OpenExactly(s, i, open);
      SpoiledExactly(s, open + 1);
    }
    forall j: nat | BeforeOpen(s, i, j) && j < |s| && s[j] == OPEN ensures FindByte(s, i, OPEN) == Stop(j) {
      OpenExactly(s, i, j);
    }
  }

  lemma {:induction false} HeaderBadExactly(s: seq<Byte>)
    ensures HeaderEnd(s).Bad? <==>
              || (exists j: nat :: BeforeKeyword(s, j) && j < |s| && Broken(s[j..]))
              || exists k: nat :: BeforeKeyword(s, k) && Keyword(s, k) && ListSpoiled(s, k + 8)
  {
    hide FindKeyword, FindByte, Matching, BeforeKeyword, Broken, ListSpoiled, Keyword;
    KeywordBad(s);
    if FindKeyword(s, 0).Stop? {
      var k := FindKeyword(s, 0).at;
      KeywordExactly(s, k);
      ListBadExactly(s, k + 8);
    }
    forall k: nat | BeforeKeyword(s, k) && Keyword(s, k) ensures FindKeyword(s, 0) == Stop(k) {
      KeywordExactly(s, k);
    }
  }

  // The bytes in characters.

  function Ascii(t: string): (b: seq<Byte>)
    requires forall i :: 0 <= i < |t| ==> t[i] < 128 as char
    ensures |b| == |t| && forall i :: 0 <= i < |t| ==> b[i] == t[i] as int
  {
    seq(|t|, i requires 0 <= i < |t| => t[i] as int)
  }

  lemma {:induction false} Marks()
    ensures [QUOTE, HASH, OPEN, CLOSE, STAR, SLASH, AT, BACKSLASH, LETTER_B, NEWLINE] == Ascii("\"#()*/@\\b\n")
    ensures KEYWORD == Ascii("@dataset")
    ensures forall b: Byte :: Blank(b) <==> b in Ascii(" \t\r\n")
    ensures forall b: Byte ::
              IdentPart(b) <==> '0' as int <= b <= '9' as int || 'A' as int <= b <= 'Z' as int
                                || 'a' as int <= b <= 'z' as int || b == '_' as int
  {
    assert Ascii(" \t\r\n") == [' ' as int, '\t' as int, '\r' as int, '\n' as int];
  }

  /** A finding: between rows not only blanks and comments are passed over but literals
      too, so `"x" (1)` holds a row. */
  lemma {:induction false} LiteralBetweenRows()
    ensures FindRow(Ascii("\"x\" (1)"), 0) == Found(4, 6)
  {
    var s := Ascii("\"x\" (1)");
    Marks();
    var junk, blank, inside := Quoted([Plain(s[1])]), One(s[3]), One(s[5]);
    assert [Plain(s[1])][1..] == [] && CharsText([Plain(s[1])]) == CharText(Plain(s[1])) + [];
    assert PieceText(junk) == [QUOTE] + ([s[1]] + [QUOTE]);
    assert s[0] == QUOTE && s[2] == QUOTE;
    assert s[0..3] == [QUOTE, s[1], QUOTE];
    assert s[3..4] == PieceText(blank) && s[5..6] == PieceText(inside);
    assert s[3..][0] == s[3];
    Prepend(s, 3, 4, 4, blank, []);
    assert [blank] + [] == [blank] && [inside] + [] == [inside];
    Prepend(s, 0, 3, 4, junk, [blank]);
    Prepend(s, 5, 6, 6, inside, []);
    assert [inside][1..] == [];
    assert Depth([inside], 1) == 1;
    assert [junk] + [blank] == [junk, blank];
    RowExactly(s, 4, 6);
  }
}
