/** Where the header and each row of a dataset end, decided on the bytes that have
    arrived: an answer given on a prefix stands however the input goes on. */
module RowScanner {
  import opened Bytes

  const QUOTE: Byte := 0x22
  const HASH: Byte := 0x23
  const OPEN: Byte := 0x28
  const CLOSE: Byte := 0x29
  const STAR: Byte := 0x2a
  const SLASH: Byte := 0x2f
  const AT: Byte := 0x40
  const BACKSLASH: Byte := 0x5c
  const LETTER_B: Byte := 0x62
  const NEWLINE: Byte := 0x0a

  // One literal or comment.

  /** The position past a literal or comment, when its end has arrived. */
  datatype Skip = Past(j: nat) | Incomplete | Malformed

  function StringEnd(s: seq<Byte>, j: nat): (r: Skip)
    ensures r.Past? ==> j < r.j <= |s|
    decreases |s| - j
  {
    if j >= |s| then Incomplete
    else if s[j] == BACKSLASH then if j + 1 >= |s| then Incomplete else StringEnd(s, j + 2)
    else if s[j] == QUOTE then Past(j + 1)
    else if s[j] == NEWLINE then Malformed
    else StringEnd(s, j + 1)
  }

  function TripleEnd(s: seq<Byte>, j: nat): (r: Skip)
    ensures r.Past? ==> j < r.j <= |s|
    ensures !r.Malformed?
    decreases |s| - j
  {
    if j + 2 >= |s| then Incomplete
    else if s[j] == QUOTE && s[j + 1] == QUOTE && s[j + 2] == QUOTE then Past(j + 3)
    else TripleEnd(s, j + 1)
  }

  /** The newline that ends a comment, or the end of what has arrived. */
  function LineEnd(s: seq<Byte>, j: nat): (r: nat)
    requires j <= |s|
    ensures j <= r <= |s| && (r < |s| ==> s[r] == NEWLINE)
    decreases |s| - j
  {
    if j == |s| || s[j] == NEWLINE then j else LineEnd(s, j + 1)
  }

  function CommentEnd(s: seq<Byte>, j: nat): (r: Skip)
    ensures r.Past? ==> j < r.j <= |s|
    ensures !r.Malformed?
    decreases |s| - j
  {
    if j + 1 >= |s| then Incomplete
    else if s[j] == STAR && s[j + 1] == SLASH then Past(j + 2)
    else CommentEnd(s, j + 1)
  }

  /** Past the literal or comment that opens at i, or i when none does. */
  function SkipAt(s: seq<Byte>, i: nat): (r: Skip)
    requires i < |s|
    ensures r.Past? ==> i <= r.j <= |s|
  {
    if s[i] == QUOTE then
      if i + 2 < |s| && s[i + 1] == QUOTE && s[i + 2] == QUOTE then TripleEnd(s, i + 3) else StringEnd(s, i + 1)
    else if s[i] == LETTER_B && i + 1 < |s| && s[i + 1] == QUOTE then StringEnd(s, i + 2)
    else if s[i] == HASH then Past(LineEnd(s, i + 1))
    else if s[i] == SLASH && i + 1 < |s| && s[i + 1] == SLASH then Past(LineEnd(s, i + 2))
    else if s[i] == SLASH && i + 1 < |s| && s[i + 1] == STAR then CommentEnd(s, i + 2)
    else Past(i)
  }

  // Scanning for a byte outside literals and comments.

  /** Where a scan stopped: at a position, at the end of what has arrived, or at a
      literal that no further input can complete. */
  datatype Scan = Stop(at: nat) | More | Bad

  /** The parenthesis that closes the depth ones open at i. */
  function Matching(s: seq<Byte>, i: nat, depth: nat): (r: Scan)
    requires depth > 0
    ensures r.Stop? ==> i <= r.at < |s| && s[r.at] == CLOSE
    decreases |s| - i
  {
    if i >= |s| then More
    else
      match SkipAt(s, i)
      case Malformed => Bad
      case Incomplete => More
      case Past(j) =>
        if j != i then Matching(s, j, depth)
        else if s[i] == OPEN then Matching(s, i + 1, depth + 1)
        else if s[i] == CLOSE then if depth == 1 then Stop(i) else Matching(s, i + 1, depth - 1)
        else Matching(s, i + 1, depth)
  }

  /** What comes next between rows. */
  datatype Next =
    | Found(start: nat, end: nat)
    | Done
    | NeedMore
    | InRow
    | BadLiteral
    | NotARow(at: nat)

  predicate Blank(b: Byte) {
    b == 0x20 || b == 0x09 || b == 0x0d || b == NEWLINE
  }

  function FindRow(s: seq<Byte>, i: nat): (r: Next)
    ensures r.Found? ==> i <= r.start < r.end < |s| && s[r.start] == OPEN && s[r.end] == CLOSE
    ensures r.NotARow? ==> i <= r.at < |s|
    decreases |s| - i
  {
    if i >= |s| then NeedMore
    else if Blank(s[i]) then FindRow(s, i + 1)
    else
      match SkipAt(s, i)
      case Malformed => BadLiteral
      case Incomplete => NeedMore
      case Past(j) =>
        if j != i then FindRow(s, j)
        else if s[i] == AT then Done
        else if s[i] != OPEN then NotARow(i)
        else
          match Matching(s, i + 1, 1)
          case Bad => BadLiteral
          case More => InRow
          case Stop(end) => Found(i, end)
  }

  // The header.

  predicate IdentPart(b: Byte) {
    0x30 <= b <= 0x39 || 0x41 <= b <= 0x5a || 0x61 <= b <= 0x7a || b == 0x5f
  }

  /** `@dataset` */
  const KEYWORD: seq<Byte> := [0x40, 0x64, 0x61, 0x74, 0x61, 0x73, 0x65, 0x74]

  predicate KeywordAt(s: seq<Byte>, i: nat) {
    i + 8 <= |s| && s[i..i + 8] == KEYWORD
  }

  function FindKeyword(s: seq<Byte>, i: nat): (r: Scan)
    ensures r.Stop? ==> i <= r.at && KeywordAt(s, r.at) && r.at + 8 < |s|
    decreases |s| - i
  {
    if i >= |s| then More
    else
      match SkipAt(s, i)
      case Malformed => Bad
      case Incomplete => More
      case Past(j) =>
        if j != i then FindKeyword(s, j)
        else if KeywordAt(s, i) && i + 8 == |s| then More
        else if KeywordAt(s, i) && !IdentPart(s[i + 8]) then Stop(i)
        else FindKeyword(s, i + 1)
  }

  function FindByte(s: seq<Byte>, i: nat, b: Byte): (r: Scan)
    ensures r.Stop? ==> i <= r.at < |s| && s[r.at] == b
    decreases |s| - i
  {
    if i >= |s| then More
    else
      match SkipAt(s, i)
      case Malformed => Bad
      case Incomplete => More
      case Past(j) =>
        if j != i then FindByte(s, j, b)
        else if s[i] == b then Stop(i)
        else FindByte(s, i + 1, b)
  }

  /** The parenthesis that ends `@dataset TYPE ( cols )`. */
  function HeaderEnd(s: seq<Byte>): (r: Scan)
    ensures r.Stop? ==> r.at < |s|
  {
    var at := FindKeyword(s, 0);
    if !at.Stop? then at
    else
      var open := FindByte(s, at.at + 8, OPEN);
      if !open.Stop? then open else Matching(s, open.at + 1, 1)
  }

  // More input arrives.

  lemma {:induction false} StringEndStable(s: seq<Byte>, t: seq<Byte>, j: nat)
    requires s <= t && !StringEnd(s, j).Incomplete?
    ensures StringEnd(t, j) == StringEnd(s, j)
    decreases |s| - j
  {
    if s[j] == BACKSLASH {
      StringEndStable(s, t, j + 2);
    } else if s[j] != QUOTE && s[j] != NEWLINE {
      StringEndStable(s, t, j + 1);
    }
  }

  lemma {:induction false} TripleEndStable(s: seq<Byte>, t: seq<Byte>, j: nat)
    requires s <= t && !TripleEnd(s, j).Incomplete?
    ensures TripleEnd(t, j) == TripleEnd(s, j)
    decreases |s| - j
  {
    if !(s[j] == QUOTE && s[j + 1] == QUOTE && s[j + 2] == QUOTE) {
      TripleEndStable(s, t, j + 1);
    }
  }

  lemma {:induction false} LineEndStable(s: seq<Byte>, t: seq<Byte>, j: nat)
    requires s <= t && j <= |s| && LineEnd(s, j) < |s|
    ensures LineEnd(t, j) == LineEnd(s, j)
    decreases |s| - j
  {
    if s[j] != NEWLINE {
      LineEndStable(s, t, j + 1);
    }
  }

  lemma {:induction false} CommentEndStable(s: seq<Byte>, t: seq<Byte>, j: nat)
    requires s <= t && !CommentEnd(s, j).Incomplete?
    ensures CommentEnd(t, j) == CommentEnd(s, j)
    decreases |s| - j
  {
    if !(s[j] == STAR && s[j + 1] == SLASH) {
      CommentEndStable(s, t, j + 1);
    }
  }

  /** The last byte that has arrived may yet open a literal or a comment. */
  predicate Lone(s: seq<Byte>, i: nat) {
    i + 1 == |s| && (s[i] == SLASH || s[i] == LETTER_B)
  }

  /** A skip that ended before the end of the input, and did not stop at a byte
      that may yet open something, is final; so is a malformed literal. */
  lemma SkipStable(s: seq<Byte>, t: seq<Byte>, i: nat)
    requires s <= t && i < |s| && !Lone(s, i)
    requires SkipAt(s, i).Malformed? || (SkipAt(s, i).Past? && SkipAt(s, i).j < |s|)
    ensures SkipAt(t, i) == SkipAt(s, i)
  {
    if s[i] == QUOTE {
      if i + 2 < |s| && s[i + 1] == QUOTE && s[i + 2] == QUOTE {
        TripleEndStable(s, t, i + 3);
      } else {
        StringEndStable(s, t, i + 1);
      }
    } else if i + 1 < |s| && s[i] == LETTER_B && s[i + 1] == QUOTE {
      StringEndStable(s, t, i + 2);
    } else if s[i] == HASH {
      LineEndStable(s, t, i + 1);
    } else if i + 1 < |s| && s[i] == SLASH && s[i + 1] == SLASH {
      LineEndStable(s, t, i + 2);
    } else if i + 1 < |s| && s[i] == SLASH && s[i + 1] == STAR {
      CommentEndStable(s, t, i + 2);
    }
  }

  lemma {:induction false} MatchingStable(s: seq<Byte>, t: seq<Byte>, i: nat, depth: nat)
    requires s <= t && depth > 0 && !Matching(s, i, depth).More?
    ensures Matching(t, i, depth) == Matching(s, i, depth)
    decreases |s| - i
  {
    hide SkipAt;
    var r := SkipAt(s, i);
    if r.Past? && r.j != i {
      assert r.j < |s|;
      LoneStays(s, i);
      SkipStable(s, t, i);
      MatchingStable(s, t, r.j, depth);
    } else if r.Malformed? {
      LoneStays(s, i);
      SkipStable(s, t, i);
    } else if s[i] == CLOSE {
      SkipStable(s, t, i);
      if depth > 1 {
        MatchingStable(s, t, i + 1, depth - 1);
      }
    } else {
      assert i + 1 < |s|;
      SkipStable(s, t, i);
      MatchingStable(s, t, i + 1, if s[i] == OPEN then depth + 1 else depth);
    }
  }

  lemma LoneStays(s: seq<Byte>, i: nat)
    requires i < |s|
    ensures Lone(s, i) ==> SkipAt(s, i) == Past(i)
  {}

  lemma {:induction false} FindByteStable(s: seq<Byte>, t: seq<Byte>, i: nat, b: Byte)
    requires s <= t && !FindByte(s, i, b).More? && b != SLASH && b != LETTER_B
    ensures FindByte(t, i, b) == FindByte(s, i, b)
    decreases |s| - i
  {
    hide SkipAt;
    LoneStays(s, i);
    SkipStable(s, t, i);
    var r := SkipAt(s, i);
    if r.Past? && r.j != i {
      FindByteStable(s, t, r.j, b);
    } else if r.Past? && s[i] != b {
      FindByteStable(s, t, i + 1, b);
    }
  }

  lemma {:induction false} FindKeywordStable(s: seq<Byte>, t: seq<Byte>, i: nat)
    requires s <= t && !FindKeyword(s, i).More?
    ensures FindKeyword(t, i) == FindKeyword(s, i)
    decreases |s| - i
  {
    hide SkipAt;
    LoneStays(s, i);
    SkipStable(s, t, i);
    var r := SkipAt(s, i);
    if r.Past? && r.j != i {
      FindKeywordStable(s, t, r.j);
    } else if r.Past? {
      KeywordStable(s, t, i);
      if i + 8 > |s| && KeywordAt(t, i) {
        KeywordCut(s, t, i, i);
      } else if !KeywordAt(s, i) || IdentPart(s[i + 8]) {
        FindKeywordStable(s, t, i + 1);
      }
    }
  }

  /** A keyword cut off by the end of the input is not passed over: nothing after
      its first byte opens a literal or another keyword. */
  lemma {:induction false} KeywordCut(s: seq<Byte>, t: seq<Byte>, i: nat, k: nat)
    requires s <= t && KeywordAt(t, i) && i <= k <= |s| < i + 8
    ensures FindKeyword(s, k).More?
    decreases |s| - k
  {
    if k < |s| {
      assert s[k] == t[i..i + 8][k - i] == KEYWORD[k - i];
      assert SkipAt(s, k) == Past(k);
      KeywordCut(s, t, i, k + 1);
    }
  }

  lemma KeywordStable(s: seq<Byte>, t: seq<Byte>, i: nat)
    requires s <= t
    ensures i + 8 <= |s| ==> KeywordAt(t, i) == KeywordAt(s, i)
  {
    if i + 8 <= |s| {
      assert t[i..i + 8] == s[i..i + 8];
    }
  }

  /** Once the header's end, or a malformed literal before it, has been found, more
      input does not move it. */
  lemma HeaderStable(s: seq<Byte>, t: seq<Byte>)
    requires s <= t && !HeaderEnd(s).More?
    ensures HeaderEnd(t) == HeaderEnd(s)
  {
    hide FindKeyword, FindByte, Matching;
    FindKeywordStable(s, t, 0);
    var at := FindKeyword(s, 0);
    if at.Stop? {
      FindByteStable(s, t, at.at + 8, OPEN);
      var open := FindByte(s, at.at + 8, OPEN);
      if open.Stop? {
        MatchingStable(s, t, open.at + 1, 1);
      }
    }
  }

  /** The answer may change as more input arrives. */
  predicate Open(s: seq<Byte>, r: Next) {
    r.NeedMore? || r.InRow? || (r.NotARow? && Lone(s, r.at))
  }

  /** Every other answer stands on every extension of the input. */
  lemma {:induction false} FindRowStable(s: seq<Byte>, t: seq<Byte>, i: nat)
    requires s <= t && !Open(s, FindRow(s, i))
    ensures FindRow(t, i) == FindRow(s, i)
    decreases |s| - i
  {
    hide SkipAt, Matching;
    if Blank(s[i]) {
      FindRowStable(s, t, i + 1);
    } else {
      LoneStays(s, i);
      var r := SkipAt(s, i);
      if !Lone(s, i) {
        NotOpenSkip(s, i);
        SkipStable(s, t, i);
      }
      if r.Past? && r.j != i {
        FindRowStable(s, t, r.j);
      } else if r.Past? && s[i] == OPEN {
        MatchingStable(s, t, i + 1, 1);
      }
    }
  }

  /** That between rows an entry was met is final exactly when the byte it was met at
      is not the last to arrive, or can open nothing. */
  lemma RefusalStableExactly(s: seq<Byte>)
    requires FindRow(s, 0).NotARow?
    ensures (forall t :: s <= t ==> FindRow(t, 0) == FindRow(s, 0)) <==> !Lone(s, FindRow(s, 0).at)
  {
    if Lone(s, FindRow(s, 0).at) {
      var more := if s[FindRow(s, 0).at] == SLASH then SLASH else QUOTE;
      LoneOpens(s, s + [more], 0);
      assert FindRow(s + [more], 0) != FindRow(s, 0);
    } else {
      forall t | s <= t ensures FindRow(t, 0) == FindRow(s, 0) {
        FindRowStable(s, t, 0);
      }
    }
  }

  lemma {:induction false} LoneOpens(s: seq<Byte>, t: seq<Byte>, i: nat)
    requires FindRow(s, i).NotARow? && Lone(s, FindRow(s, i).at)
    requires t == s + [if s[|s| - 1] == SLASH then SLASH else QUOTE]
    ensures FindRow(t, i) == NeedMore
    decreases |s| - i
  {
    hide Matching;
    if Blank(s[i]) {
      LoneOpens(s, t, i + 1);
    } else if SkipAt(s, i) == Past(i) {
      assert s[|s| - 1] == SLASH ==> LineEnd(t, i + 2) == |t|;
    } else {
      var j := SkipAt(s, i).j;
      assert j < |s| && !Lone(s, i);
      SkipStable(s, t, i);
      LoneOpens(s, t, j);
    }
  }

  lemma NotOpenSkip(s: seq<Byte>, i: nat)
    requires i < |s| && !Open(s, FindRow(s, i)) && !Blank(s[i])
    ensures SkipAt(s, i).Malformed? || (SkipAt(s, i).Past? && SkipAt(s, i).j < |s|)
  {
    hide SkipAt;
    assert FindRow(s, |s|) == NeedMore;
  }

  /** Once inside a row, more input only completes that row or spoils it. */
  lemma {:induction false} InRowStays(s: seq<Byte>, t: seq<Byte>, i: nat)
    requires s <= t && FindRow(s, i).InRow?
    ensures FindRow(t, i).InRow? || FindRow(t, i).BadLiteral? || (FindRow(t, i).Found? && FindRow(t, i).end >= |s|)
    decreases |s| - i
  {
    hide SkipAt, Matching;
    if Blank(s[i]) {
      InRowStays(s, t, i + 1);
    } else {
      var r := SkipAt(s, i);
      assert r.Past? && r.j < |s|;
      LoneNotInRow(s, i);
      SkipStable(s, t, i);
      if r.j != i {
        InRowStays(s, t, r.j);
      } else {
        MatchingLate(s, t, i + 1, 1);
      }
    }
  }

  lemma LoneNotInRow(s: seq<Byte>, i: nat)
    requires i < |s| && FindRow(s, i).InRow? && !Blank(s[i])
    ensures !Lone(s, i)
  {
    LoneStays(s, i);
    hide SkipAt, Matching;
  }

  /** A parenthesis found only later is later. */
  lemma MatchingLate(s: seq<Byte>, t: seq<Byte>, i: nat, depth: nat)
    requires s <= t && depth > 0 && Matching(s, i, depth).More?
    ensures Matching(t, i, depth).Stop? ==> Matching(t, i, depth).at >= |s|
  {
    hide Matching;
    var r := Matching(t, i, depth);
    if r.Stop? && r.at < |s| {
      MatchingLocal(s, t, i, depth);
    }
  }

  /** The closing parenthesis is found in any prefix that holds it. */
  lemma {:induction false} MatchingLocal(s: seq<Byte>, t: seq<Byte>, i: nat, depth: nat)
    requires s <= t && depth > 0 && Matching(t, i, depth).Stop? && Matching(t, i, depth).at < |s|
    ensures Matching(s, i, depth) == Matching(t, i, depth)
    decreases |s| - i
  {
    hide SkipAt;
    var r := SkipAt(t, i);
    SkipLocal(s, t, i);
    if r.j != i {
      MatchingLocal(s, t, r.j, depth);
    } else if s[i] == OPEN {
      MatchingLocal(s, t, i + 1, depth + 1);
    } else if s[i] == CLOSE {
      if depth > 1 {
        MatchingLocal(s, t, i + 1, depth - 1);
      }
    } else {
      MatchingLocal(s, t, i + 1, depth);
    }
  }

  /** A skip that ends inside a prefix ends there in the prefix. */
  lemma SkipLocal(s: seq<Byte>, t: seq<Byte>, i: nat)
    requires s <= t && i < |s| && SkipAt(t, i).Past? && SkipAt(t, i).j < |s|
    ensures SkipAt(s, i) == SkipAt(t, i)
  {
    if s[i] == QUOTE {
      StringLocal(s, t, i + 1);
      TripleLocal(s, t, i + 3);
    } else if s[i] == LETTER_B {
      StringLocal(s, t, i + 2);
    } else if s[i] == HASH {
      LineLocal(s, t, i + 1);
    } else if s[i] == SLASH && i + 1 < |s| {
      LineLocal(s, t, i + 2);
      CommentLocal(s, t, i + 2);
    }
  }

  lemma {:induction false} StringLocal(s: seq<Byte>, t: seq<Byte>, j: nat)
    requires s <= t
    ensures StringEnd(t, j).Past? && StringEnd(t, j).j <= |s| ==> StringEnd(s, j) == StringEnd(t, j)
    decreases |s| - j
  {
    if j < |s| {
      StringLocal(s, t, j + 1);
      if j + 1 < |s| {
        StringLocal(s, t, j + 2);
      }
    }
  }

  lemma {:induction false} TripleLocal(s: seq<Byte>, t: seq<Byte>, j: nat)
    requires s <= t
    ensures TripleEnd(t, j).Past? && TripleEnd(t, j).j <= |s| ==> TripleEnd(s, j) == TripleEnd(t, j)
    decreases |s| - j
  {
    if j < |s| {
      TripleLocal(s, t, j + 1);
    }
  }

  lemma {:induction false} LineLocal(s: seq<Byte>, t: seq<Byte>, j: nat)
    requires s <= t && j <= |s|
    ensures LineEnd(t, j) < |s| ==> LineEnd(s, j) == LineEnd(t, j)
    decreases |s| - j
  {
    if j < |s| {
      LineLocal(s, t, j + 1);
    }
  }

  lemma {:induction false} CommentLocal(s: seq<Byte>, t: seq<Byte>, j: nat)
    requires s <= t
    ensures CommentEnd(t, j).Past? && CommentEnd(t, j).j <= |s| ==> CommentEnd(s, j) == CommentEnd(t, j)
    decreases |s| - j
  {
    if j < |s| {
      CommentLocal(s, t, j + 1);
    }
  }
}
