/** The text between rows and inside them as pieces: literals, comments and single
    bytes. The scanner skips exactly these; nothing here is defined by its functions. */
module RowPieces {
  import opened Bytes
  import opened RowScanner

  // Literals, comments and other bytes.

  /** A character of a quoted literal: a byte, or a backslash and any byte. */
  datatype Char = Plain(b: Byte) | Escaped(b: Byte)

  datatype Piece =
    | Quoted(chars: seq<Char>)
    | Binary(chars: seq<Char>)
    | Triple(body: seq<Byte>)
    | Line(slashes: bool, body: seq<Byte>)
    | Block(body: seq<Byte>)
    | One(b: Byte)

  const QUOTES: seq<Byte> := [QUOTE, QUOTE, QUOTE]
  const STAR_SLASH: seq<Byte> := [STAR, SLASH]

  function CharText(c: Char): seq<Byte> {
    match c
    case Plain(b) => [b]
    case Escaped(b) => [BACKSLASH, b]
  }

  function CharsText(cs: seq<Char>): seq<Byte> {
    if cs == [] then [] else CharText(cs[0]) + CharsText(cs[1..])
  }

  function PieceText(p: Piece): (t: seq<Byte>)
    ensures t != []
  {
    match p
    case Quoted(cs) => [QUOTE] + (CharsText(cs) + [QUOTE])
    case Binary(cs) => [LETTER_B, QUOTE] + (CharsText(cs) + [QUOTE])
    case Triple(body) => QUOTES + (body + QUOTES)
    case Line(slashes, body) => (if slashes then [SLASH, SLASH] else [HASH]) + body
    case Block(body) => [SLASH, STAR] + (body + STAR_SLASH)
    case One(b) => [b]
  }

  function Text(ps: seq<Piece>): seq<Byte> {
    if ps == [] then [] else PieceText(ps[0]) + Text(ps[1..])
  }

  predicate PlainChars(cs: seq<Char>) {
    forall i :: 0 <= i < |cs| && cs[i].Plain? ==> cs[i].b != BACKSLASH && cs[i].b != QUOTE && cs[i].b != NEWLINE
  }

  /** The mark does not stand in the text before its end. */
  predicate Ends(body: seq<Byte>, mark: seq<Byte>) {
    forall k :: 0 <= k < |body| ==> !(mark <= (body + mark)[k..])
  }

  predicate Starts(t: seq<Byte>, b: Byte) {
    t != [] && t[0] == b
  }

  /** The piece is what the text rest may follow: no other literal or comment opens
      there, and none ends sooner or later. */
  predicate Fits(p: Piece, rest: seq<Byte>) {
    match p
    case Quoted(cs) => PlainChars(cs) && (cs == [] ==> !Starts(rest, QUOTE))
    case Binary(cs) => PlainChars(cs)
    case Triple(body) => Ends(body, QUOTES)
    case Line(_, body) => NEWLINE !in body && (rest == [] || rest[0] == NEWLINE)
    case Block(body) => Ends(body, STAR_SLASH)
    case One(b) =>
      && b != QUOTE && b != HASH
      && (b == LETTER_B ==> !Starts(rest, QUOTE))
      && (b == SLASH ==> !Starts(rest, SLASH) && !Starts(rest, STAR))
  }

  predicate AllFit(ps: seq<Piece>, rest: seq<Byte>) {
    ps != [] ==> Fits(ps[0], Text(ps[1..]) + rest) && AllFit(ps[1..], rest)
  }

  // A piece is skipped whole.

  lemma {:induction false} After(s: seq<Byte>, i: nat, a: seq<Byte>, b: seq<Byte>)
    requires i <= |s| && s[i..] == a + b
    ensures i + |a| <= |s| && s[i + |a|..] == b && s[i..i + |a|] == a
    ensures a != [] ==> i < |s| && s[i] == a[0]
  {
    assert |s[i..]| == |a| + |b|;
    assert s[i + |a|..] == s[i..][|a|..];
    assert s[i..i + |a|] == s[i..][..|a|];
    assert a != [] ==> s[i] == s[i..][0];
  }

  lemma {:induction false} CharsEnd(s: seq<Byte>, j: nat, cs: seq<Char>, rest: seq<Byte>)
    requires j <= |s| && s[j..] == CharsText(cs) + ([QUOTE] + rest) && PlainChars(cs)
    ensures StringEnd(s, j) == Past(j + |CharsText(cs)| + 1)
    decreases |cs|
  {
    if cs == [] {
      After(s, j, CharsText(cs), [QUOTE] + rest);
      After(s, j, [QUOTE], rest);
    } else {
      var head, tail := CharText(cs[0]), CharsText(cs[1..]) + ([QUOTE] + rest);
      assert s[j..] == head + tail;
      After(s, j, head, tail);
      if cs[0].Escaped? {
        assert s[j..][1] == s[j + 1];
      }
      CharsEnd(s, j + |head|, cs[1..], rest);
    }
  }

  lemma {:induction false} TripleEnds(s: seq<Byte>, j: nat, body: seq<Byte>, rest: seq<Byte>)
    requires j <= |s| && s[j..] == body + (QUOTES + rest) && Ends(body, QUOTES)
    ensures TripleEnd(s, j) == Past(j + |body| + 3)
    decreases |body|
  {
    assert |s[j..]| == |body| + 3 + |rest|;
    if body == [] {
      assert s[j..] == QUOTES + rest;
      assert s[j] == s[j..][0] && s[j + 1] == s[j..][1] && s[j + 2] == s[j..][2];
    } else {
      NotYet(s, j, body, QUOTES, rest);
      EndsRest(body, QUOTES);
      assert s[j + 1..] == s[j..][1..];
      assert s[j..][1..] == body[1..] + (QUOTES + rest);
      assert s[j] == s[j..][0] && s[j + 1] == s[j..][1] && s[j + 2] == s[j..][2];
      TripleEnds(s, j + 1, body[1..], rest);
    }
  }

  lemma {:induction false} EndsRest(body: seq<Byte>, mark: seq<Byte>)
    requires body != [] && Ends(body, mark)
    ensures Ends(body[1..], mark)
  {
    forall k | 0 <= k < |body[1..]| ensures !(mark <= (body[1..] + mark)[k..]) {
      assert (body[1..] + mark)[k..] == (body + mark)[k + 1..];
    }
  }

  lemma {:induction false} NotYet(s: seq<Byte>, j: nat, body: seq<Byte>, mark: seq<Byte>, rest: seq<Byte>)
    requires j <= |s| && s[j..] == body + (mark + rest) && body != [] && Ends(body, mark)
    ensures exists k :: 0 <= k < |mark| && s[j..][k] != mark[k]
  {
    assert !(mark <= (body + mark)[0..]);
    var k :| 0 <= k < |mark| && mark[k] != (body + mark)[0..][k];
    assert s[j..][k] == (body + mark)[k];
  }

  lemma {:induction false} BlockEnds(s: seq<Byte>, j: nat, body: seq<Byte>, rest: seq<Byte>)
    requires j <= |s| && s[j..] == body + (STAR_SLASH + rest) && Ends(body, STAR_SLASH)
    ensures CommentEnd(s, j) == Past(j + |body| + 2)
    decreases |body|
  {
    assert |s[j..]| == |body| + 2 + |rest|;
    if body == [] {
      assert s[j..] == STAR_SLASH + rest;
      assert s[j] == s[j..][0] && s[j + 1] == s[j..][1];
    } else {
      NotYet(s, j, body, STAR_SLASH, rest);
      EndsRest(body, STAR_SLASH);
      assert s[j + 1..] == s[j..][1..];
      assert s[j..][1..] == body[1..] + (STAR_SLASH + rest);
      assert s[j] == s[j..][0] && s[j + 1] == s[j..][1];
      BlockEnds(s, j + 1, body[1..], rest);
    }
  }

  lemma {:induction false} LineEnds(s: seq<Byte>, j: nat, body: seq<Byte>, rest: seq<Byte>)
    requires j <= |s| && s[j..] == body + rest && NEWLINE !in body && (rest == [] || rest[0] == NEWLINE)
    ensures LineEnd(s, j) == j + |body|
    decreases |body|
  {
    assert |s[j..]| == |body| + |rest|;
    if body == [] {
      assert rest != [] ==> s[j] == s[j..][0] == rest[0];
    } else {
      assert s[j] == s[j..][0] == body[0];
      assert s[j + 1..] == s[j..][1..] == body[1..] + rest;
      LineEnds(s, j + 1, body[1..], rest);
    }
  }

  /** Past a literal or a comment; at any other byte nothing is skipped. */
  lemma {:induction false} PieceSkipped(s: seq<Byte>, i: nat, p: Piece, rest: seq<Byte>)
    requires i <= |s| && s[i..] == PieceText(p) + rest && Fits(p, rest)
    ensures i + |PieceText(p)| <= |s| && s[i + |PieceText(p)|..] == rest
    ensures SkipAt(s, i) == Past(if p.One? then i else i + |PieceText(p)|)
  {
    After(s, i, PieceText(p), rest);
    match p
    case Quoted(cs) => QuotedSkipped(s, i, cs, rest);
    case Binary(cs) => BinarySkipped(s, i, cs, rest);
    case Triple(body) => TripleSkipped(s, i, body, rest);
    case Line(slashes, body) => LineSkipped(s, i, slashes, body, rest);
    case Block(body) => BlockSkipped(s, i, body, rest);
    case One(b) =>
      if i + 1 < |s| {
        assert s[i + 1] == s[i..][1] == rest[0];
      }
      hide StringEnd, TripleEnd, CommentEnd, LineEnd;
  }

  lemma {:induction false} BinarySkipped(s: seq<Byte>, i: nat, cs: seq<Char>, rest: seq<Byte>)
    requires i <= |s| && s[i..] == PieceText(Binary(cs)) + rest && PlainChars(cs)
    ensures SkipAt(s, i) == Past(i + |PieceText(Binary(cs))|)
  {
    hide StringEnd, TripleEnd, CommentEnd, LineEnd;
    var inner := CharsText(cs) + ([QUOTE] + rest);
    assert s[i..] == [LETTER_B, QUOTE] + inner;
    After(s, i, [LETTER_B, QUOTE], inner);
    assert s[i + 1] == s[i..][1];
    CharsEnd(s, i + 2, cs, rest);
  }

  lemma {:induction false} TripleSkipped(s: seq<Byte>, i: nat, body: seq<Byte>, rest: seq<Byte>)
    requires i <= |s| && s[i..] == PieceText(Triple(body)) + rest && Ends(body, QUOTES)
    ensures SkipAt(s, i) == Past(i + |PieceText(Triple(body))|)
  {
    hide StringEnd, TripleEnd, CommentEnd, LineEnd, Ends;
    var inner := body + (QUOTES + rest);
    assert s[i..] == QUOTES + inner;
    After(s, i, QUOTES, inner);
    assert s[i + 1] == s[i..][1] && s[i + 2] == s[i..][2];
    TripleEnds(s, i + 3, body, rest);
  }

  lemma {:induction false} LineSkipped(s: seq<Byte>, i: nat, slashes: bool, body: seq<Byte>, rest: seq<Byte>)
    requires i <= |s| && s[i..] == PieceText(Line(slashes, body)) + rest
    requires NEWLINE !in body && (rest == [] || rest[0] == NEWLINE)
    ensures SkipAt(s, i) == Past(i + |PieceText(Line(slashes, body))|)
  {
    hide StringEnd, TripleEnd, CommentEnd, LineEnd;
    var mark := if slashes then [SLASH, SLASH] else [HASH];
    assert s[i..] == mark + (body + rest);
    After(s, i, mark, body + rest);
    if slashes {
      assert s[i + 1] == s[i..][1];
    }
    LineEnds(s, i + |mark|, body, rest);
  }

  lemma {:induction false} BlockSkipped(s: seq<Byte>, i: nat, body: seq<Byte>, rest: seq<Byte>)
    requires i <= |s| && s[i..] == PieceText(Block(body)) + rest && Ends(body, STAR_SLASH)
    ensures SkipAt(s, i) == Past(i + |PieceText(Block(body))|)
  {
    hide StringEnd, TripleEnd, CommentEnd, LineEnd, Ends;
    var inner := body + (STAR_SLASH + rest);
    assert s[i..] == [SLASH, STAR] + inner;
    After(s, i, [SLASH, STAR], inner);
    assert s[i + 1] == s[i..][1];
    BlockEnds(s, i + 2, body, rest);
  }

  lemma {:induction false} QuotedSkipped(s: seq<Byte>, i: nat, cs: seq<Char>, rest: seq<Byte>)
    requires i <= |s| && s[i..] == PieceText(Quoted(cs)) + rest && Fits(Quoted(cs), rest)
    ensures SkipAt(s, i) == Past(i + |PieceText(Quoted(cs))|)
  {
    hide StringEnd, TripleEnd, CommentEnd, LineEnd;
    var inner := CharsText(cs) + ([QUOTE] + rest);
    assert s[i..] == [QUOTE] + inner;
    After(s, i, [QUOTE], inner);
    CharsEnd(s, i + 1, cs, rest);
    assert s[i + 1] == inner[0] by { assert s[i + 1..][0] == inner[0]; }
    if cs == [] {
      assert inner == [QUOTE] + rest;
      if i + 2 < |s| {
        assert s[i + 2] == s[i + 1..][1] == rest[0];
      }
    } else {
      FirstChar(cs);
      assert inner[0] == CharText(cs[0])[0];
    }
  }

  lemma {:induction false} FirstChar(cs: seq<Char>)
    requires cs != [] && PlainChars(cs)
    ensures CharsText(cs) != [] && CharsText(cs)[0] == CharText(cs[0])[0] != QUOTE
  {}

  // What is skipped is a piece.

  lemma {:induction false} CharsOf(s: seq<Byte>, j: nat) returns (cs: seq<Char>)
    requires j <= |s| && StringEnd(s, j).Past?
    ensures var k := StringEnd(s, j).j;
            PlainChars(cs) && s[j..k] == CharsText(cs) + [QUOTE]
    decreases |s| - j
  {
    var k := StringEnd(s, j).j;
    if s[j] == QUOTE {
      cs := [];
      assert s[j..k] == [QUOTE];
    } else {
      var c := if s[j] == BACKSLASH then Escaped(s[j + 1]) else Plain(s[j]);
      var rest := CharsOf(s, j + |CharText(c)|);
      cs := [c] + rest;
      assert cs[1..] == rest;
      assert s[j..k] == CharText(c) + s[j + |CharText(c)|..k];
      assert s[j..k] == CharText(c) + (CharsText(rest) + [QUOTE]);
    }
  }

  /** A mark found where it first stands. */
  lemma {:induction false} FirstMark(body: seq<Byte>, mark: seq<Byte>)
    requires body != [] && Ends(body[1..], mark) && !(mark <= body + mark)
    ensures Ends(body, mark)
  {
    forall k | 0 <= k < |body| ensures !(mark <= (body + mark)[k..]) {
      if k > 0 {
        assert (body + mark)[k..] == (body[1..] + mark)[k - 1..];
      } else {
        assert (body + mark)[0..] == body + mark;
      }
    }
  }

  lemma {:induction false} TripleOf(s: seq<Byte>, j: nat) returns (body: seq<Byte>)
    requires j <= |s| && TripleEnd(s, j).Past?
    ensures var k := TripleEnd(s, j).j;
            Ends(body, QUOTES) && s[j..k] == body + QUOTES
    decreases |s| - j
  {
    var k := TripleEnd(s, j).j;
    if s[j] == QUOTE && s[j + 1] == QUOTE && s[j + 2] == QUOTE {
      body := [];
      assert s[j..k] == QUOTES;
    } else {
      var rest := TripleOf(s, j + 1);
      body := [s[j]] + rest;
      assert body[1..] == rest;
      assert s[j..k] == [s[j]] + s[j + 1..k];
      assert body + QUOTES == s[j..k];
      assert (body + QUOTES)[0] == s[j] && (body + QUOTES)[1] == s[j + 1] && (body + QUOTES)[2] == s[j + 2];
      FirstMark(body, QUOTES);
    }
  }

  lemma {:induction false} BlockOf(s: seq<Byte>, j: nat) returns (body: seq<Byte>)
    requires j <= |s| && CommentEnd(s, j).Past?
    ensures var k := CommentEnd(s, j).j;
            Ends(body, STAR_SLASH) && s[j..k] == body + STAR_SLASH
    decreases |s| - j
  {
    var k := CommentEnd(s, j).j;
    if s[j] == STAR && s[j + 1] == SLASH {
      body := [];
      assert s[j..k] == STAR_SLASH;
    } else {
      var rest := BlockOf(s, j + 1);
      body := [s[j]] + rest;
      assert body[1..] == rest;
      assert s[j..k] == [s[j]] + s[j + 1..k];
      assert body + STAR_SLASH == s[j..k];
      assert (body + STAR_SLASH)[0] == s[j] && (body + STAR_SLASH)[1] == s[j + 1];
      FirstMark(body, STAR_SLASH);
    }
  }

  lemma {:induction false} LineOf(s: seq<Byte>, j: nat)
    requires j <= |s|
    ensures NEWLINE !in s[j..LineEnd(s, j)]
    decreases |s| - j
  {
    var k := LineEnd(s, j);
    if k > j {
      LineOf(s, j + 1);
      assert s[j..k] == [s[j]] + s[j + 1..k];
    }
  }

  /** The piece that stands at a position. */
  lemma {:induction false} PieceOf(s: seq<Byte>, i: nat) returns (p: Piece)
    requires i < |s| && SkipAt(s, i).Past?
    ensures var k := if SkipAt(s, i).j == i then i + 1 else SkipAt(s, i).j;
            s[i..k] == PieceText(p) && Fits(p, s[k..]) && (p.One? <==> SkipAt(s, i).j == i) && (p.One? ==> p.b == s[i])
  {
    var j := SkipAt(s, i).j;
    if j == i {
      p := One(s[i]);
      OneStands(s, i);
      hide SkipAt, Fits;
    } else if s[i] == QUOTE {
      p := QuotedOf(s, i);
      hide SkipAt, Fits, PieceText;
    } else if s[i] == LETTER_B {
      var cs := CharsOf(s, i + 2);
      p := Binary(cs);
      assert s[i..j] == [LETTER_B, QUOTE] + s[i + 2..j];
    } else {
      p := CommentOf(s, i);
      hide SkipAt, Fits, PieceText;
    }
  }

  lemma {:induction false} CommentOf(s: seq<Byte>, i: nat) returns (p: Piece)
    requires i < |s| && SkipAt(s, i).Past? && s[i] in [HASH, SLASH] && SkipAt(s, i).j != i
    ensures var k := SkipAt(s, i).j;
            k > i && s[i..k] == PieceText(p) && Fits(p, s[k..]) && !p.One?
  {
    hide StringEnd, TripleEnd;
    var j := SkipAt(s, i).j;
    if s[i] == HASH {
      LineOf(s, i + 1);
      p := Line(false, s[i + 1..j]);
      assert s[i..j] == [HASH] + s[i + 1..j];
    } else if s[i + 1] == SLASH {
      LineOf(s, i + 2);
      p := Line(true, s[i + 2..j]);
      assert s[i..j] == [SLASH, SLASH] + s[i + 2..j];
    } else {
      var body := BlockOf(s, i + 2);
      p := Block(body);
      assert s[i..j] == [SLASH, STAR] + s[i + 2..j];
    }
  }

  lemma {:induction false} OneStands(s: seq<Byte>, i: nat)
    requires i < |s| && SkipAt(s, i) == Past(i)
    ensures Fits(One(s[i]), s[i + 1..])
  {
    hide TripleEnd, CommentEnd;
    if i + 1 < |s| {
      assert s[i + 1..][0] == s[i + 1];
    } else {
      assert s[i + 1..] == [];
    }
  }

  lemma {:induction false} QuotedOf(s: seq<Byte>, i: nat) returns (p: Piece)
    requires i < |s| && s[i] == QUOTE && SkipAt(s, i).Past?
    ensures var k := SkipAt(s, i).j;
            k > i && s[i..k] == PieceText(p) && Fits(p, s[k..]) && !p.One?
  {
    var k := SkipAt(s, i).j;
    if i + 2 < |s| && s[i + 1] == QUOTE && s[i + 2] == QUOTE {
      var body := TripleOf(s, i + 3);
      p := Triple(body);
      assert s[i..k] == QUOTES + s[i + 3..k];
    } else {
      var cs := CharsOf(s, i + 1);
      p := Quoted(cs);
      assert s[i..k] == [QUOTE] + s[i + 1..k];
      if cs == [] {
        assert s[i + 1..k] == [QUOTE];
        assert s[i + 1] == s[i + 1..k][0];
      }
    }
  }

  // Text that holds pieces.

  /** The text between two positions is these pieces. */
  predicate Reads(s: seq<Byte>, i: nat, k: nat, ps: seq<Piece>) {
    i <= k <= |s| && s[i..k] == Text(ps) && AllFit(ps, s[k..])
  }

  /** A literal that a newline cuts off opens the text. */
  ghost predicate Broken(t: seq<Byte>) {
    exists cs :: PlainChars(cs) && Cut(cs, t)
  }

  predicate Cut(cs: seq<Char>, t: seq<Byte>) {
    [QUOTE] + CharsText(cs) + [NEWLINE] <= t || [LETTER_B, QUOTE] + CharsText(cs) + [NEWLINE] <= t
  }

  /** The scanner stands at the end, or at something that is no literal or comment that ends. */
  predicate Halts(s: seq<Byte>, k: nat) {
    k < |s| ==> SkipAt(s, k) in {Past(k), Incomplete, Malformed}
  }

  lemma {:induction false} FirstRead(s: seq<Byte>, i: nat, k: nat, ps: seq<Piece>)
    requires ps != [] && Reads(s, i, k, ps)
    ensures var j := i + |PieceText(ps[0])|;
            i < j <= k && s[i..] == PieceText(ps[0]) + s[j..] && Fits(ps[0], s[j..]) && Reads(s, j, k, ps[1..])
  {
    hide PieceText, Fits;
    var j := i + |PieceText(ps[0])|;
    assert |s[i..k]| == |PieceText(ps[0])| + |Text(ps[1..])|;
    assert s[i..] == s[i..k] + s[k..];
    var tail := Text(ps[1..]) + s[k..];
    assert s[i..] == PieceText(ps[0]) + tail;
    After(s, i, PieceText(ps[0]), tail);
    assert s[j..k] == tail[..k - j];
  }

  /** A piece before pieces. */
  lemma {:induction false} Prepend(s: seq<Byte>, i: nat, j: nat, k: nat, p: Piece, ps: seq<Piece>)
    requires i <= j && Reads(s, j, k, ps) && s[i..j] == PieceText(p) && Fits(p, s[j..])
    ensures Reads(s, i, k, [p] + ps) && ([p] + ps)[1..] == ps
  {
    hide Fits, PieceText;
    assert ([p] + ps)[1..] == ps;
    assert s[i..k] == s[i..j] + s[j..k];
    assert s[j..] == s[j..k] + s[k..];
  }

  lemma {:induction false} FirstSkipped(s: seq<Byte>, i: nat, k: nat, ps: seq<Piece>)
    requires ps != [] && Reads(s, i, k, ps)
    ensures var j := i + |PieceText(ps[0])|;
            i < j <= k && Reads(s, j, k, ps[1..])
            && SkipAt(s, i) == Past(if ps[0].One? then i else j)
            && (ps[0].One? ==> s[i] == ps[0].b && j == i + 1)
  {
    FirstRead(s, i, k, ps);
    hide Fits, SkipAt, Text, AllFit;
    var j := i + |PieceText(ps[0])|;
    PieceSkipped(s, i, ps[0], s[j..]);
    After(s, i, PieceText(ps[0]), s[j..]);
  }

  lemma {:induction false} PieceAt(s: seq<Byte>, i: nat) returns (p: Piece, j: nat)
    requires i < |s| && SkipAt(s, i).Past?
    ensures i < j <= |s| && s[i..j] == PieceText(p) && Fits(p, s[j..])
    ensures SkipAt(s, i) == Past(if p.One? then i else j) && (p.One? ==> j == i + 1 && p.b == s[i])
  {
    hide SkipAt, Fits;
    p := PieceOf(s, i);
    j := if SkipAt(s, i).j == i then i + 1 else SkipAt(s, i).j;
  }

  // A literal that a newline cuts off.

  lemma {:induction false} CutChars(s: seq<Byte>, j: nat, cs: seq<Char>)
    requires j <= |s| && CharsText(cs) + [NEWLINE] <= s[j..] && PlainChars(cs)
    ensures StringEnd(s, j).Malformed?
    decreases |cs|
  {
    var t := CharsText(cs) + [NEWLINE];
    assert s[j..] == t + s[j..][|t|..];
    if cs == [] {
      assert s[j] == s[j..][0] == NEWLINE;
    } else {
      var head, tail := CharText(cs[0]), CharsText(cs[1..]) + [NEWLINE];
      assert t == head + tail;
      After(s, j, head, tail + s[j..][|t|..]);
      if cs[0].Escaped? {
        assert s[j..][1] == s[j + 1];
      }
      CutChars(s, j + |head|, cs[1..]);
    }
  }

  lemma {:induction false} CharsCut(s: seq<Byte>, j: nat) returns (cs: seq<Char>)
    requires j <= |s| && StringEnd(s, j).Malformed?
    ensures PlainChars(cs) && CharsText(cs) + [NEWLINE] <= s[j..]
    decreases |s| - j
  {
    if s[j] == NEWLINE {
      cs := [];
      assert s[j..][0] == NEWLINE;
    } else {
      var c := if s[j] == BACKSLASH then Escaped(s[j + 1]) else Plain(s[j]);
      var next := j + |CharText(c)|;
      var rest := CharsCut(s, next);
      cs := [c] + rest;
      assert cs[1..] == rest;
      assert s[j..] == CharText(c) + s[next..];
      assert CharsText(cs) + [NEWLINE] == CharText(c) + (CharsText(rest) + [NEWLINE]);
    }
  }

  lemma {:induction false} BrokenExactly(s: seq<Byte>, i: nat)
    requires i < |s|
    ensures SkipAt(s, i).Malformed? <==> Broken(s[i..])
  {
    if Broken(s[i..]) {
      var cs :| PlainChars(cs) && Cut(cs, s[i..]);
      BrokenSkip(s, i, cs);
    } else if SkipAt(s, i).Malformed? {
      var cs := SkipBroken(s, i);
    }
  }

  lemma {:induction false} BrokenSkip(s: seq<Byte>, i: nat, cs: seq<Char>)
    requires i < |s| && PlainChars(cs) && Cut(cs, s[i..])
    ensures SkipAt(s, i).Malformed?
  {
    var inner := CharsText(cs) + [NEWLINE];
    if [QUOTE] + CharsText(cs) + [NEWLINE] <= s[i..] {
      assert [QUOTE] + CharsText(cs) + [NEWLINE] == [QUOTE] + inner;
      assert s[i..] == [QUOTE] + s[i + 1..];
      assert inner <= s[i + 1..];
      BrokenString(s, i, cs);
    } else {
      hide StringEnd, TripleEnd, CommentEnd, LineEnd;
      assert [LETTER_B, QUOTE] + CharsText(cs) + [NEWLINE] == [LETTER_B, QUOTE] + inner;
      assert s[i..][0] == LETTER_B && s[i..][1] == QUOTE;
      assert s[i..] == [LETTER_B, QUOTE] + s[i + 2..];
      assert inner <= s[i + 2..];
      CutChars(s, i + 2, cs);
    }
  }

  lemma {:induction false} BrokenString(s: seq<Byte>, i: nat, cs: seq<Char>)
    requires i < |s| && PlainChars(cs) && s[i] == QUOTE && CharsText(cs) + [NEWLINE] <= s[i + 1..]
    ensures SkipAt(s, i).Malformed?
  {
    hide StringEnd, TripleEnd, CommentEnd, LineEnd;
    CutChars(s, i + 1, cs);
    if cs != [] {
      FirstChar(cs);
    }
    assert s[i + 1] == s[i + 1..][0] == (CharsText(cs) + [NEWLINE])[0];
  }

  lemma {:induction false} SkipBroken(s: seq<Byte>, i: nat) returns (cs: seq<Char>)
    requires i < |s| && SkipAt(s, i).Malformed?
    ensures PlainChars(cs) && Cut(cs, s[i..])
  {
    hide StringEnd, TripleEnd, CommentEnd, LineEnd;
    if s[i] == QUOTE {
      cs := CharsCut(s, i + 1);
      assert s[i..] == [QUOTE] + s[i + 1..];
      assert [QUOTE] + CharsText(cs) + [NEWLINE] == [QUOTE] + (CharsText(cs) + [NEWLINE]);
    } else {
      cs := CharsCut(s, i + 2);
      assert s[i..] == [LETTER_B, QUOTE] + s[i + 2..];
      assert [LETTER_B, QUOTE] + CharsText(cs) + [NEWLINE] == [LETTER_B, QUOTE] + (CharsText(cs) + [NEWLINE]);
    }
  }
}
