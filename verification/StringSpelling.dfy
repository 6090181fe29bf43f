/** Quoted strings by their characters and escapes: what each denotes, and that a
    literal is read as what its pieces denote. */
module StringSpelling {
  import opened Options
  import opened Bytes
  import opened Lexing
  import opened Utf8

  /** A character for itself, or an escape: by a letter or mark, two hexadecimal or
      three octal digits for a byte, four or eight hexadecimal digits for a scalar value. */
  datatype Piece =
    | Raw(c: char)
    | Letter(c: char)
    | HexByte(digits: string)
    | OctalByte(digits: string)
    | Short(digits: string)
    | Long(digits: string)

  function Text(p: Piece): string {
    match p
    case Raw(c) => [c]
    case Letter(c) => "\\" + [c]
    case HexByte(digits) => "\\x" + digits
    case OctalByte(digits) => "\\" + digits
    case Short(digits) => "\\u" + digits
    case Long(digits) => "\\U" + digits
  }

  function Texts(ps: seq<Piece>): string {
    if ps == [] then "" else Text(ps[0]) + Texts(ps[1..])
  }

  const LETTERS: string := "\"\\'?abfnrtv"
  const LETTER_BYTES: seq<Byte> := [0x22, 0x5c, 0x27, 0x3f, 7, 8, 12, 10, 13, 9, 11]

  ghost predicate LetterOf(c: char, b: Byte) {
    exists i :: 0 <= i < |LETTERS| && LETTERS[i] == c && LETTER_BYTES[i] == b
  }

  const LOWER: string := "0123456789abcdef"
  const UPPER: string := "0123456789ABCDEF"

  predicate Digit(c: char, base: nat, d: nat) {
    d < base <= 16 && (LOWER[d] == c || UPPER[d] == c)
  }

  function Horner(ds: seq<nat>, base: nat): nat {
    if ds == [] then 0 else base * Horner(ds[..|ds| - 1], base) + ds[|ds| - 1]
  }

  /** The digits write n in the base. */
  ghost predicate Writes(s: string, base: nat, n: nat) {
    exists ds :: WritesAs(s, base, n, ds)
  }

  predicate WritesAs(s: string, base: nat, n: nat, ds: seq<nat>) {
    |ds| == |s| && n == Horner(ds, base) && forall i :: 0 <= i < |s| ==> Digit(s[i], base, ds[i])
  }

  /** The piece stands for these bytes. */
  ghost predicate Denotes(p: Piece, bytes: string) {
    match p
    case Raw(c) => bytes == [c] && c != '"' && c != '\\' && c != '\n'
    case Letter(c) => |bytes| == 1 && bytes[0] < 256 as char && LetterOf(c, bytes[0] as int)
    case HexByte(digits) => |digits| == 2 && |bytes| == 1 && Writes(digits, 16, bytes[0] as int)
    case OctalByte(digits) => |digits| == 3 && |bytes| == 1 && bytes[0] < 256 as char && Writes(digits, 8, bytes[0] as int)
    case Short(digits) => |digits| == 4 && AllOctets(bytes) && exists r :: Writes(digits, 16, r) && Encodes(Octets(bytes), r)
    case Long(digits) => |digits| == 8 && AllOctets(bytes) && exists r :: Writes(digits, 16, r) && Encodes(Octets(bytes), r)
  }

  ghost predicate AllDenote(ps: seq<Piece>, bytes: string)
    decreases |ps|
  {
    if ps == [] then bytes == ""
    else exists k :: 0 <= k <= |bytes| && Denotes(ps[0], bytes[..k]) && AllDenote(ps[1..], bytes[k..])
  }

  // Digits.

  lemma {:induction false} HexIs(c: char, d: nat)
    ensures Hex(c) == Some(d) <==> Digit(c, 16, d)
  {}

  lemma {:induction false} OctalIs(c: char, d: nat)
    ensures Octal(c) == Some(d) <==> Digit(c, 8, d)
  {}

  lemma {:induction false} HexDigits(s: string, n: nat) returns (ds: seq<nat>)
    requires HexNumber(s, n).Some?
    ensures WritesAs(s[..n], 16, HexNumber(s, n).value, ds)
    decreases n
  {
    if n == 0 {
      ds := [];
    } else {
      var d := Hex(s[n - 1]).value;
      HexIs(s[n - 1], d);
      var high := HexDigits(s, n - 1);
      ds := high + [d];
      assert ds[..n - 1] == high;
      assert forall i :: 0 <= i < n - 1 ==> s[..n - 1][i] == s[..n][i] && ds[i] == high[i];
    }
  }

  lemma {:induction false} DigitsHex(s: string, n: nat, v: nat, ds: seq<nat>)
    requires n <= |s| && WritesAs(s[..n], 16, v, ds)
    ensures HexNumber(s, n) == Some(v)
    decreases n
  {
    if n > 0 {
      var high := ds[..n - 1];
      assert s[..n][n - 1] == s[n - 1];
      HexIs(s[n - 1], ds[n - 1]);
      assert forall i :: 0 <= i < n - 1 ==> s[..n - 1][i] == s[..n][i] && ds[i] == high[i];
      DigitsHex(s, n - 1, Horner(high, 16), high);
    }
  }

  lemma {:induction false} HexWrites(s: string, n: nat, v: nat)
    requires n <= |s|
    ensures HexNumber(s, n) == Some(v) <==> Writes(s[..n], 16, v)
  {
    hide HexNumber, WritesAs;
    if HexNumber(s, n) == Some(v) {
      var ds := HexDigits(s, n);
    }
    if ds :| WritesAs(s[..n], 16, v, ds) {
      DigitsHex(s, n, v, ds);
    }
  }

  lemma {:induction false} HornerThree(a: nat, b: nat, c: nat)
    ensures Horner([a, b, c], 8) == 64 * a + 8 * b + c
  {
    assert [a, b, c][..2] == [a, b] && [a, b][..1] == [a] && [a][..0] == [];
    assert Horner([a], 8) == a && Horner([a, b], 8) == 8 * a + b;
  }

  lemma {:induction false} OctalWrites(s: string, a: nat, b: nat, c: nat)
    requires |s| == 3 && Octal(s[0]) == Some(a) && Octal(s[1]) == Some(b) && Octal(s[2]) == Some(c)
    ensures Writes(s, 8, 64 * a + 8 * b + c)
  {
    OctalIs(s[0], a);
    OctalIs(s[1], b);
    OctalIs(s[2], c);
    HornerThree(a, b, c);
    hide Octal, Horner, Digit;
    assert WritesAs(s, 8, 64 * a + 8 * b + c, [a, b, c]);
  }

  lemma {:induction false} OctalRead(s: string, n: nat)
    requires |s| == 3 && Writes(s, 8, n)
    ensures Octal(s[0]).Some? && Octal(s[1]).Some? && Octal(s[2]).Some?
    ensures n == 64 * Octal(s[0]).value + 8 * Octal(s[1]).value + Octal(s[2]).value
  {
    var ds :| WritesAs(s, 8, n, ds);
    assert ds == [ds[0], ds[1], ds[2]];
    HornerThree(ds[0], ds[1], ds[2]);
    OctalIs(s[0], ds[0]);
    OctalIs(s[1], ds[1]);
    OctalIs(s[2], ds[2]);
    hide Octal, Horner, Digit;
  }

  // One piece.

  /** After a backslash the lexer reads the escape, if one stands there, as what it
      denotes. */
  lemma {:induction false} EscapeRead(p: Piece, bytes: string, rest: string)
    requires !p.Raw? && Denotes(p, bytes)
    ensures |Text(p)| > 1 && Text(p)[0] == '\\'
    ensures EscapeAt(Text(p)[1..] + rest) == Some(Escape(bytes, |Text(p)| - 1))
  {
    hide EscapeAt, Writes, Encodes, Octets, AllOctets, LetterOf;
    match p
    case Letter(c) => LetterRead(c, bytes, rest);
    case HexByte(digits) => HexRead(digits, bytes, rest);
    case OctalByte(digits) => OctalByteRead(digits, bytes, rest);
    case Short(digits) =>
      assert Text(p)[1..] == ['u'] + digits;
      RuneRead('u', 4, digits, bytes, rest);
    case Long(digits) =>
      assert Text(p)[1..] == ['U'] + digits;
      RuneRead('U', 8, digits, bytes, rest);
  }

  lemma {:induction false} LetterRead(c: char, bytes: string, rest: string)
    requires Denotes(Letter(c), bytes)
    ensures EscapeAt(Text(Letter(c))[1..] + rest) == Some(Escape(bytes, 1))
  {
    var s := [c] + rest;
    assert Text(Letter(c))[1..] + rest == s;
    var i :| 0 <= i < |LETTERS| && LETTERS[i] == c && LETTER_BYTES[i] == bytes[0] as int;
    assert bytes == [LETTER_BYTES[i] as char];
    hide HexNumber, Rune, Octal;
  }

  lemma {:induction false} HexTwo(s: string)
    requires |s| >= 2
    ensures HexNumber(s, 2).Some? ==> HexNumber(s, 2).value < 256
  {
    assert HexNumber(s, 0) == Some(0);
    assert HexNumber(s, 1).Some? ==> HexNumber(s, 1).value < 16;
  }

  lemma {:induction false} HexRead(digits: string, bytes: string, rest: string)
    requires Denotes(HexByte(digits), bytes)
    ensures EscapeAt(Text(HexByte(digits))[1..] + rest) == Some(Escape(bytes, 3))
  {
    var s := Text(HexByte(digits))[1..] + rest;
    assert s[0] == 'x' && s[1..] == digits + rest;
    assert (digits + rest)[..2] == digits;
    HexWrites(digits + rest, 2, bytes[0] as int);
    HexTwo(digits + rest);
    assert bytes == [bytes[0]];
    hide HexNumber, Rune, Octal, Writes;
  }

  lemma {:induction false} OctalByteRead(digits: string, bytes: string, rest: string)
    requires Denotes(OctalByte(digits), bytes)
    ensures EscapeAt(Text(OctalByte(digits))[1..] + rest) == Some(Escape(bytes, 3))
  {
    var s := Text(OctalByte(digits))[1..] + rest;
    assert s[0] == digits[0] && s[1] == digits[1] && s[2] == digits[2];
    OctalRead(digits, bytes[0] as int);
    assert bytes == [bytes[0]];
    hide HexNumber, Rune, Writes;
  }

  lemma {:induction false} RuneRead(mark: char, n: nat, digits: string, bytes: string, rest: string)
    requires (mark == 'u' && n == 4) || (mark == 'U' && n == 8)
    requires |digits| == n && AllOctets(bytes) && exists r :: Writes(digits, 16, r) && Encodes(Octets(bytes), r)
    ensures EscapeAt([mark] + digits + rest) == Some(Escape(bytes, n + 1))
  {
    var s := [mark] + digits + rest;
    var r :| Writes(digits, 16, r) && Encodes(Octets(bytes), r);
    assert s[1..] == digits + rest && (digits + rest)[..n] == digits;
    HexWrites(digits + rest, n, r);
    RuneExactly(r, bytes);
    hide HexNumber, Rune, Octal, Writes, Encodes, Octets, AllOctets;
  }

  // What the lexer takes for an escape is one.

  lemma {:induction false} EscapeOf(s: string) returns (p: Piece)
    requires s != [] && EscapeAt(s).Some?
    ensures var e := EscapeAt(s).value;
            !p.Raw? && Denotes(p, e.bytes) && Text(p) == "\\" + s[..e.length]
  {
    hide EscapeAt, Denotes;
    if s[0] == 'x' {
      HexOf(s);
      p := HexByte(s[1..3]);
      assert s[..3] == "x" + s[1..3];
    } else if s[0] == 'u' {
      RuneOf(s, 4);
      p := Short(s[1..5]);
      assert s[..5] == "u" + s[1..5];
    } else if s[0] == 'U' {
      RuneOf(s, 8);
      p := Long(s[1..9]);
      assert s[..9] == "U" + s[1..9];
    } else if '0' <= s[0] <= '3' {
      OctalOf(s);
      p := OctalByte(s[..3]);
    } else {
      LetterDenotes(s);
      p := Letter(s[0]);
      assert s[..1] == [s[0]];
    }
  }

  lemma {:induction false} HexOf(s: string)
    requires s != [] && EscapeAt(s).Some? && s[0] == 'x'
    ensures EscapeAt(s).value.length == 3 && |s| >= 3 && Denotes(HexByte(s[1..3]), EscapeAt(s).value.bytes)
  {
    var n := HexNumber(s[1..], 2).value;
    HexWrites(s[1..], 2, n);
    assert s[1..][..2] == s[1..3];
    hide HexNumber, Octal, Rune, Writes;
  }

  lemma {:induction false} OctalOf(s: string)
    requires s != [] && EscapeAt(s).Some? && '0' <= s[0] <= '3'
    ensures EscapeAt(s).value.length == 3 && |s| >= 3 && Denotes(OctalByte(s[..3]), EscapeAt(s).value.bytes)
  {
    var a, b, c := s[0] as int - '0' as int, Octal(s[1]).value, Octal(s[2]).value;
    var bytes := EscapeAt(s).value.bytes;
    assert EscapeAt(s).value == Escape([(a * 64 + b * 8 + c) as char], 3);
    OctalWrites(s[..3], a, b, c);
    hide HexNumber, Rune, Writes, EscapeAt;
  }

  lemma {:induction false} RuneOf(s: string, n: nat)
    requires s != [] && EscapeAt(s).Some? && ((s[0] == 'u' && n == 4) || (s[0] == 'U' && n == 8))
    ensures EscapeAt(s).value.length == n + 1 && |s| >= n + 1
    ensures var digits := s[1..n + 1];
            Denotes(if n == 4 then Short(digits) else Long(digits), EscapeAt(s).value.bytes)
  {
    var r := HexNumber(s[1..], n).value;
    var e := EscapeAt(s).value;
    assert s[1..][..n] == s[1..n + 1];
    HexWrites(s[1..], n, r);
    RuneExactly(r, e.bytes);
    hide HexNumber, Octal, Rune, Writes, Encodes, Octets, AllOctets;
  }

  lemma {:induction false} LetterDenotes(s: string)
    requires s != [] && EscapeAt(s).Some? && s[0] !in {'x', 'u', 'U'} && !('0' <= s[0] <= '3')
    ensures EscapeAt(s).value.length == 1 && Denotes(Letter(s[0]), EscapeAt(s).value.bytes)
  {
    hide HexNumber, Octal, Rune;
    var i := match s[0]
      case '"' => 0 case '\\' => 1 case '\'' => 2 case '?' => 3 case 'a' => 4 case 'b' => 5
      case 'f' => 6 case 'n' => 7 case 'r' => 8 case 't' => 9 case _ => 10;
    assert LETTERS[i] == s[0] && EscapeAt(s).value.bytes == [LETTER_BYTES[i] as char];
  }

  // Literals.

  /** The string literal of these pieces is read as the bytes they stand for, if those
      are UTF-8. */
  lemma {:induction false} PiecesRead(ps: seq<Piece>, bytes: string, rest: string, buf: string)
    requires AllDenote(ps, bytes)
    ensures LexString(Texts(ps) + ("\"" + rest), buf)
         == if IsUtf8(buf + bytes) then Lexed(Plain(Str, buf + bytes), rest) else ILLEGAL
    decreases |ps|
  {
    hide LexString, Denotes, IsUtf8, Text;
    var tail := "\"" + rest;
    if ps == [] {
      ClosingQuote(rest, buf);
      assert bytes == "" && Texts(ps) + tail == tail && buf + bytes == buf;
      hide *;
    } else {
      var k := FirstDenotes(ps, bytes);
      var p, more, first, last := ps[0], ps[1..], bytes[..k], bytes[k..];
      assert Texts(ps) == Text(p) + Texts(more);
      assert bytes == first + last;
      hide *;
      Joined(Text(p), Texts(more), tail);
      Joined(buf, first, last);
      PieceRead(p, first, Texts(more) + tail, buf);
      PiecesRead(more, last, rest, buf + first);
    }
  }

  lemma {:induction false} Joined(a: string, b: string, c: string)
    ensures (a + b) + c == a + (b + c)
  {}

  lemma {:induction false} ClosingQuote(rest: string, buf: string)
    ensures LexString("\"" + rest, buf) == if IsUtf8(buf) then Lexed(Plain(Str, buf), rest) else ILLEGAL
  {
    hide IsUtf8, EscapeAt;
    assert ("\"" + rest)[1..] == rest;
  }

  lemma {:induction false} FirstDenotes(ps: seq<Piece>, bytes: string) returns (k: nat)
    requires ps != [] && AllDenote(ps, bytes)
    ensures k <= |bytes| && Denotes(ps[0], bytes[..k]) && AllDenote(ps[1..], bytes[k..])
  {
    hide Denotes;
    k :| 0 <= k <= |bytes| && Denotes(ps[0], bytes[..k]) && AllDenote(ps[1..], bytes[k..]);
  }

  lemma {:induction false} PieceRead(p: Piece, bytes: string, rest: string, buf: string)
    requires Denotes(p, bytes)
    ensures LexString(Text(p) + rest, buf) == LexString(rest, buf + bytes)
  {
    if p.Raw? {
      assert ([p.c] + rest)[1..] == rest;
      hide EscapeAt, IsUtf8;
    } else {
      EscapeRead(p, bytes, rest);
      var text := Text(p);
      hide Denotes, Text;
      BackslashRead(text, bytes, rest, buf);
    }
  }

  lemma {:induction false} BackslashRead(text: string, bytes: string, rest: string, buf: string)
    requires |text| > 1 && text[0] == '\\' && EscapeAt(text[1..] + rest) == Some(Escape(bytes, |text| - 1))
    ensures LexString(text + rest, buf) == LexString(rest, buf + bytes)
  {
    hide EscapeAt, IsUtf8;
    var s := text + rest;
    assert s[1..] == text[1..] + rest;
    assert s[1 + (|text| - 1)..] == rest;
  }

  lemma {:induction false} PiecesOf(s: string, buf: string) returns (ps: seq<Piece>, bytes: string)
    requires LexString(s, buf).token.kind == Str
    ensures var l := LexString(s, buf);
            AllDenote(ps, bytes) && s == Texts(ps) + ("\"" + l.rest) && l.token == Plain(Str, buf + bytes) && IsUtf8(buf + bytes)
    decreases |s|
  {
    if s[0] == '"' {
      ps, bytes := [], "";
      var rest := s[1..];
      assert s == "\"" + rest && Texts(ps) + ("\"" + rest) == "\"" + rest && buf + bytes == buf;
      hide IsUtf8, EscapeAt, Denotes;
      ClosingQuote(rest, buf);
    } else {
      var p, first := PieceOf(s);
      var next := s[|Text(p)|..];
      assert s == Text(p) + next;
      hide *;
      PieceRead(p, first, next, buf);
      var more, last := PiecesOf(next, buf + first);
      ps, bytes := [p] + more, first + last;
      Joined(buf, first, last);
      Joined(Text(p), Texts(more), "\"" + LexString(s, buf).rest);
      Prepended(p, first, more, last);
    }
  }

  lemma {:induction false} Prepended(p: Piece, first: string, more: seq<Piece>, last: string)
    requires Denotes(p, first) && AllDenote(more, last)
    ensures [p] + more != [] && AllDenote([p] + more, first + last) && Texts([p] + more) == Text(p) + Texts(more)
  {
    hide Denotes, Text;
    var ps, bytes := [p] + more, first + last;
    assert ps[1..] == more && bytes[..|first|] == first && bytes[|first|..] == last;
  }

  lemma {:induction false} PieceOf(s: string) returns (p: Piece, bytes: string)
    requires s != [] && s[0] != '"' && s[0] != '\n' && (s[0] == '\\' ==> |s| > 1 && EscapeAt(s[1..]).Some?)
    ensures Denotes(p, bytes) && 0 < |Text(p)| <= |s| && Text(p) == s[..|Text(p)|]
  {
    if s[0] == '\\' {
      p := EscapeOf(s[1..]);
      bytes := EscapeAt(s[1..]).value.bytes;
      var n := EscapeAt(s[1..]).value.length;
      hide EscapeAt, Denotes;
      assert "\\" + s[1..][..n] == s[..1 + n];
    } else {
      p, bytes := Raw(s[0]), [s[0]];
    }
  }

  /** A text starts with a string literal exactly when it starts with a quote, pieces
      standing for valid UTF-8, and a quote. */
  lemma {:induction false} StringExactly(s: string, value: string, rest: string)
    ensures LexString(s, "") == Lexed(Plain(Str, value), rest)
        <==> IsUtf8(value) && exists ps :: AllDenote(ps, value) && s == Texts(ps) + ("\"" + rest)
  {
    hide LexString, AllDenote, IsUtf8;
    assert "" + value == value;
    if LexString(s, "") == Lexed(Plain(Str, value), rest) {
      var ps, bytes := PiecesOf(s, "");
      assert "" + bytes == bytes;
    }
    if ps :| AllDenote(ps, value) && s == Texts(ps) + ("\"" + rest) {
      PiecesRead(ps, value, rest, "");
    }
  }
}