/** Bytes literals: base64 as the formatter writes it is read back, and both string
    quoters are undone by the lexer. */
module Base64 {
  import opened Options
  import opened Powers
  import opened Decimals
  import opened Lexing

  // Base64. Bytes are characters below 256.

  /** The digit of a value. */
  function Sextet(n: nat): (c: char)
    requires n < 64
    ensures Base64Char(c) && ValueOf(c) == n
  {
    if n < 26 then ('A' as int + n) as char
    else if n < 52 then ('a' as int + n - 26) as char
    else if n < 62 then ('0' as int + n - 52) as char
    else if n == 62 then '+' else '/'
  }

  function ValueOf(c: char): (n: nat)
    requires Base64Char(c)
    ensures n < 64
  {
    if 'A' <= c <= 'Z' then c as int - 'A' as int
    else if 'a' <= c <= 'z' then c as int - 'a' as int + 26
    else if IsDigit(c) then c as int - '0' as int + 52
    else if c == '+' then 62 else 63
  }

  /** Three bytes as one number. */
  function Packed(x: nat, y: nat, z: nat): (n: nat)
    requires x < 256 && y < 256 && z < 256
    ensures n < 0x100_0000
  {
    x * 0x10000 + y * 0x100 + z
  }

  /** The k-th of its four digits. */
  function DigitOf(n: nat, k: nat): char
    requires n < 0x100_0000 && k < 4
    ensures Base64Char(DigitOf(n, k))
  {
    Sextet(if k == 0 then n / 0x40000 else if k == 1 then n / 0x1000 % 64 else if k == 2 then n / 0x40 % 64 else n % 64)
  }

  /** encode_base64, with padding. */
  function Encode(b: string): string
    requires AllOctets(b)
  {
    if |b| == 0 then ""
    else if |b| == 1 then
      var n := Packed(b[0] as int, 0, 0);
      [DigitOf(n, 0), DigitOf(n, 1)] + "=="
    else if |b| == 2 then
      var n := Packed(b[0] as int, b[1] as int, 0);
      [DigitOf(n, 0), DigitOf(n, 1)] + ([DigitOf(n, 2)] + "=")
    else
      var n := Packed(b[0] as int, b[1] as int, b[2] as int);
      [DigitOf(n, 0), DigitOf(n, 1)] + ([DigitOf(n, 2)] + ([DigitOf(n, 3)] + Encode(b[3..])))
  }

  /** 2^bits for the bits a byte leaves over. */
  function Leftover(bits: nat): nat {
    if bits == 0 then 1 else if bits == 2 then 4 else if bits == 4 then 16 else 64
  }

  /** decode_base64: bits bits of buf are not yet part of a byte. Other characters
      are passed over, and '=' ends the text. */
  function Decode(s: string, buf: nat, bits: nat, out: string): string
    requires bits in {0, 2, 4, 6}
    decreases |s|
  {
    if s == "" || s[0] == '=' then out
    else if !Base64Char(s[0]) then Decode(s[1..], buf, bits, out)
    else
      var wide := buf * 64 + ValueOf(s[0]);
      if bits == 0 then Decode(s[1..], wide, 6, out)
      else Decode(s[1..], wide % Leftover(bits - 2), bits - 2, out + [(wide / Leftover(bits - 2) % 256) as char])
  }

  lemma DecodeFirst(c0: char, rest: string, out: string)
    requires Base64Char(c0)
    ensures Decode([c0] + rest, 0, 0, out) == Decode(rest, ValueOf(c0), 6, out)
  {
    assert ([c0] + rest)[1..] == rest;
  }

  lemma DecodeNext(c: char, rest: string, buf: nat, bits: nat, out: string)
    requires Base64Char(c) && bits in {2, 4, 6}
    ensures var wide := buf * 64 + ValueOf(c);
            Decode([c] + rest, buf, bits, out)
            == Decode(rest, wide % Leftover(bits - 2), bits - 2, out + [(wide / Leftover(bits - 2) % 256) as char])
  {
    assert ([c] + rest)[1..] == rest;
  }

  lemma DecodePad(s: string, buf: nat, bits: nat, out: string)
    requires bits in {0, 2, 4, 6} && s != [] && s[0] == '='
    ensures Decode(s, buf, bits, out) == out
  {}

  lemma Digits(x: nat, y: nat, z: nat)
    requires x < 256 && y < 256 && z < 256
    ensures var n := Packed(x, y, z);
            && ValueOf(DigitOf(n, 0)) == x / 4 && ValueOf(DigitOf(n, 1)) == x % 4 * 16 + y / 16
            && ValueOf(DigitOf(n, 2)) == y % 16 * 4 + z / 64 && ValueOf(DigitOf(n, 3)) == z % 64
  {
    var n := Packed(x, y, z);
    hide ValueOf, Sextet;
    DivModUnique(n, 0x40000, x / 4, x % 4 * 0x10000 + y * 0x100 + z);
    DivModUnique(n, 0x1000, x * 16 + y / 16, y % 16 * 0x100 + z);
    DivModUnique(x * 16 + y / 16, 64, x / 4, x % 4 * 16 + y / 16);
    DivModUnique(n, 0x40, x * 1024 + y * 4 + z / 64, z % 64);
    DivModUnique(x * 1024 + y * 4 + z / 64, 64, x * 16 + y / 16, y % 16 * 4 + z / 64);
  }

  /** Two digits give the first byte. */
  lemma TwoDigits(x: nat, y: nat, z: nat, rest: string, out: string)
    requires x < 256 && y < 256 && z < 256
    ensures var n := Packed(x, y, z);
            Decode([DigitOf(n, 0), DigitOf(n, 1)] + rest, 0, 0, out) == Decode(rest, y / 16, 4, out + [x as char])
  {
    hide Decode, DigitOf, ValueOf, Packed, Leftover;
    var n := Packed(x, y, z);
    var c0, c1 := DigitOf(n, 0), DigitOf(n, 1);
    assert ValueOf(c0) == x / 4 && ValueOf(c1) == x % 4 * 16 + y / 16 by {
      Digits(x, y, z);
    }
    assert [c0, c1] + rest == [c0] + ([c1] + rest);
    DecodeFirst(c0, [c1] + rest, out);
    DecodeNext(c1, rest, x / 4, 6, out);
    FirstByte(x, y);
  }

  lemma FirstByte(x: nat, y: nat)
    requires x < 256 && y < 256
    ensures var wide := x / 4 * 64 + (x % 4 * 16 + y / 16);
            wide / Leftover(4) % 256 == x && wide % Leftover(4) == y / 16
  {
    DivModUnique(x / 4 * 64 + (x % 4 * 16 + y / 16), 16, x, y / 16);
  }

  /** A third gives the second byte. */
  lemma ThirdDigit(x: nat, y: nat, z: nat, rest: string, out: string)
    requires x < 256 && y < 256 && z < 256
    ensures var n := Packed(x, y, z);
            Decode([DigitOf(n, 2)] + rest, y / 16, 4, out) == Decode(rest, z / 64, 2, out + [y as char])
  {
    hide Decode, DigitOf, ValueOf, Packed, Leftover;
    var c := DigitOf(Packed(x, y, z), 2);
    assert ValueOf(c) == y % 16 * 4 + z / 64 by {
      Digits(x, y, z);
    }
    DecodeNext(c, rest, y / 16, 4, out);
    SecondByte(y, z);
  }

  lemma SecondByte(y: nat, z: nat)
    requires y < 256 && z < 256
    ensures var wide := y / 16 * 64 + (y % 16 * 4 + z / 64);
            wide / Leftover(2) % 256 == y && wide % Leftover(2) == z / 64
  {
    DivModUnique(y / 16 * 64 + (y % 16 * 4 + z / 64), 4, y, z / 64);
  }

  /** And a fourth the last. */
  lemma FourthDigit(x: nat, y: nat, z: nat, rest: string, out: string)
    requires x < 256 && y < 256 && z < 256
    ensures var n := Packed(x, y, z);
            Decode([DigitOf(n, 3)] + rest, z / 64, 2, out) == Decode(rest, 0, 0, out + [z as char])
  {
    hide Decode, DigitOf, ValueOf, Packed, Leftover;
    var c := DigitOf(Packed(x, y, z), 3);
    assert ValueOf(c) == z % 64 by {
      Digits(x, y, z);
    }
    DecodeNext(c, rest, z / 64, 2, out);
    LastByte(z);
  }

  lemma LastByte(z: nat)
    requires z < 256
    ensures var wide := z / 64 * 64 + z % 64;
            wide / Leftover(0) % 256 == z && wide % Leftover(0) == 0
  {}

  lemma {:induction false} DecodeEncoded(b: string, out: string)
    requires AllOctets(b)
    ensures Decode(Encode(b), 0, 0, out) == out + b
    decreases |b|
  {
    hide Decode, DigitOf, Packed;
    if |b| == 1 {
      TwoDigits(b[0] as int, 0, 0, "==", out);
      DecodePad("==", 0, 4, out + [b[0]]);
      assert out + [b[0]] == out + b;
    } else if |b| == 2 {
      var n := Packed(b[0] as int, b[1] as int, 0);
      TwoDigits(b[0] as int, b[1] as int, 0, [DigitOf(n, 2)] + "=", out);
      ThirdDigit(b[0] as int, b[1] as int, 0, "=", out + [b[0]]);
      DecodePad("=", 0, 2, out + [b[0]] + [b[1]]);
      assert out + [b[0]] + [b[1]] == out + b;
    } else if |b| >= 3 {
      var x, y, z := b[0] as int, b[1] as int, b[2] as int;
      var n := Packed(x, y, z);
      var tail := Encode(b[3..]);
      TwoDigits(x, y, z, [DigitOf(n, 2)] + ([DigitOf(n, 3)] + tail), out);
      ThirdDigit(x, y, z, [DigitOf(n, 3)] + tail, out + [b[0]]);
      FourthDigit(x, y, z, tail, out + [b[0]] + [b[1]]);
      DecodeEncoded(b[3..], out + [b[0]] + [b[1]] + [b[2]]);
      assert out + [b[0]] + [b[1]] + [b[2]] + b[3..] == out + b;
    } else {
      DecodeNone(out);
      assert out + b == out;
    }
  }

  lemma DecodeNone(out: string)
    ensures Decode("", 0, 0, out) == out
  {}

  /** Digits, and then the padding. */
  ghost predicate Shaped(s: string, pad: nat) {
    && pad <= |s|
    && (forall i :: 0 <= i < |s| - pad ==> Base64Char(s[i]))
    && (forall i :: |s| - pad <= i < |s| ==> s[i] == '=')
  }

  function PadOf(n: nat): nat {
    if n % 3 == 0 then 0 else 3 - n % 3
  }

  lemma ShapedMore(head: string, s: string, pad: nat)
    requires Shaped(s, pad) && forall i :: 0 <= i < |head| ==> Base64Char(head[i])
    ensures Shaped(head + s, pad)
  {}

  lemma PadsShaped()
    ensures Shaped("", 0) && Shaped("=", 1) && Shaped("==", 2)
  {}

  /** The length of the encoding: four characters for each three bytes begun. */
  lemma {:induction false} EncodedShape(b: string)
    requires AllOctets(b)
    ensures |Encode(b)| % 4 == 0 && |Encode(b)| / 4 * 3 == JudgedLength(|b|) && Shaped(Encode(b), PadOf(|b|))
    decreases |b|
  {
    hide DigitOf, Packed, Base64Char, Shaped;
    PadsShaped();
    if |b| == 1 {
      var n := Packed(b[0] as int, 0, 0);
      ShapedMore([DigitOf(n, 0), DigitOf(n, 1)], "==", 2);
    } else if |b| == 2 {
      var n := Packed(b[0] as int, b[1] as int, 0);
      ShapedMore([DigitOf(n, 2)], "=", 1);
      ShapedMore([DigitOf(n, 0), DigitOf(n, 1)], [DigitOf(n, 2)] + "=", 1);
    } else if |b| >= 3 {
      EncodedShape(b[3..]);
      var n := Packed(b[0] as int, b[1] as int, b[2] as int);
      var tail := Encode(b[3..]);
      ShapedMore([DigitOf(n, 3)], tail, PadOf(|b|));
      ShapedMore([DigitOf(n, 2)], [DigitOf(n, 3)] + tail, PadOf(|b|));
      ShapedMore([DigitOf(n, 0), DigitOf(n, 1)], [DigitOf(n, 2)] + ([DigitOf(n, 3)] + tail), PadOf(|b|));
      assert |Encode(b)| == 4 + |tail|;
    }
  }

  lemma EncodedValid(b: string)
    requires AllOctets(b)
    ensures ValidBase64(Encode(b))
  {
    hide *;
    EncodedShape(b);
    PadAtMost(|b|);
    ShapedValid(Encode(b), PadOf(|b|));
  }

  lemma PadAtMost(n: nat)
    ensures PadOf(n) <= 2
  {}

  lemma ShapedValid(s: string, pad: nat)
    requires Shaped(s, pad) && |s| % 4 == 0 && pad <= 2
    ensures ValidBase64(s)
  {
    if s != "" {
      assert pad < |s| && Base64Char(s[|s| - pad - 1]);
      assert Padding(s) == pad;
    }
  }

  /** How much a written literal is judged to decode to: whole groups of three. */
  function JudgedLength(n: nat): nat {
    (n + 2) / 3 * 3
  }

  lemma {:induction false} BytesEndAt(c: Config, s: string, rest: string, i: nat)
    requires i <= |s| && forall k :: 0 <= k < |s| ==> s[k] != '"' && s[k] != '\n'
    ensures BytesEnd(c, s + ("\"" + rest), i) == if |s| / 4 * 3 > c.maxBytes then None else Some(|s|)
    decreases |s| - i
  {
    if i < |s| {
      BytesEndAt(c, s, rest, i + 1);
    }
  }

  function BytesText(b: string): string
    requires AllOctets(b)
  {
    "b\"" + (Encode(b) + "\"")
  }

  /** A written bytes literal is one token whose decoding is the bytes, or illegal
      exactly when its padded length is judged past the limit. */
  lemma BytesAgain(c: Config, b: string, rest: string)
    requires AllOctets(b)
    ensures LexAt(c, BytesText(b) + rest)
         == if JudgedLength(|b|) > c.maxBytes then ILLEGAL else Lexed(Plain(BytesLit, Encode(b)), rest)
    ensures Decode(Encode(b), 0, 0, "") == b
  {
    hide Encode, ValidBase64, Decode, LexAt, LexBytes, Shaped, AllOctets, JudgedLength, PadOf;
    DecodeEncoded(b, "");
    assert "" + b == b;
    EncodedShape(b);
    EncodedValid(b);
    NoQuotes(Encode(b), PadOf(|b|));
    BytesLexed(c, Encode(b), rest);
    assert BytesText(b) + rest == "b\"" + (Encode(b) + ("\"" + rest));
    AtBytes(c, BytesText(b) + rest);
  }

  lemma BytesLexed(c: Config, e: string, rest: string)
    requires ValidBase64(e) && forall k :: 0 <= k < |e| ==> e[k] != '"' && e[k] != '\n'
    ensures LexBytes(c, "b\"" + (e + ("\"" + rest)))
         == if |e| / 4 * 3 > c.maxBytes then ILLEGAL else Lexed(Plain(BytesLit, e), rest)
  {
    hide ValidBase64, BytesEnd;
    BytesEndAt(c, e, rest, 0);
    CutTail(e, rest);
    var tail := e + ("\"" + rest);
    assert ("b\"" + tail)[2..] == tail;
  }

  lemma CutTail(e: string, rest: string)
    ensures var tail := e + ("\"" + rest);
            tail[..|e|] == e && tail[|e| + 1..] == rest
  {}

  lemma NoQuotes(s: string, pad: nat)
    requires Shaped(s, pad)
    ensures forall k :: 0 <= k < |s| ==> s[k] != '"' && s[k] != '\n'
  {
    forall k | 0 <= k < |s| ensures s[k] != '"' && s[k] != '\n' {
      assert k < |s| - pad || s[k] == '=';
    }
  }

  lemma AtBytes(c: Config, u: string)
    requires |u| >= 2 && u[0] == 'b' && u[1] == '"'
    ensures LexAt(c, u) == LexBytes(c, u)
  {
    hide LexNumber, LexIdent, LexDirective, LexString, LexTriple, LexBytes, CommentEnd, LineEnd, Punctuation;
  }

  /** The encoding without its padding, as a document may also write it. */
  function Unpadded(b: string): string
    requires AllOctets(b)
  {
    if PadOf(|b|) <= |Encode(b)| then Encode(b)[..|Encode(b)| - PadOf(|b|)] else ""
  }

  lemma {:induction false} DecodeBefore(s: string, pad: string, buf: nat, bits: nat, out: string)
    requires bits in {0, 2, 4, 6} && (pad != "" ==> pad[0] == '=')
    ensures Decode(s + pad, buf, bits, out) == Decode(s, buf, bits, out)
    decreases |s|
  {
    if s == "" {
      assert s + pad == pad;
    } else if s[0] != '=' {
      assert (s + pad)[1..] == s[1..] + pad;
      if !Base64Char(s[0]) {
        DecodeBefore(s[1..], pad, buf, bits, out);
      } else {
        hide ValueOf, Leftover;
        var wide := buf * 64 + ValueOf(s[0]);
        if bits == 0 {
          DecodeBefore(s[1..], pad, wide, 6, out);
        } else {
          DecodeBefore(s[1..], pad, wide % Leftover(bits - 2), bits - 2, out + [(wide / Leftover(bits - 2) % 256) as char]);
        }
      }
    }
  }

  lemma UnpaddedValid(s: string, pad: nat, n: nat)
    requires Shaped(s, pad) && |s| % 4 == 0 && pad == PadOf(n) && |s| / 4 * 3 == JudgedLength(n)
    ensures var e := s[..|s| - pad];
            ValidBase64(e) && |e| / 4 * 3 == n / 3 * 3 && (forall k :: 0 <= k < |e| ==> e[k] != '"' && e[k] != '\n')
  {
    var e := s[..|s| - pad];
    assert forall k :: 0 <= k < |e| ==> Base64Char(e[k]);
    if e != "" {
      assert Base64Char(e[|e| - 1]);
      assert Padding(e) == 0;
    }
    var groups := |s| / 4;
    assert groups == (n + 2) / 3;
    assert |e| == 4 * groups - pad;
  }

  /** Without padding the same bytes are judged by the whole groups alone: a literal
      within the limit may be past it once the formatter has padded it. */
  lemma UnpaddedAgain(c: Config, b: string, rest: string)
    requires AllOctets(b)
    ensures LexAt(c, "b\"" + (Unpadded(b) + ("\"" + rest)))
         == if |b| / 3 * 3 > c.maxBytes then ILLEGAL else Lexed(Plain(BytesLit, Unpadded(b)), rest)
    ensures Decode(Unpadded(b), 0, 0, "") == b
  {
    hide Encode, ValidBase64, Decode, LexAt, LexBytes, AllOctets, JudgedLength, PadOf;
    EncodedShape(b);
    UnpaddedValid(Encode(b), PadOf(|b|), |b|);
    BytesLexed(c, Unpadded(b), rest);
    AtBytes(c, "b\"" + (Unpadded(b) + ("\"" + rest)));
    DecodeEncoded(b, "");
    assert "" + b == b;
    var pad := Encode(b)[|Unpadded(b)|..];
    assert Unpadded(b) + pad == Encode(b);
    DecodeBefore(Unpadded(b), pad, 0, 0, "");
  }

  // Quoted strings.

  /** quote_string on one character. */
  function QuoteChar(ch: char): string {
    if ch == '\\' then "\\\\"
    else if ch == '"' then "\\\""
    else if ch == '\n' then "\\n"
    else if ch == '\t' then "\\t"
    else if ch == '\r' then "\\r"
    else [ch]
  }

  function HexDigit(n: nat): char
    requires n < 16
  {
    if n < 10 then ('0' as int + n) as char else ('a' as int + n - 10) as char
  }

  /** write_quoted_string on one: other control characters as two hex digits. */
  function EscapeChar(ch: char): string {
    if QuoteChar(ch) == [ch] && ch as int < 0x20 then ['\\', 'x', HexDigit(ch as int / 16), HexDigit(ch as int % 16)]
    else QuoteChar(ch)
  }

  function Quoted(s: string, quote: char -> string): string {
    if s == "" then "" else quote(s[0]) + Quoted(s[1..], quote)
  }

  /** quote_string */
  function QuoteString(s: string): string {
    "\"" + (Quoted(s, QuoteChar) + "\"")
  }

  /** write_quoted_string */
  function WriteQuotedString(s: string): string {
    "\"" + (Quoted(s, EscapeChar) + "\"")
  }

  /** One character's spelling is read as the character. */
  ghost predicate Undone(quote: char -> string) {
    forall ch, rest, buf :: LexString(quote(ch) + rest, buf) == LexString(rest, buf + [ch])
  }

  lemma PlainUndone(ch: char, rest: string, buf: string)
    requires ch != '\\' && ch != '"' && ch != '\n'
    ensures LexString([ch] + rest, buf) == LexString(rest, buf + [ch])
  {
    assert ([ch] + rest)[1..] == rest;
  }

  lemma EscapeUndone(esc: char, rest: string, buf: string, ch: char)
    requires EscapeAt([esc] + rest) == Some(Escape([ch], 1))
    ensures LexString(['\\', esc] + rest, buf) == LexString(rest, buf + [ch])
  {
    var s := ['\\', esc] + rest;
    assert s[1..] == [esc] + rest && s[2..] == rest;
    hide EscapeAt;
  }

  lemma QuoteUndone(ch: char, rest: string, buf: string)
    ensures LexString(QuoteChar(ch) + rest, buf) == LexString(rest, buf + [ch])
  {
    if QuoteChar(ch) == [ch] {
      PlainUndone(ch, rest, buf);
    } else {
      var esc := QuoteChar(ch)[1];
      EscapeUndone(esc, rest, buf, ch);
      assert QuoteChar(ch) == ['\\', esc];
    }
  }

  lemma HexUndone(ch: char, rest: string, buf: string)
    requires ch as int < 0x20
    ensures LexString(['\\', 'x', HexDigit(ch as int / 16), HexDigit(ch as int % 16)] + rest, buf) == LexString(rest, buf + [ch])
  {
    var h, l := HexDigit(ch as int / 16), HexDigit(ch as int % 16);
    var s := ['\\', 'x', h, l] + rest;
    var t := s[1..];
    assert t == ['x', h, l] + rest && t[1..] == [h, l] + rest;
    assert HexNumber(t[1..], 1) == Some(ch as int / 16) by {
      assert HexNumber(t[1..], 0) == Some(0);
    }
    assert HexNumber(t[1..], 2) == Some(ch as int);
    assert EscapeAt(t) == Some(Escape([ch], 3));
    assert s[4..] == rest;
  }

  lemma QuotersUndone()
    ensures Undone(QuoteChar) && Undone(EscapeChar)
  {
    forall ch, rest, buf ensures LexString(QuoteChar(ch) + rest, buf) == LexString(rest, buf + [ch]) {
      QuoteUndone(ch, rest, buf);
    }
    forall ch, rest, buf ensures LexString(EscapeChar(ch) + rest, buf) == LexString(rest, buf + [ch]) {
      if QuoteChar(ch) == [ch] && ch as int < 0x20 {
        HexUndone(ch, rest, buf);
      } else {
        QuoteUndone(ch, rest, buf);
      }
    }
  }

  lemma {:induction false} LexQuoted(s: string, quote: char -> string, rest: string, buf: string)
    requires Undone(quote)
    ensures LexString(Quoted(s, quote) + ("\"" + rest), buf)
         == if IsUtf8(buf + s) then Lexed(Plain(Str, buf + s), rest) else ILLEGAL
    decreases |s|
  {
    hide IsUtf8, LexString;
    if s == "" {
      assert "" + ("\"" + rest) == "\"" + rest;
      CloseQuote(rest, buf);
      assert buf + s == buf;
    } else {
      var tail := Quoted(s[1..], quote) + ("\"" + rest);
      assert Quoted(s, quote) + ("\"" + rest) == quote(s[0]) + tail;
      LexQuoted(s[1..], quote, rest, buf + [s[0]]);
      assert buf + [s[0]] + s[1..] == buf + s;
      assert LexString(quote(s[0]) + tail, buf) == LexString(tail, buf + [s[0]]);
    }
  }

  lemma CloseQuote(rest: string, buf: string)
    ensures LexString("\"" + rest, buf) == if IsUtf8(buf) then Lexed(Plain(Str, buf), rest) else ILLEGAL
  {
    hide IsUtf8;
    assert ("\"" + rest)[1..] == rest;
  }

  /** Both quoters write a string literal of every string, which the lexer reads as
      that string, whatever does not start with a quote follows. */
  lemma StringAgain(c: Config, s: string, rest: string)
    requires IsUtf8(s) && (rest != [] ==> rest[0] != '"')
    ensures LexAt(c, QuoteString(s) + rest) == Lexed(Plain(Str, s), rest)
    ensures LexAt(c, WriteQuotedString(s) + rest) == Lexed(Plain(Str, s), rest)
  {
    QuotersUndone();
    QuotedAgain(c, s, QuoteChar, rest);
    QuotedAgain(c, s, EscapeChar, rest);
  }

  lemma QuotedAgain(c: Config, s: string, quote: char -> string, rest: string)
    requires Undone(quote) && IsUtf8(s) && (rest != [] ==> rest[0] != '"')
    requires forall ch :: quote(ch) != "" && quote(ch)[0] != '"'
    ensures LexAt(c, "\"" + (Quoted(s, quote) + "\"") + rest) == Lexed(Plain(Str, s), rest)
  {
    hide IsUtf8, Undone, Quoted, LexString, LexAt;
    LexQuoted(s, quote, rest, "");
    assert "" + s == s;
    OpenQuote(Quoted(s, quote), rest);
    NotTriple(s, quote, rest);
    AtString(c, "\"" + (Quoted(s, quote) + "\"") + rest);
  }

  lemma OpenQuote(body: string, rest: string)
    ensures var u := "\"" + (body + "\"") + rest;
            u != "" && u[0] == '"' && u[1..] == body + ("\"" + rest)
  {
    assert "\"" + (body + "\"") + rest == "\"" + (body + ("\"" + rest));
  }

  lemma NotTriple(s: string, quote: char -> string, rest: string)
    requires (rest != [] ==> rest[0] != '"') && forall ch :: quote(ch) != "" && quote(ch)[0] != '"'
    ensures var u := "\"" + (Quoted(s, quote) + "\"") + rest;
            !(At(u, 1) == '"' && At(u, 2) == '"')
  {
    var u := "\"" + (Quoted(s, quote) + "\"") + rest;
    if s == "" {
      assert u == "\"\"" + rest;
    } else {
      assert u[1] == quote(s[0])[0];
    }
  }

  lemma AtString(c: Config, u: string)
    requires u != [] && u[0] == '"' && !(At(u, 1) == '"' && At(u, 2) == '"')
    ensures LexAt(c, u) == LexString(u[1..], "")
  {
    hide LexNumber, LexIdent, LexDirective, LexString, LexTriple, LexBytes, CommentEnd, LineEnd, Punctuation;
  }
}
