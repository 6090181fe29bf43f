/** The form of formatted text: the base64 digits of bytes, which characters strings
    escape, and how deep each line is indented. */
module TextForms {
  import opened Options
  import opened Lexing
  import opened Base64
  import StringSpelling

  // Base64 (RFC 4648 section 4).

  /** A digit by the table: letters, small letters, decimal digits, '+' and '/'. */
  predicate InTable(n: nat, c: char) {
    || ('A' <= c <= 'Z' && n == c as int - 'A' as int)
    || ('a' <= c <= 'z' && n == 26 + (c as int - 'a' as int))
    || ('0' <= c <= '9' && n == 52 + (c as int - '0' as int))
    || (c == '+' && n == 62) || (c == '/' && n == 63)
  }

  /** The characters write these digits. */
  predicate Written(s: string, ds: seq<nat>) {
    |s| == |ds| && forall i :: 0 <= i < |s| ==> InTable(ds[i], s[i])
  }

  function Number(ds: seq<nat>): nat {
    if ds == [] then 0 else 64 * Number(ds[..|ds| - 1]) + ds[|ds| - 1]
  }

  lemma {:induction false} NumberOf(a: nat, b: nat, c: nat, d: nat)
    ensures Number([a, b]) == 64 * a + b
    ensures Number([a, b, c]) == 64 * (64 * a + b) + c
    ensures Number([a, b, c, d]) == 64 * (64 * (64 * a + b) + c) + d
  {
    assert [a, b, c, d][..3] == [a, b, c] && [a, b, c][..2] == [a, b] && [a, b][..1] == [a] && [a][..0] == [];
    assert Number([a]) == a;
  }

  lemma {:induction false} SextetIn(n: nat)
    requires n < 64
    ensures InTable(n, Sextet(n))
  {}

  lemma {:induction false} Sixes(n: nat)
    requires n < 0x100_0000
    ensures n == 64 * (64 * (64 * (n / 0x40000) + n / 0x1000 % 64) + n / 0x40 % 64) + n % 64 && n / 0x40000 < 64
  {
    assert n / 0x1000 == 64 * (n / 0x40000) + n / 0x1000 % 64;
    assert n / 0x40 == 64 * (n / 0x1000) + n / 0x40 % 64;
  }

  lemma {:induction false} Sextets(n: nat) returns (ds: seq<nat>)
    requires n < 0x100_0000
    ensures |ds| == 4 && Number(ds) == n && ds[0] < 64 && ds[1] < 64 && ds[2] < 64 && ds[3] < 64
    ensures InTable(ds[0], DigitOf(n, 0)) && InTable(ds[1], DigitOf(n, 1))
    ensures InTable(ds[2], DigitOf(n, 2)) && InTable(ds[3], DigitOf(n, 3))
  {
    Sixes(n);
    hide InTable, Sextet;
    var a, b, c, d := n / 0x40000, n / 0x1000 % 64, n / 0x40 % 64, n % 64;
    ds := [a, b, c, d];
    NumberOf(a, b, c, d);
    SextetIn(a);
    SextetIn(b);
    SextetIn(c);
    SextetIn(d);
  }

  /** Three bytes are written as the four digits of their number. */
  lemma {:induction false} EncodeThree(b: string) returns (ds: seq<nat>)
    requires AllOctets(b) && |b| >= 3
    ensures |Encode(b)| >= 4 && Encode(b)[4..] == Encode(b[3..]) && Written(Encode(b)[..4], ds)
    ensures Number(ds) == 0x10000 * b[0] as int + 0x100 * b[1] as int + b[2] as int
  {
    var n := Packed(b[0] as int, b[1] as int, b[2] as int);
    ds := Sextets(n);
    hide InTable, DigitOf, Number;
    var more := Encode(b[3..]);
    assert Encode(b) == [DigitOf(n, 0), DigitOf(n, 1)] + ([DigitOf(n, 2)] + ([DigitOf(n, 3)] + more));
    hide Encode;
    FourFirst(DigitOf(n, 0), DigitOf(n, 1), DigitOf(n, 2), DigitOf(n, 3), more);
  }

  lemma {:induction false} FourFirst(a: char, b: char, c: char, d: char, more: string)
    ensures var s := [a, b] + ([c] + ([d] + more));
            |s| >= 4 && s[..4] == [a, b, c, d] && s[4..] == more
  {}

  /** Two bytes at the end are written as three digits, low zeros added, and '='. */
  lemma {:induction false} EncodeTwo(b: string) returns (ds: seq<nat>)
    requires AllOctets(b) && |b| == 2
    ensures |Encode(b)| == 4 && Encode(b)[3] == '=' && Written(Encode(b)[..3], ds)
    ensures Number(ds) == 4 * (0x100 * b[0] as int + b[1] as int)
  {
    var n := Packed(b[0] as int, b[1] as int, 0);
    ds := Sextets(n);
    NumberOf(ds[0], ds[1], ds[2], ds[3]);
    assert ds == [ds[0], ds[1], ds[2], ds[3]];
    hide InTable, DigitOf, Number;
    var s := [DigitOf(n, 0), DigitOf(n, 1), DigitOf(n, 2)];
    assert Encode(b) == s + "=" && Encode(b)[..3] == s;
    LowZeros(ds[0], ds[1], ds[2], ds[3], n);
    ds := [ds[0], ds[1], ds[2]];
  }

  lemma {:induction false} LowZeros(a: nat, b: nat, c: nat, d: nat, n: nat)
    requires 64 * (64 * (64 * a + b) + c) + d == n && d < 64
    ensures n % 0x100 == 0 && d < 64 && c < 64 ==> 4 * (n / 0x100) == 64 * (64 * a + b) + c
    ensures n % 0x10000 == 0 && d < 64 && c < 64 && b < 64 ==> 0x10 * (n / 0x10000) == 64 * a + b
  {}

  /** One byte at the end is written as two digits, low zeros added, and "==". */
  lemma {:induction false} EncodeOne(b: string) returns (ds: seq<nat>)
    requires AllOctets(b) && |b| == 1
    ensures |Encode(b)| == 4 && Encode(b)[2..] == "==" && Written(Encode(b)[..2], ds)
    ensures Number(ds) == 0x10 * b[0] as int
  {
    var n := Packed(b[0] as int, 0, 0);
    ds := Sextets(n);
    NumberOf(ds[0], ds[1], ds[2], ds[3]);
    assert ds == [ds[0], ds[1], ds[2], ds[3]];
    hide InTable, DigitOf, Number;
    var s := [DigitOf(n, 0), DigitOf(n, 1)];
    assert Encode(b) == s + "==" && Encode(b)[..2] == s;
    LowZeros(ds[0], ds[1], ds[2], ds[3], n);
    ds := [ds[0], ds[1]];
  }

  // Strings.

  /** The letter after the backslash, for the characters strings escape. */
  function LetterFor(c: char): Option<char> {
    if c == '"' || c == '\\' then Some(c)
    else if c == '\n' then Some('n')
    else if c == '\r' then Some('r')
    else if c == '\t' then Some('t')
    else None
  }

  /** A string's character as formatted: itself, or its letter after a backslash. */
  function PieceFor(c: char): StringSpelling.Piece {
    if LetterFor(c).Some? then StringSpelling.Letter(LetterFor(c).value) else StringSpelling.Raw(c)
  }

  function PiecesFor(s: string): seq<StringSpelling.Piece> {
    if s == "" then [] else [PieceFor(s[0])] + PiecesFor(s[1..])
  }

  lemma {:induction false} QuotedPieces(s: string)
    ensures Quoted(s, QuoteChar) == StringSpelling.Texts(PiecesFor(s))
    decreases |s|
  {
    if s != "" {
      QuotedPieces(s[1..]);
      var ps := PiecesFor(s);
      assert ps[1..] == PiecesFor(s[1..]);
      assert QuoteChar(s[0]) == StringSpelling.Text(PieceFor(s[0]));
    }
  }

  /** A string is formatted between quotes, its quotes, backslashes, line ends, returns
      and tabs escaped by letters and nothing else. */
  lemma {:induction false} QuotedExactly(s: string)
    ensures QuoteString(s) == "\"" + StringSpelling.Texts(PiecesFor(s)) + "\""
  {
    QuotedPieces(s);
  }
}
