/** The tokens of a PXF text. A text is its UTF-8 bytes, a character each. */
module Lexing {
  import opened Options
  import opened Bytes
  import opened Decimals
  import Durations
  import Timestamps

  datatype Kind =
    | Eof | Newline | Comment | Illegal
    | Str | Int | Float | Bool | BytesLit | Null | Ident | TimestampLit | DurationLit
    | LBrace | RBrace | LBracket | RBracket | LParen | RParen | Equals | Colon | Comma
    | AtType | AtDataset | AtProto | AtDirective

  /** A token, its text or what that denotes, and a number's precision suffix. */
  datatype Token = Token(kind: Kind, value: string, prec: string)

  /** The first token of a text and what follows it. */
  datatype Lexed = Lexed(token: Token, rest: string)

  /** The length of a whole text, the length a bytes literal may decode to, and how
      the body of a triple-quoted string is dedented. */
  datatype Config = Config(maxSize: nat, maxBytes: nat, dedent: string -> string)

  function Plain(kind: Kind, value: string): Token {
    Token(kind, value, "")
  }

  const ILLEGAL: Lexed := Lexed(Plain(Illegal, ""), "")

  // Characters.

  predicate IsLower(c: char) {
    'a' <= c <= 'z'
  }

  predicate IdentStart(c: char) {
    IsLower(c) || 'A' <= c <= 'Z' || c == '_'
  }

  predicate IdentPart(c: char) {
    IdentStart(c) || IsDigit(c) || c == '.'
  }

  predicate IsBlank(c: char) {
    c == ' ' || c == '\t' || c == '\r'
  }

  /** The character at a position, or NUL past the end. */
  function At(s: string, i: nat): char {
    if i < |s| then s[i] else '\0'
  }

  function Octets(s: string): (b: seq<Byte>)
    requires AllOctets(s)
    ensures |b| == |s|
  {
    if s == [] then [] else [s[0] as int] + Octets(s[1..])
  }

  predicate AllOctets(s: string) {
    forall i :: 0 <= i < |s| ==> s[i] as int < 256
  }

  predicate IsUtf8(s: string) {
    AllOctets(s) && ValidUtf8(Octets(s))
  }

  // Runs of characters, as the position after them.

  function SkipBlanks(s: string): (r: string)
    ensures |r| <= |s| && (r != [] ==> !IsBlank(r[0]))
  {
    if s != [] && IsBlank(s[0]) then SkipBlanks(s[1..]) else s
  }

  function DigitsEnd(s: string, i: nat): (e: nat)
    requires i <= |s|
    ensures i <= e <= |s| && (forall k :: i <= k < e ==> IsDigit(s[k])) && !IsDigit(At(s, e))
    decreases |s| - i
  {
    if i < |s| && IsDigit(s[i]) then DigitsEnd(s, i + 1) else i
  }

  function IdentEnd(s: string, i: nat): (e: nat)
    requires i <= |s|
    ensures i <= e <= |s| && (forall k :: i <= k < e ==> IdentPart(s[k])) && !IdentPart(At(s, e))
    decreases |s| - i
  {
    if i < |s| && IdentPart(s[i]) then IdentEnd(s, i + 1) else i
  }

  predicate MicroSign(s: string, i: nat) {
    At(s, i) as int == 0xc2 && At(s, i + 1) as int == 0xb5
  }

  predicate DurationPart(s: string, i: nat) {
    IsDigit(At(s, i)) || IsLower(At(s, i)) || (At(s, i) == '.' && IsDigit(At(s, i + 1)))
  }

  function DurationEnd(s: string, i: nat): (e: nat)
    requires i <= |s|
    ensures i <= e <= |s|
    decreases |s| - i
  {
    if i >= |s| then i
    else if DurationPart(s, i) then DurationEnd(s, i + 1)
    else if MicroSign(s, i) then DurationEnd(s, i + 2)
    else i
  }

  predicate TimestampStop(s: string, i: nat) {
    At(s, i) in {' ', '\n', '\t', '\r', ',', ']', '}', '#'} || (At(s, i) == '/' && At(s, i + 1) in {'/', '*'})
  }

  function TimestampEnd(s: string, i: nat): (e: nat)
    requires i <= |s|
    ensures i <= e <= |s|
    decreases |s| - i
  {
    if i < |s| && !TimestampStop(s, i) then TimestampEnd(s, i + 1) else i
  }

  // Numbers.

  function PointEnd(s: string, i: nat): (e: nat)
    requires i <= |s|
    ensures i <= e <= |s|
  {
    if At(s, i) == '.' then DigitsEnd(s, i + 1) else i
  }

  function ExponentEnd(s: string, i: nat): (e: nat)
    requires i <= |s|
    ensures i <= e <= |s|
  {
    if At(s, i) == 'e' || At(s, i) == 'E' then
      DigitsEnd(s, if At(s, i + 1) == '+' || At(s, i + 1) == '-' then i + 2 else i + 1)
    else i
  }

  /** After a '.' and an exponent, when they are there. */
  function FloatEnd(s: string, i: nat): (e: nat)
    requires i <= |s|
    ensures i <= e <= |s|
  {
    ExponentEnd(s, PointEnd(s, i))
  }

  /** After a precision suffix, or where there is none. */
  function PrecisionEnd(s: string, i: nat): (e: nat)
    requires i <= |s|
    ensures i <= e <= |s|
  {
    if At(s, i) == 'p' && IsDigit(At(s, i + 1)) then DigitsEnd(s, i + 1) else i
  }

  function NumberToken(kind: Kind, s: string, i: nat): (l: Lexed)
    requires i <= |s|
    ensures |l.rest| + i <= |s|
  {
    var e := PrecisionEnd(s, i);
    Lexed(Token(kind, s[..i], if e == i then "" else s[i + 1..e]), s[e..])
  }

  predicate DurationUnit(s: string, i: nat) {
    At(s, i) in {'h', 'm', 's', 'n', 'u'} || MicroSign(s, i)
  }

  /** After a '.' and digits. */
  function FractionEnd(s: string, i: nat): (e: nat)
    requires i <= |s|
    ensures i <= e <= |s|
  {
    if At(s, i) == '.' && IsDigit(At(s, i + 1)) then DigitsEnd(s, i + 1) else i
  }

  predicate Infinity(s: string) {
    |s| >= 4 && s[1] == 'i' && s[2] == 'n' && s[3] == 'f' && !IdentPart(At(s, 4))
  }

  function LexNumber(s: string): (l: Lexed)
    requires s != [] && (IsDigit(s[0]) || s[0] == '-' || s[0] == '+')
    ensures |l.rest| < |s|
    ensures l.token.kind in {Int, Float, TimestampLit, DurationLit, Illegal}
  {
    if IsDigit(s[0]) then LexMagnitude(s, 0)
    else if Infinity(s) then Lexed(Plain(Float, s[..4]), s[4..])
    else if s[0] == '+' || !IsDigit(At(s, 1)) then ILLEGAL
    else LexMagnitude(s, 1)
  }

  /** A number from its first digit on. */
  function LexMagnitude(s: string, start: nat): (l: Lexed)
    requires start <= 1 && start < |s| && IsDigit(s[start])
    ensures |l.rest| < |s|
    ensures l.token.kind in {Int, Float, TimestampLit, DurationLit, Illegal}
  {
    var i := DigitsEnd(s, start);
    if start == 0 && i == 4 && At(s, i) == '-' then LexTimestamp(s, i)
    else
      var j := FractionEnd(s, i);
      if j < |s| && DurationUnit(s, j) then LexDuration(s, j)
      else if j > i || At(s, j) in {'.', 'e', 'E'} then NumberToken(Float, s, FloatEnd(s, j))
      else NumberToken(Int, s, j)
  }

  function LexTimestamp(s: string, i: nat): (l: Lexed)
    requires 0 < i <= |s|
    ensures |l.rest| < |s|
  {
    var e := TimestampEnd(s, i);
    if Timestamps.Valid(s[..e]) then Lexed(Plain(TimestampLit, s[..e]), s[e..]) else ILLEGAL
  }

  function LexDuration(s: string, i: nat): (l: Lexed)
    requires 0 < i <= |s|
    ensures |l.rest| < |s|
  {
    var e := DurationEnd(s, i);
    if Durations.Valid(s[..e]) then Lexed(Plain(DurationLit, s[..e]), s[e..]) else ILLEGAL
  }

  // Strings.

  function Hex(c: char): Option<nat> {
    if IsDigit(c) then Some(c as int - '0' as int)
    else if 'a' <= c <= 'f' then Some(c as int - 'a' as int + 10)
    else if 'A' <= c <= 'F' then Some(c as int - 'A' as int + 10)
    else None
  }

  /** A number of n hexadecimal digits. */
  function HexNumber(s: string, n: nat): (r: Option<nat>)
    ensures r.Some? ==> n <= |s|
  {
    if n == 0 then Some(0)
    else if n > |s| || Hex(s[n - 1]).None? then None
    else
      match HexNumber(s, n - 1)
      case None => None
      case Some(high) => Some(16 * high + Hex(s[n - 1]).value)
  }

  function Octal(c: char): Option<nat> {
    if '0' <= c <= '7' then Some(c as int - '0' as int) else None
  }

  /** The UTF-8 encoding of a Unicode scalar value. */
  function Rune(r: nat): Option<string> {
    if r > 0x10_ffff || 0xd800 <= r <= 0xdfff then None
    else if r < 0x80 then Some([r as char])
    else if r < 0x800 then Some([(0xc0 + r / 0x40) as char, (0x80 + r % 0x40) as char])
    else if r < 0x1_0000 then Some([(0xe0 + r / 0x1000) as char, (0x80 + r / 0x40 % 0x40) as char, (0x80 + r % 0x40) as char])
    else
      Some([(0xf0 + r / 0x4_0000) as char, (0x80 + r / 0x1000 % 0x40) as char,
            (0x80 + r / 0x40 % 0x40) as char, (0x80 + r % 0x40) as char])
  }

  /** The bytes an escape denotes, and its length after the backslash. */
  datatype Escape = Escape(bytes: string, length: nat)

  function EscapeAt(s: string): (e: Option<Escape>)
    requires s != []
    ensures e.Some? ==> 0 < e.value.length <= |s|
  {
    match s[0]
    case '"' => Some(Escape("\"", 1))
    case '\\' => Some(Escape("\\", 1))
    case '\'' => Some(Escape("'", 1))
    case '?' => Some(Escape("?", 1))
    case 'a' => Some(Escape([7 as char], 1))
    case 'b' => Some(Escape([8 as char], 1))
    case 'f' => Some(Escape([12 as char], 1))
    case 'n' => Some(Escape("\n", 1))
    case 'r' => Some(Escape("\r", 1))
    case 't' => Some(Escape("\t", 1))
    case 'v' => Some(Escape([11 as char], 1))
    case 'x' =>
      (match HexNumber(s[1..], 2)
       case None => None
       case Some(n) => if n < 256 then Some(Escape([n as char], 3)) else None)
    case 'u' =>
      (match HexNumber(s[1..], 4)
       case None => None
       case Some(n) => match Rune(n) case None => None case Some(b) => Some(Escape(b, 5)))
    case 'U' =>
      (match HexNumber(s[1..], 8)
       case None => None
       case Some(n) => match Rune(n) case None => None case Some(b) => Some(Escape(b, 9)))
    case _ =>
      if '0' <= s[0] <= '3' && |s| >= 3 && Octal(s[1]).Some? && Octal(s[2]).Some? then
        Some(Escape([((s[0] as int - '0' as int) * 64 + Octal(s[1]).value * 8 + Octal(s[2]).value) as char], 3))
      else None
  }

  /** After the opening quote, with the bytes read so far. */
  function LexString(s: string, buf: string): (l: Lexed)
    ensures |l.rest| <= |s|
    ensures l.token.kind.Str? || l.token.kind.Illegal?
    decreases |s|
  {
    if s == [] || s[0] == '\n' then ILLEGAL
    else if s[0] == '"' then if IsUtf8(buf) then Lexed(Plain(Str, buf), s[1..]) else ILLEGAL
    else if s[0] != '\\' then LexString(s[1..], buf + [s[0]])
    else if |s| == 1 || EscapeAt(s[1..]).None? then ILLEGAL
    else LexString(s[1 + EscapeAt(s[1..]).value.length..], buf + EscapeAt(s[1..]).value.bytes)
  }

  /** Where the closing quotes of a triple-quoted string stand. */
  function TripleQuotes(s: string, i: nat): (e: Option<nat>)
    ensures e.Some? ==> i <= e.value && e.value + 3 <= |s|
    decreases |s| - i
  {
    if i + 2 >= |s| then None
    else if s[i] == '"' && s[i + 1] == '"' && s[i + 2] == '"' then Some(i)
    else TripleQuotes(s, i + 1)
  }

  function LexTriple(c: Config, s: string): (l: Lexed)
    requires |s| >= 3
    ensures |l.rest| < |s|
    ensures l.token.kind in {Str, Illegal}
  {
    match TripleQuotes(s, 3)
    case None => ILLEGAL
    case Some(e) => if IsUtf8(c.dedent(s[3..e])) then Lexed(Plain(Str, c.dedent(s[3..e])), s[e + 3..]) else ILLEGAL
  }

  predicate Base64Char(c: char) {
    IsLower(c) || 'A' <= c <= 'Z' || IsDigit(c) || c == '+' || c == '/'
  }

  /** The '=' at the end, two at most. */
  function Padding(s: string): (n: nat)
    ensures n <= 2 && n <= |s|
  {
    if s == [] || s[|s| - 1] != '=' then 0 else if |s| == 1 || s[|s| - 2] != '=' then 1 else 2
  }

  predicate ValidBase64(s: string) {
    var pad := Padding(s);
    s == "" || ((forall i :: 0 <= i < |s| - pad ==> Base64Char(s[i])) && if pad == 0 then |s| % 4 != 1 else |s| % 4 == 0)
  }

  /** After the opening quote of a bytes literal: the length is judged before each
      character is. */
  function BytesEnd(c: Config, s: string, i: nat): (e: Option<nat>)
    ensures e.Some? ==> i <= e.value < |s| && s[e.value] == '"'
    decreases |s| - i
  {
    if i >= |s| || i / 4 * 3 > c.maxBytes || s[i] == '\n' then None
    else if s[i] == '"' then Some(i)
    else BytesEnd(c, s, i + 1)
  }

  function LexBytes(c: Config, s: string): (l: Lexed)
    requires |s| >= 2
    ensures |l.rest| < |s|
    ensures l.token.kind in {BytesLit, Illegal}
  {
    match BytesEnd(c, s[2..], 0)
    case None => ILLEGAL
    case Some(e) => if ValidBase64(s[2..][..e]) then Lexed(Plain(BytesLit, s[2..][..e]), s[2..][e + 1..]) else ILLEGAL
  }

  // Tokens.

  function LineEnd(s: string, i: nat): (e: nat)
    requires i <= |s|
    ensures i <= e <= |s|
    decreases |s| - i
  {
    if i < |s| && s[i] != '\n' then LineEnd(s, i + 1) else i
  }

  function CommentEnd(s: string, i: nat): (e: Option<nat>)
    ensures e.Some? ==> i < e.value <= |s|
    decreases |s| - i
  {
    if i + 1 >= |s| then None
    else if s[i] == '*' && s[i + 1] == '/' then Some(i + 2)
    else CommentEnd(s, i + 1)
  }

  function LexIdent(s: string): (l: Lexed)
    requires s != [] && IdentStart(s[0])
    ensures |l.rest| < |s|
    ensures l.token.kind in {Ident, Bool, Null}
  {
    var e := IdentEnd(s, 0);
    var name := s[..e];
    var kind := if name == "true" || name == "false" then Bool else if name == "null" then Null else Ident;
    Lexed(Plain(kind, name), s[e..])
  }

  function LexDirective(s: string): (l: Lexed)
    requires s != []
    ensures |l.rest| < |s|
    ensures l.token.kind in {AtType, AtDataset, AtProto, AtDirective, Illegal}
  {
    var e := IdentEnd(s, 1);
    var name := s[1..e];
    if name == "" then ILLEGAL
    else if name == "type" then Lexed(Plain(AtType, "@type"), s[e..])
    else if name == "dataset" then Lexed(Plain(AtDataset, "@dataset"), s[e..])
    else if name == "proto" then Lexed(Plain(AtProto, "@proto"), s[e..])
    else Lexed(Plain(AtDirective, name), s[e..])
  }

  function Punctuation(c: char): (k: Option<Kind>)
    ensures k.Some? ==> k.value in {LBrace, RBrace, LBracket, RBracket, LParen, RParen, Equals, Colon, Comma}
  {
    match c
    case '{' => Some(LBrace)
    case '}' => Some(RBrace)
    case '[' => Some(LBracket)
    case ']' => Some(RBracket)
    case '(' => Some(LParen)
    case ')' => Some(RParen)
    case '=' => Some(Equals)
    case ':' => Some(Colon)
    case ',' => Some(Comma)
    case _ => None
  }

  /** The token at the start of a text that has no blanks before it. */
  function LexAt(c: Config, s: string): (l: Lexed)
    requires s != []
    ensures |l.rest| < |s|
  {
    var ch := s[0];
    if ch == '\n' then Lexed(Plain(Newline, ""), s[1..])
    else if ch == '#' then Lexed(Plain(Comment, s[..LineEnd(s, 1)]), s[LineEnd(s, 1)..])
    else if ch == '/' && At(s, 1) == '/' then Lexed(Plain(Comment, s[..LineEnd(s, 1)]), s[LineEnd(s, 1)..])
    else if ch == '/' && At(s, 1) == '*' then
      match CommentEnd(s, 2)
      case None => ILLEGAL
      case Some(e) => Lexed(Plain(Comment, s[..e]), s[e..])
    else if ch == '"' then
      if At(s, 1) == '"' && At(s, 2) == '"' then LexTriple(c, s) else LexString(s[1..], "")
    else if ch == 'b' && At(s, 1) == '"' then LexBytes(c, s)
    else if Punctuation(ch).Some? then Lexed(Plain(Punctuation(ch).value, [ch]), s[1..])
    else if ch == '@' then LexDirective(s)
    else if ch == '-' || ch == '+' || IsDigit(ch) then LexNumber(s)
    else if IdentStart(ch) then LexIdent(s)
    else ILLEGAL
  }

  /** next_token */
  function NextToken(c: Config, s: string): (l: Lexed)
    ensures s != [] && l.token.kind != Eof ==> |l.rest| < |s|
    ensures s == [] ==> l.token.kind == Eof
  {
    var t := SkipBlanks(s);
    if t == [] then Lexed(Plain(Eof, ""), "") else LexAt(c, t)
  }

  /** The tokens the parser sees, to the end or to the first that is none: a parser
      goes no further than an illegal token. */
  function Tokens(c: Config, s: string): seq<Token>
    decreases |s|
  {
    var l := NextToken(c, s);
    if l.token.kind.Eof? then []
    else if l.token.kind.Illegal? then [l.token]
    else if l.token.kind.Newline? || l.token.kind.Comment? then Tokens(c, l.rest)
    else [l.token] + Tokens(c, l.rest)
  }
}
