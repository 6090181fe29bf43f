/** The lexer as it runs: one position moving through the input. */
module LexerCode {
  import opened Options
  import opened Decimals
  import opened Lexing
  import Durations
  import Timestamps

  lemma SamePart(input: string, start: nat, at: nat)
    requires start <= at < |input|
    ensures DurationPart(input[start..], at - start) == DurationPart(input, at)
    ensures MicroSign(input[start..], at - start) == MicroSign(input, at)
    ensures MicroSign(input, at) ==> at + 2 <= |input|
  {}

  lemma SameStop(input: string, start: nat, at: nat)
    requires start <= at < |input|
    ensures TimestampStop(input[start..], at - start) == TimestampStop(input, at)
  {}

  class Lexer {
    const config: Config
    const input: string
    var pos: nat

    ghost predicate Valid()
      reads this
    {
      pos <= |input|
    }

    /** What is left to read. */
    ghost function Rest(): string
      requires Valid()
      reads this
    {
      input[pos..]
    }

    constructor (config: Config, input: string)
      ensures Valid() && this.config == config && this.input == input && Rest() == input
    {
      this.config := config;
      this.input := input;
      pos := 0;
    }

    function Peek(offset: nat): (c: char)
      requires pos <= |input|
      reads this
      ensures c == At(input[pos..], offset)
    {
      if pos + offset < |input| then input[pos + offset] else '\0'
    }

    /** What a token method gives: the token of the specification, and the position
        after it unless it is illegal. */
    ghost predicate Gives(t: Token, l: Lexed)
      requires Valid()
      reads this
    {
      t.kind == l.token.kind && (t.kind != Illegal ==> t == l.token && Rest() == l.rest)
    }

    method SkipSpaces()
      requires Valid()
      modifies this
      ensures Valid() && Rest() == SkipBlanks(old(Rest()))
    {
      while pos < |input| && IsBlank(input[pos])
        invariant Valid() && SkipBlanks(Rest()) == SkipBlanks(old(Rest()))
        decreases |input| - pos
      {
        assert input[pos..][1..] == input[pos + 1..];
        pos := pos + 1;
      }
    }

    /** Moves past digits, in the text that started at start. */
    method SkipDigits(ghost start: nat)
      requires Valid() && start <= pos
      modifies this
      ensures Valid() && pos == start + DigitsEnd(input[start..], old(pos) - start)
    {
      ghost var s := input[start..];
      while pos < |input| && IsDigit(input[pos])
        invariant Valid() && start <= pos && DigitsEnd(s, pos - start) == DigitsEnd(s, old(pos) - start)
        decreases |input| - pos
      {
        pos := pos + 1;
      }
    }

    method SkipIdent(ghost start: nat)
      requires Valid() && start <= pos
      modifies this
      ensures Valid() && pos == start + IdentEnd(input[start..], old(pos) - start)
    {
      ghost var s := input[start..];
      while pos < |input| && IdentPart(input[pos])
        invariant Valid() && start <= pos && IdentEnd(s, pos - start) == IdentEnd(s, old(pos) - start)
        decreases |input| - pos
      {
        pos := pos + 1;
      }
    }

    lemma Sliced(start: nat, end: nat)
      requires start <= end <= |input|
      ensures input[start..][..end - start] == input[start..end] && input[start..][end - start..] == input[end..]
    {}

    /** lex_ident */
    method ReadIdent() returns (t: Token)
      requires Valid() && Rest() != "" && IdentStart(input[pos])
      modifies this
      ensures Valid() && Gives(t, LexIdent(old(Rest())))
    {
      var start := pos;
      SkipIdent(start);
      Sliced(start, pos);
      var name := input[start..pos];
      t := Plain(if name == "true" || name == "false" then Bool else if name == "null" then Null else Ident, name);
    }

    /** lex_directive */
    method ReadDirective() returns (t: Token)
      requires Valid() && Rest() != "" && input[pos] == '@'
      modifies this
      ensures Valid() && Gives(t, LexDirective(old(Rest())))
    {
      var start := pos;
      pos := pos + 1;
      SkipIdent(start);
      Sliced(start, pos);
      assert input[start..][1..pos - start] == input[start + 1..pos];
      var name := input[start + 1..pos];
      if name == "" {
        t := Plain(Illegal, "@");
      } else if name == "type" {
        t := Plain(AtType, "@type");
      } else if name == "dataset" {
        t := Plain(AtDataset, "@dataset");
      } else if name == "proto" {
        t := Plain(AtProto, "@proto");
      } else {
        t := Plain(AtDirective, name);
      }
    }

    /** lex_string, past its opening quote. */
    method ReadString() returns (t: Token)
      requires Valid()
      modifies this
      ensures Valid() && Gives(t, LexString(old(Rest()), ""))
    {
      hide IsUtf8, EscapeAt;
      var buf := "";
      while pos < |input|
        invariant Valid() && LexString(Rest(), buf) == LexString(old(Rest()), "")
        decreases |input| - pos
      {
        var ch := input[pos];
        ghost var rest := Rest();
        assert rest[1..] == input[pos + 1..];
        if ch == '"' {
          pos := pos + 1;
          return if IsUtf8(buf) then Plain(Str, buf) else Plain(Illegal, "string contains invalid UTF-8");
        }
        if ch == '\n' {
          return Plain(Illegal, "raw newline in string");
        }
        if ch != '\\' {
          buf := buf + [ch];
          pos := pos + 1;
        } else {
          if pos + 1 >= |input| {
            return Plain(Illegal, "unterminated escape sequence");
          }
          var escape := EscapeAt(input[pos + 1..]);
          if escape.None? {
            return Plain(Illegal, "invalid escape");
          }
          buf := buf + escape.value.bytes;
          assert rest[1 + escape.value.length..] == input[pos + 1 + escape.value.length..];
          pos := pos + 1 + escape.value.length;
        }
      }
      t := Plain(Illegal, "unterminated string");
    }

    /** lex_triple_string */
    method ReadTriple() returns (t: Token)
      requires Valid() && |Rest()| >= 3
      modifies this
      ensures Valid() && Gives(t, LexTriple(config, old(Rest())))
    {
      hide IsUtf8;
      ghost var s := Rest();
      ghost var from := pos;
      pos := pos + 3;
      var start := pos;
      while pos + 2 < |input|
        invariant Valid() && from + 3 == start <= pos && TripleQuotes(s, pos - from) == TripleQuotes(s, 3)
        decreases |input| - pos
      {
        if input[pos] == '"' && input[pos + 1] == '"' && input[pos + 2] == '"' {
          assert s[3..pos - from] == input[start..pos] && s[pos - from + 3..] == input[pos + 3..];
          var text := config.dedent(input[start..pos]);
          pos := pos + 3;
          return if IsUtf8(text) then Plain(Str, text) else Plain(Illegal, "invalid UTF-8");
        }
        pos := pos + 1;
      }
      t := Plain(Illegal, "unterminated triple-quoted string");
    }

    /** lex_bytes */
    method ReadBytes() returns (t: Token)
      requires Valid() && |Rest()| >= 2
      modifies this
      ensures Valid() && Gives(t, LexBytes(config, old(Rest())))
    {
      hide ValidBase64, BytesEnd;
      pos := pos + 2;
      var start := pos;
      assert old(Rest())[2..] == input[start..];
      var closed := FindQuote();
      if !closed {
        return Plain(Illegal, "unterminated bytes literal");
      }
      Sliced(start, pos);
      assert input[start..][pos - start + 1..] == input[pos + 1..];
      var raw := input[start..pos];
      pos := pos + 1;
      t := if ValidBase64(raw) then Plain(BytesLit, raw) else Plain(Illegal, "invalid base64 in bytes literal");
    }

    /** Its loop: to the closing quote, the length judged on the way. */
    method FindQuote() returns (closed: bool)
      requires Valid()
      modifies this
      ensures Valid() && old(pos) <= pos
      ensures BytesEnd(config, old(Rest()), 0) == if closed then Some(pos - old(pos)) else None
      ensures closed ==> pos < |input|
    {
      ghost var s := Rest();
      var start := pos;
      while pos < |input|
        invariant Valid() && start <= pos && BytesEnd(config, s, pos - start) == BytesEnd(config, s, 0)
        decreases |input| - pos
      {
        if (pos - start) / 4 * 3 > config.maxBytes {
          return false;
        }
        if input[pos] == '"' {
          return true;
        }
        if input[pos] == '\n' {
          return false;
        }
        pos := pos + 1;
      }
      closed := false;
    }

    /** lex_precision: the digits of a suffix, or nothing. */
    method ReadPrecision(ghost start: nat) returns (prec: string)
      requires Valid() && start <= pos
      modifies this
      ensures Valid() && pos == start + PrecisionEnd(input[start..], old(pos) - start)
      ensures prec == if pos == old(pos) then "" else input[old(pos) + 1..pos]
    {
      if Peek(0) != 'p' || !IsDigit(Peek(1)) {
        return "";
      }
      pos := pos + 1;
      var from := pos;
      SkipDigits(start);
      prec := input[from..pos];
    }

    /** An integer or float that ends here, with its precision. */
    method FinishNumber(kind: Kind, start: nat) returns (t: Token)
      requires Valid() && start <= pos
      modifies this
      ensures Valid() && t == NumberToken(kind, input[start..], old(pos) - start).token
      ensures Rest() == NumberToken(kind, input[start..], old(pos) - start).rest
    {
      hide PrecisionEnd;
      var end := pos;
      Sliced(start, end);
      var prec := ReadPrecision(start);
      Sliced(start, pos);
      assert pos > end ==> input[start..][end - start + 1..pos - start] == input[end + 1..pos];
      t := Token(kind, input[start..end], prec);
    }

    /** lex_float, from the '.' or the exponent. */
    method ReadFloat(start: nat) returns (t: Token)
      requires Valid() && start <= pos
      modifies this
      ensures Valid() && t == NumberToken(Float, input[start..], FloatEnd(input[start..], old(pos) - start)).token
      ensures Rest() == NumberToken(Float, input[start..], FloatEnd(input[start..], old(pos) - start)).rest
    {
      hide DigitsEnd, NumberToken, ExponentEnd;
      if Peek(0) == '.' {
        pos := pos + 1;
        SkipDigits(start);
      }
      SkipExponent(start);
      t := FinishNumber(Float, start);
    }

    method SkipExponent(ghost start: nat)
      requires Valid() && start <= pos
      modifies this
      ensures Valid() && pos == start + ExponentEnd(input[start..], old(pos) - start)
    {
      hide DigitsEnd;
      if Peek(0) == 'e' || Peek(0) == 'E' {
        pos := pos + 1;
        if Peek(0) == '+' || Peek(0) == '-' {
          pos := pos + 1;
        }
        SkipDigits(start);
      }
    }

    /** lex_timestamp, from the dash after the year. */
    method ReadTimestamp(start: nat) returns (t: Token)
      requires Valid() && start < pos
      modifies this
      ensures Valid() && Gives(t, LexTimestamp(input[start..], old(pos) - start))
    {
      hide Timestamps.Valid, TimestampStop;
      ghost var s := input[start..];
      while pos < |input| && !TimestampStop(input, pos)
        invariant Valid() && start < pos && TimestampEnd(s, pos - start) == TimestampEnd(s, old(pos) - start)
        decreases |input| - pos
      {
        SameStop(input, start, pos);
        pos := pos + 1;
      }
      if pos < |input| {
        SameStop(input, start, pos);
      }
      Sliced(start, pos);
      var raw := input[start..pos];
      t := if Timestamps.Valid(raw) then Plain(TimestampLit, raw) else Plain(Illegal, "invalid timestamp");
    }

    /** lex_duration, from the unit after its first digits. */
    method ReadDuration(start: nat) returns (t: Token)
      requires Valid() && start < pos
      modifies this
      ensures Valid() && Gives(t, LexDuration(input[start..], old(pos) - start))
    {
      hide Durations.Valid, DurationEnd;
      SkipDuration(start);
      Sliced(start, pos);
      var raw := input[start..pos];
      t := if Durations.Valid(raw) then Plain(DurationLit, raw) else Plain(Illegal, "invalid duration");
    }

    method SkipDuration(ghost start: nat)
      requires Valid() && start < pos
      modifies this
      ensures Valid() && pos == start + DurationEnd(input[start..], old(pos) - start)
    {
      hide DurationPart, MicroSign;
      ghost var s := input[start..];
      while pos < |input| && (DurationPart(input, pos) || MicroSign(input, pos))
        invariant Valid() && start < pos && DurationEnd(s, pos - start) == DurationEnd(s, old(pos) - start)
        decreases |input| - pos
      {
        SamePart(input, start, pos);
        pos := pos + if DurationPart(input, pos) then 1 else 2;
      }
      if pos < |input| {
        SamePart(input, start, pos);
      }
    }

    /** lex_number */
    method ReadNumber() returns (t: Token)
      requires Valid() && Rest() != "" && (IsDigit(input[pos]) || input[pos] == '-' || input[pos] == '+')
      modifies this
      ensures Valid() && Gives(t, LexNumber(old(Rest())))
    {
      hide LexMagnitude;
      if IsDigit(input[pos]) {
        t := ReadMagnitude(pos);
        return;
      }
      var start := pos;
      var plus := input[pos] == '+';
      if Peek(1) == 'i' && Peek(2) == 'n' && Peek(3) == 'f' && !IdentPart(Peek(4)) {
        pos := pos + 4;
        Sliced(start, pos);
        return Plain(Float, input[start..pos]);
      }
      if plus || !IsDigit(Peek(1)) {
        return Plain(Illegal, "-");
      }
      pos := pos + 1;
      t := ReadMagnitude(start);
    }

    /** From the first digit on, in a literal that began at start. */
    method ReadMagnitude(start: nat) returns (t: Token)
      requires Valid() && start <= pos <= start + 1 && pos < |input| && IsDigit(input[pos])
      modifies this
      ensures Valid() && Gives(t, LexMagnitude(input[start..], old(pos) - start))
    {
      hide DigitsEnd, FloatEnd, NumberToken, LexTimestamp, LexDuration, DurationUnit;
      var from := pos;
      SkipDigits(start);
      if from == start && pos - from == 4 && Peek(0) == '-' {
        t := ReadTimestamp(start);
        return;
      }
      var whole := pos;
      SkipFraction(start);
      t := FinishLiteral(start, whole);
    }

    method SkipFraction(ghost start: nat)
      requires Valid() && start <= pos
      modifies this
      ensures Valid() && pos == start + FractionEnd(input[start..], old(pos) - start)
    {
      hide DigitsEnd;
      if Peek(0) == '.' && IsDigit(Peek(1)) {
        pos := pos + 1;
        SkipDigits(start);
      }
    }

    /** What follows the digits and the fraction decides. */
    method FinishLiteral(start: nat, whole: nat) returns (t: Token)
      requires Valid() && start < whole <= pos
      modifies this
      ensures Valid()
      ensures var s, j := input[start..], old(pos) - start;
              if j < |s| && DurationUnit(s, j) then Gives(t, LexDuration(s, j))
              else if old(pos) > whole || At(s, j) in {'.', 'e', 'E'} then Gives(t, NumberToken(Float, s, FloatEnd(s, j)))
              else Gives(t, NumberToken(Int, s, j))
    {
      hide FloatEnd, NumberToken, LexDuration;
      if pos < |input| && (Peek(0) in {'h', 'm', 's', 'n', 'u'} || (Peek(0) as int == 0xc2 && Peek(1) as int == 0xb5)) {
        t := ReadDuration(start);
      } else if pos > whole || Peek(0) in {'.', 'e', 'E'} {
        t := ReadFloat(start);
      } else {
        t := FinishNumber(Int, start);
      }
    }

    /** lex_line_comment */
    method ReadLine() returns (t: Token)
      requires Valid() && Rest() != ""
      modifies this
      ensures Valid() && t == Plain(Comment, old(Rest())[..LineEnd(old(Rest()), 1)])
      ensures Rest() == old(Rest())[LineEnd(old(Rest()), 1)..]
    {
      var start := pos;
      ghost var s := Rest();
      pos := pos + 1;
      while pos < |input| && input[pos] != '\n'
        invariant Valid() && start < pos && LineEnd(s, pos - start) == LineEnd(s, 1)
        decreases |input| - pos
      {
        pos := pos + 1;
      }
      Sliced(start, pos);
      t := Plain(Comment, input[start..pos]);
    }

    /** lex_block_comment */
    method ReadComment() returns (t: Token)
      requires Valid() && |Rest()| >= 2
      modifies this
      ensures Valid()
      ensures var s := old(Rest());
              match CommentEnd(s, 2)
              case None => t.kind == Illegal
              case Some(e) => t == Plain(Comment, s[..e]) && Rest() == s[e..]
    {
      var start := pos;
      ghost var s := Rest();
      pos := pos + 2;
      while pos + 1 < |input|
        invariant Valid() && start < pos && CommentEnd(s, pos - start) == CommentEnd(s, 2)
        decreases |input| - pos
      {
        if input[pos] == '*' && input[pos + 1] == '/' {
          pos := pos + 2;
          Sliced(start, pos);
          return Plain(Comment, input[start..pos]);
        }
        pos := pos + 1;
      }
      t := Plain(Illegal, "unterminated block comment");
    }

    /** next_token, after the blanks. */
    method ReadToken() returns (t: Token)
      requires Valid() && Rest() != ""
      modifies this
      ensures Valid() && Gives(t, LexAt(config, old(Rest())))
    {
      hide LexNumber, LexIdent, LexDirective, LexString, LexTriple, LexBytes, CommentEnd, LineEnd;
      var ch := input[pos];
      ghost var s := Rest();
      assert s[1..] == input[pos + 1..];
      if ch == '\n' {
        pos := pos + 1;
        t := Plain(Newline, "");
      } else if ch == '#' || (ch == '/' && Peek(1) == '/') {
        t := ReadLine();
      } else if ch == '/' && Peek(1) == '*' {
        t := ReadComment();
      } else if ch == '"' {
        if Peek(1) == '"' && Peek(2) == '"' {
          t := ReadTriple();
        } else {
          pos := pos + 1;
          t := ReadString();
        }
      } else if ch == 'b' && Peek(1) == '"' {
        t := ReadBytes();
      } else if Punctuation(ch).Some? {
        pos := pos + 1;
        t := Plain(Punctuation(ch).value, [ch]);
      } else if ch == '@' {
        t := ReadDirective();
      } else if ch == '-' || ch == '+' || IsDigit(ch) {
        t := ReadNumber();
      } else if IdentStart(ch) {
        t := ReadIdent();
      } else {
        t := Plain(Illegal, [ch]);
      }
    }

    /** next_token */
    method Next() returns (t: Token)
      requires Valid()
      modifies this
      ensures Valid() && Gives(t, NextToken(config, old(Rest())))
    {
      hide LexAt;
      SkipSpaces();
      if pos >= |input| {
        return Plain(Eof, "");
      }
      t := ReadToken();
    }
  }
}
