/** The scanners' loops and the streaming reader as they run. */
module RowReaderCode {
  import opened Bytes
  import opened Options
  import opened RowScanner
  import opened RowStream

  /** The loop of a string or bytes literal, past its opening quote. */
  method SkipSimpleString(s: seq<Byte>, from: nat) returns (r: Skip)
    ensures r == StringEnd(s, from)
  {
    var j := from;
    while j < |s|
      invariant StringEnd(s, from) == StringEnd(s, j)
      decreases |s| - j
    {
      if s[j] == BACKSLASH {
        if j + 1 >= |s| {
          return Incomplete;
        }
        j := j + 2;
      } else if s[j] == QUOTE {
        return Past(j + 1);
      } else if s[j] == NEWLINE {
        return Skip.Malformed;
      } else {
        j := j + 1;
      }
    }
    r := Incomplete;
  }

  method SkipTripleString(s: seq<Byte>, i: nat) returns (r: Skip)
    ensures r == TripleEnd(s, i + 3)
  {
    var j := i + 3;
    while j + 2 < |s|
      invariant TripleEnd(s, i + 3) == TripleEnd(s, j)
    {
      if s[j] == QUOTE && s[j + 1] == QUOTE && s[j + 2] == QUOTE {
        return Past(j + 3);
      }
      j := j + 1;
    }
    r := Incomplete;
  }

  method SkipLineComment(s: seq<Byte>, from: nat) returns (j: nat)
    requires from <= |s|
    ensures j == LineEnd(s, from)
  {
    j := from;
    while j < |s| && s[j] != NEWLINE
      invariant j <= |s| && LineEnd(s, from) == LineEnd(s, j)
    {
      j := j + 1;
    }
  }

  method SkipBlockComment(s: seq<Byte>, from: nat) returns (r: Skip)
    ensures r == CommentEnd(s, from)
  {
    var j := from;
    while j + 1 < |s|
      invariant CommentEnd(s, from) == CommentEnd(s, j)
    {
      if s[j] == STAR && s[j + 1] == SLASH {
        return Past(j + 2);
      }
      j := j + 1;
    }
    r := Incomplete;
  }

  method SkipStringOrComment(s: seq<Byte>, i: nat) returns (r: Skip)
    requires i < |s|
    ensures r == SkipAt(s, i)
  {
    var n, ch := |s|, s[i];
    if ch == QUOTE {
      if i + 2 < n && s[i + 1] == QUOTE && s[i + 2] == QUOTE {
        r := SkipTripleString(s, i);
      } else {
        r := SkipSimpleString(s, i + 1);
      }
    } else if ch == LETTER_B && i + 1 < n && s[i + 1] == QUOTE {
      r := SkipSimpleString(s, i + 2);
    } else if ch == HASH {
      var j := SkipLineComment(s, i + 1);
      r := Past(j);
    } else if ch == SLASH && i + 1 < n && s[i + 1] == SLASH {
      var j := SkipLineComment(s, i + 2);
      r := Past(j);
    } else if ch == SLASH && i + 1 < n && s[i + 1] == STAR {
      r := SkipBlockComment(s, i + 2);
    } else {
      r := Past(i);
    }
  }

  /** find_matching_paren_safe: one pass, counting depth. */
  method FindMatchingParen(s: seq<Byte>, open: nat) returns (r: Scan)
    ensures r == Matching(s, open + 1, 1)
  {
    hide SkipAt;
    var depth, i := 1, open + 1;
    while i < |s|
      invariant depth > 0 && Matching(s, open + 1, 1) == Matching(s, i, depth)
      decreases |s| - i
    {
      var skip := SkipStringOrComment(s, i);
      match skip
      case Malformed => return Bad;
      case Incomplete => return More;
      case Past(j) =>
        if j != i {
          i := j;
        } else if s[i] == OPEN {
          depth, i := depth + 1, i + 1;
        } else if s[i] == CLOSE {
          depth := depth - 1;
          if depth == 0 {
            return Stop(i);
          }
          i := i + 1;
        } else {
          i := i + 1;
        }
    }
    r := More;
  }

  /** find_next_row: blanks and comments first, then one decision. */
  method FindNextRow(s: seq<Byte>) returns (r: Next)
    ensures r == FindRow(s, 0)
  {
    hide SkipAt, Matching;
    var i := 0;
    while i < |s|
      invariant FindRow(s, 0) == FindRow(s, i)
      invariant i <= |s|
      decreases |s| - i
    {
      if Blank(s[i]) {
        i := i + 1;
      } else {
        var skip := SkipStringOrComment(s, i);
        match skip {
          case Malformed => return BadLiteral;
          case Incomplete => return NeedMore;
          case Past(j) =>
            if j == i {
              r := AtRow(s, i);
              return;
            }
            i := j;
        }
      }
    }
    r := NeedMore;
  }

  /** The byte that a row, a directive or something else starts with. */
  method AtRow(s: seq<Byte>, i: nat) returns (r: Next)
    requires i < |s| && !Blank(s[i]) && SkipAt(s, i) == Past(i)
    ensures r == FindRow(s, i)
  {
    hide SkipAt, Matching;
    if s[i] == AT {
      return Done;
    }
    if s[i] != OPEN {
      return NotARow(i);
    }
    var close := FindMatchingParen(s, i);
    match close
    case Bad => r := BadLiteral;
    case More => r := InRow;
    case Stop(end) => r := Found(i, end);
  }

  method FindAtTable(s: seq<Byte>) returns (r: Scan)
    ensures r == FindKeyword(s, 0)
  {
    hide SkipAt;
    var i := 0;
    while i < |s|
      invariant FindKeyword(s, 0) == FindKeyword(s, i)
      decreases |s| - i
    {
      var skip := SkipStringOrComment(s, i);
      match skip {
        case Malformed => return Bad;
        case Incomplete => return More;
        case Past(j) =>
          if j != i {
            i := j;
          } else {
            if i + 8 <= |s| && s[i..i + 8] == KEYWORD {
              if i + 8 == |s| {
                return More;
              }
              if !IdentPart(s[i + 8]) {
                return Stop(i);
              }
            }
            i := i + 1;
          }
      }
    }
    r := More;
  }

  method FindNextChar(s: seq<Byte>, start: nat, b: Byte) returns (r: Scan)
    ensures r == FindByte(s, start, b)
  {
    hide SkipAt;
    var i := start;
    while i < |s|
      invariant FindByte(s, start, b) == FindByte(s, i, b)
      decreases |s| - i
    {
      var skip := SkipStringOrComment(s, i);
      match skip {
        case Malformed => return Bad;
        case Incomplete => return More;
        case Past(j) =>
          if j != i {
            i := j;
          } else {
            if s[i] == b {
              return Stop(i);
            }
            i := i + 1;
          }
      }
    }
    r := More;
  }

  method ScanHeaderEnd(s: seq<Byte>) returns (r: Scan)
    ensures r == HeaderEnd(s)
  {
    hide FindKeyword, FindByte, Matching;
    var at := FindAtTable(s);
    if !at.Stop? {
      return at;
    }
    var open := FindNextChar(s, at.at + 8, OPEN);
    if !open.Stop? {
      return open;
    }
    r := FindMatchingParen(s, open.at);
  }

  /** DatasetReader. The rows it took so far are gone from pending. */
  class DatasetReader {
    const grammar: Grammar
    const maxMessageSize: nat
    var src: seq<Chunk>
    var pending: seq<Byte>
    var srcEof: bool
    var finished: bool
    var err: Option<Failure>

    function Held(): State
      reads this
    {
      State(pending, src, srcEof)
    }

    constructor (grammar: Grammar, maxMessageSize: nat, src: seq<Chunk>)
      ensures this.grammar == grammar && this.maxMessageSize == maxMessageSize
      ensures Held() == State([], src, false) && !finished && err.None?
    {
      this.grammar := grammar;
      this.maxMessageSize := maxMessageSize;
      this.src := src;
      pending := [];
      srcEof := false;
      finished := false;
      err := None;
    }

    /** Reads once, again when interrupted. */
    method Pull() returns (ok: bool)
      modifies this`src, this`pending, this`srcEof
      ensures ok <==> RowStream.Pull(old(Held())).Some?
      ensures ok ==> Held() == RowStream.Pull(old(Held())).value
      ensures !ok ==> pending == old(pending) && srcEof == old(srcEof)
      decreases |src|
    {
      if srcEof {
        return true;
      }
      if src == [] {
        srcEof := true;
        return true;
      }
      var got := src[0];
      src := src[1..];
      match got
      case Data(b) =>
        if b == [] {
          srcEof := true;
        } else {
          pending := pending + b;
        }
        return true;
      case Interrupted =>
        ok := Pull();
      case Failed =>
        return false;
    }

    /** read_header */
    method ReadHeader() returns (outcome: Outcome)
      modifies this`src, this`pending, this`srcEof
      ensures outcome == RowStream.Open(grammar, old(Held())).outcome
      ensures outcome == End ==> Held() == RowStream.Open(grammar, old(Held())).state
    {
      hide HeaderEnd;
      while true
        invariant RowStream.Open(grammar, Held()) == RowStream.Open(grammar, old(Held()))
        decreases if srcEof then 0 else 1, |src|
      {
        var found := ScanHeaderEnd(pending);
        match found {
          case Bad => return Error(Failure.Malformed);
          case Stop(end) =>
            if !grammar.header(pending[..end + 1]) {
              return Error(BadHeader);
            }
            pending := pending[end + 1..];
            return End;
          case More =>
            if srcEof {
              return Error(NoDirective);
            }
            if |pending| >= HEADER_MAX {
              return Error(TooLong);
            }
            ghost var before := Held();
            var ok := Pull();
            if !ok {
              return Error(ReadFailed);
            }
            assert RowStream.Open(grammar, before) == RowStream.Open(grammar, Held());
        }
      }
    }

    /** next_row: an error is sticky, and so is the end. */
    method NextRow() returns (outcome: Outcome)
      modifies this
      ensures old(err).Some? ==> outcome == Error(old(err).value) && Held() == old(Held()) && err == old(err)
      ensures old(err).None? && old(finished) ==> outcome == End && Held() == old(Held()) && finished && err.None?
      ensures old(err).None? && !old(finished) ==>
                && outcome == Step(grammar, maxMessageSize, old(Held())).outcome
                && (outcome != Error(ReadFailed) ==> Held() == Step(grammar, maxMessageSize, old(Held())).state)
                && err == (if outcome.Error? then Some(outcome.failure) else None)
                && finished == (outcome == End)
    {
      if err.Some? {
        return Error(err.value);
      }
      if finished {
        return End;
      }
      outcome := Advance();
      if outcome.Error? {
        err := Some(outcome.failure);
      } else if outcome.End? {
        finished := true;
      }
    }

    /** The loop of next_row. */
    method Advance() returns (outcome: Outcome)
      modifies this`src, this`pending, this`srcEof
      ensures outcome == Step(grammar, maxMessageSize, old(Held())).outcome
      ensures outcome != Error(ReadFailed) ==> Held() == Step(grammar, maxMessageSize, old(Held())).state
    {
      hide FindRow;
      while true
        invariant Step(grammar, maxMessageSize, Held()) == Step(grammar, maxMessageSize, old(Held()))
        decreases if srcEof then 0 else 1, |src|
      {
        var found := FindNextRow(pending);
        match found {
          case BadLiteral => return Error(Failure.Malformed);
          case NotARow(_) => return Error(Unexpected);
          case Done => return End;
          case Found(start, end) =>
            var row := pending[start..end + 1];
            pending := pending[end + 1..];
            return if grammar.row(row) then Row(row) else Error(BadRow);
          case _ =>
            if srcEof {
              return if found.InRow? then Error(Truncated) else End;
            }
            if |pending| >= maxMessageSize {
              return Error(TooLong);
            }
            ghost var before := Held();
            var ok := Pull();
            if !ok {
              return Error(ReadFailed);
            }
            assert Step(grammar, maxMessageSize, before) == Step(grammar, maxMessageSize, Held());
        }
      }
    }
  }
}
