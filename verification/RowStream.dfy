/** Reading a dataset from a stream: the rows do not depend on how the bytes
    arrive. */
module RowStream {
  import opened Bytes
  import opened Options
  import opened RowScanner

  /** What one read of the source gives. No bytes is the end of the stream. */
  datatype Chunk = Data(bytes: seq<Byte>) | Interrupted | Failed

  /** The bytes held, and the reads still to come. */
  datatype State = State(pending: seq<Byte>, src: seq<Chunk>, eof: bool)

  datatype Failure = Malformed | Unexpected | Truncated | TooLong | ReadFailed | BadRow | NoDirective | BadHeader
  datatype Outcome = Row(bytes: seq<Byte>) | End | Error(failure: Failure)

  /** The header and the rows the parser takes. */
  datatype Grammar = Grammar(header: seq<Byte> -> bool, row: seq<Byte> -> bool)

  const HEADER_MAX: nat := 64 * 1024

  /** The bytes the source delivers before it ends or fails. */
  function Delivered(src: seq<Chunk>): seq<Byte> {
    if src == [] then []
    else
      match src[0]
      case Data(b) => if b == [] then [] else b + Delivered(src[1..])
      case Interrupted => Delivered(src[1..])
      case Failed => []
  }

  /** All the bytes left to a reader. */
  function Rest(st: State): seq<Byte> {
    st.pending + if st.eof then [] else Delivered(st.src)
  }

  /** One successful read: more bytes, or the end; an interrupted read is repeated. */
  function Pull(st: State): (r: Option<State>)
    ensures r.Some? && !st.eof && !r.value.eof ==> |r.value.src| < |st.src|
    decreases |st.src|
  {
    if st.eof then Some(st)
    else if st.src == [] then Some(st.(eof := true))
    else
      match st.src[0]
      case Data(b) =>
        if b == [] then Some(st.(src := st.src[1..], eof := true))
        else Some(st.(pending := st.pending + b, src := st.src[1..]))
      case Interrupted => Pull(st.(src := st.src[1..]))
      case Failed => None
  }

  /** What one call gave, and the state it left. */
  datatype Report = Report(outcome: Outcome, state: State)

  /** The next row of a stream. */
  function Step(g: Grammar, max: nat, st: State): Report
    decreases if st.eof then 0 else 1, |st.src|
  {
    match FindRow(st.pending, 0)
    case BadLiteral => Report(Error(Failure.Malformed), st)
    case NotARow(_) => Report(Error(Unexpected), st)
    case Done => Report(End, st)
    case Found(a, b) =>
      var row := st.pending[a..b + 1];
      Report(if g.row(row) then Row(row) else Error(BadRow), st.(pending := st.pending[b + 1..]))
    case _ =>
      if st.eof then Report(if FindRow(st.pending, 0).InRow? then Error(Truncated) else End, st)
      else if |st.pending| >= max then Report(Error(TooLong), st)
      else
        match Pull(st)
        case None => Report(Error(ReadFailed), st)
        case Some(st') => Step(g, max, st')
  }

  /** The header of a stream; End says it was read. */
  function Open(g: Grammar, st: State): Report
    decreases if st.eof then 0 else 1, |st.src|
  {
    match HeaderEnd(st.pending)
    case Bad => Report(Error(Failure.Malformed), st)
    case Stop(end) =>
      if g.header(st.pending[..end + 1]) then Report(End, st.(pending := st.pending[end + 1..]))
      else Report(Error(BadHeader), st)
    case More =>
      if st.eof then Report(Error(NoDirective), st)
      else if |st.pending| >= HEADER_MAX then Report(Error(TooLong), st)
      else
        match Pull(st)
        case None => Report(Error(ReadFailed), st)
        case Some(st') => Open(g, st')
  }

  // The rows of a whole input, and of a stream.

  /** The rows, what ended them, and the state that was left. */
  datatype Run = Run(rows: seq<seq<Byte>>, last: Outcome, state: State)

  /** The rows of an input held as a whole, and what ends them. */
  function Rows(g: Grammar, input: seq<Byte>): (seq<seq<Byte>>, Outcome)
    decreases |input|
  {
    match FindRow(input, 0)
    case BadLiteral => ([], Error(Failure.Malformed))
    case NotARow(_) => ([], Error(Unexpected))
    case Done => ([], End)
    case NeedMore => ([], End)
    case InRow => ([], Error(Truncated))
    case Found(a, b) =>
      if !g.row(input[a..b + 1]) then ([], Error(BadRow))
      else
        var rest := Rows(g, input[b + 1..]);
        ([input[a..b + 1]] + rest.0, rest.1)
  }

  function ReadAll(g: Grammar, max: nat, st: State): Run
    decreases |Rest(st)|
  {
    StepIsFirst(g, max, st);
    var r := Step(g, max, st);
    if !r.outcome.Row? then Run([], r.outcome, r.state)
    else
      var rest := ReadAll(g, max, r.state);
      rest.(rows := [r.outcome.bytes] + rest.rows)
  }

  // One step.

  lemma {:induction false} PullKeeps(st: State)
    requires Pull(st).Some?
    ensures Rest(Pull(st).value) == Rest(st)
    decreases |st.src|
  {
    if !st.eof && st.src != [] {
      if st.src[0].Interrupted? {
        PullKeeps(st.(src := st.src[1..]));
      } else if st.src[0].bytes != [] {
        var b := st.src[0].bytes;
        assert st.pending + (b + Delivered(st.src[1..])) == (st.pending + b) + Delivered(st.src[1..]);
      }
    }
  }

  /** The reader stopped before the end of what it was asked: the buffer is full, the
      source failed, or a byte that might open a literal was the last to arrive. */
  predicate Cut(outcome: Outcome, st: State) {
    || outcome in {Error(TooLong), Error(ReadFailed)}
    || (outcome == Error(Unexpected) && FindRow(st.pending, 0).NotARow? && Lone(st.pending, FindRow(st.pending, 0).at))
  }

  /** A step answers for the whole of what is left. */
  ghost predicate FirstOf(g: Grammar, input: seq<Byte>, r: Report) {
    match FindRow(input, 0)
    case Found(a, b) =>
      && r.outcome == (if g.row(input[a..b + 1]) then Row(input[a..b + 1]) else Error(BadRow))
      && Rest(r.state) == input[b + 1..]
    case Done => r.outcome == End && Rest(r.state) == input
    case NeedMore => r.outcome == End && Rest(r.state) == input
    case InRow => r.outcome == Error(Truncated) && Rest(r.state) == input
    case BadLiteral => r.outcome == Error(Failure.Malformed) && Rest(r.state) == input
    case NotARow(_) => r.outcome == Error(Unexpected) && Rest(r.state) == input
  }

  lemma {:induction false} StepIsFirst(g: Grammar, max: nat, st: State)
    ensures var r := Step(g, max, st);
            if Cut(r.outcome, r.state) then Rest(r.state) == Rest(st) else FirstOf(g, Rest(st), r)
    decreases if st.eof then 0 else 1, |st.src|
  {
    hide FindRow, Lone;
    var next := FindRow(st.pending, 0);
    var r := Step(g, max, st);
    if next.NeedMore? || next.InRow? {
      if st.eof {
        assert st.pending + [] == st.pending;
      } else if |st.pending| < max && Pull(st).Some? {
        PullKeeps(st);
        StepIsFirst(g, max, Pull(st).value);
      }
    } else if next.NotARow? {
      if !Lone(st.pending, next.at) {
        Settled(st);
      }
    } else {
      Settled(st);
      if next.Found? {
        TakeRow(st, next.start, next.end);
      }
    }
  }

  lemma Settled(st: State)
    requires !RowScanner.Open(st.pending, FindRow(st.pending, 0))
    ensures FindRow(Rest(st), 0) == FindRow(st.pending, 0)
  {
    FindRowStable(st.pending, Rest(st), 0);
  }

  lemma TakeRow(st: State, a: nat, b: nat)
    requires a <= b < |st.pending|
    ensures Rest(st)[a..b + 1] == st.pending[a..b + 1]
    ensures Rest(st.(pending := st.pending[b + 1..])) == Rest(st)[b + 1..]
  {}

  // Whole runs.

  /** Unless it was cut short, the reader yields the rows of the whole input, and
      ends as it does; cut short, it has yielded the first of them. */
  lemma {:induction false} StreamRefines(g: Grammar, max: nat, st: State)
    ensures var run := ReadAll(g, max, st);
            var whole := Rows(g, Rest(st));
            && run.rows <= whole.0
            && (!Cut(run.last, run.state) ==> run.rows == whole.0 && run.last == whole.1)
    decreases |Rest(st)|
  {
    hide FindRow, Cut, Step;
    StepIsFirst(g, max, st);
    var r := Step(g, max, st);
    if r.outcome.Row? {
      RowNotCut(r.outcome, r.state);
      StreamRefines(g, max, r.state);
    }
  }

  lemma RowNotCut(outcome: Outcome, st: State)
    requires outcome.Row?
    ensures !Cut(outcome, st)
  {}

  /** Two readers of the same bytes, however these arrive and whatever the buffers,
      yield the same rows and end the same way, unless one is cut short. */
  lemma ChunkingIrrelevant(g: Grammar, max: nat, max': nat, st: State, st': State)
    requires Rest(st) == Rest(st')
    ensures var a, b := ReadAll(g, max, st), ReadAll(g, max', st');
            && (a.rows <= b.rows || b.rows <= a.rows)
            && (!Cut(a.last, a.state) ==> b.rows <= a.rows)
            && (!Cut(a.last, a.state) && !Cut(b.last, b.state) ==> a.rows == b.rows && a.last == b.last)
  {
    StreamRefines(g, max, st);
    StreamRefines(g, max', st');
  }

  // When a reader is cut short.

  predicate Quiet(b: seq<Byte>) {
    b == [] || (b[|b| - 1] != SLASH && b[|b| - 1] != LETTER_B)
  }

  /** No read ends in a byte that may open a literal, and none fails. */
  predicate QuietSource(src: seq<Chunk>) {
    src != [] ==> match src[0]
                  case Data(b) => b == [] || (Quiet(b) && QuietSource(src[1..]))
                  case Interrupted => QuietSource(src[1..])
                  case Failed => false
  }

  predicate QuietState(st: State) {
    Quiet(st.pending) && (st.eof || QuietSource(st.src))
  }

  lemma {:induction false} PullQuiet(st: State)
    requires QuietState(st)
    ensures Pull(st).Some? && QuietState(Pull(st).value)
    decreases |st.src|
  {
    if !st.eof && st.src != [] && st.src[0].Interrupted? {
      PullQuiet(st.(src := st.src[1..]));
    }
  }

  /** What comes next, row after row, shows in the first max bytes. */
  ghost predicate Spaced(g: Grammar, max: nat, input: seq<Byte>)
    decreases |input|
  {
    |input| < max
    || (&& 0 < max
        && !RowScanner.Open(input[..max], FindRow(input[..max], 0))
        && match FindRow(input, 0)
           case Found(a, b) => Spaced(g, max, input[b + 1..])
           case _ => true)
  }

  lemma {:induction false} StepQuiet(g: Grammar, max: nat, st: State)
    requires QuietState(st) && Spaced(g, max, Rest(st))
    ensures var r := Step(g, max, st);
            !Cut(r.outcome, r.state) && QuietState(r.state)
    decreases if st.eof then 0 else 1, |st.src|
  {
    hide FindRow;
    var next := FindRow(st.pending, 0);
    if (next.NeedMore? || next.InRow?) && !st.eof {
      ShowsInTime(g, max, st);
      PullQuiet(st);
      PullKeeps(st);
      StepQuiet(g, max, Pull(st).value);
    }
  }

  lemma ShowsInTime(g: Grammar, max: nat, st: State)
    requires Spaced(g, max, Rest(st)) && RowScanner.Open(st.pending, FindRow(st.pending, 0))
    ensures |st.pending| < max
  {
    hide FindRow;
    if |st.pending| >= max {
      assert Rest(st)[..max] == st.pending[..max];
      FindRowStable(st.pending[..max], st.pending, 0);
    }
  }

  /** A source that never fails, whose reads end in no byte that may open a literal,
      and whose rows show within the buffer, is never cut short: the rows are those
      of its bytes. */
  lemma {:induction false} QuietRun(g: Grammar, max: nat, st: State)
    requires QuietState(st) && Spaced(g, max, Rest(st))
    ensures var run := ReadAll(g, max, st);
            (run.rows, run.last) == Rows(g, Rest(st))
    decreases |Rest(st)|
  {
    hide FindRow, Cut, Step, QuietState;
    StepQuiet(g, max, st);
    StepIsFirst(g, max, st);
    var r := Step(g, max, st);
    if r.outcome.Row? {
      QuietRun(g, max, r.state);
    }
  }

  // The header, and the memory held.

  /** The header read is the header of the whole input. */
  lemma {:induction false} OpenIsHeader(g: Grammar, st: State)
    ensures var r := Open(g, st);
            && (r.outcome == End ==>
                  && HeaderEnd(Rest(st)).Stop?
                  && g.header(Rest(st)[..HeaderEnd(Rest(st)).at + 1])
                  && Rest(r.state) == Rest(st)[HeaderEnd(Rest(st)).at + 1..])
            && (r.outcome == Error(BadHeader) ==>
                  HeaderEnd(Rest(st)).Stop? && !g.header(Rest(st)[..HeaderEnd(Rest(st)).at + 1]))
            && (r.outcome == Error(Failure.Malformed) ==> HeaderEnd(Rest(st)).Bad?)
            && (r.outcome == Error(NoDirective) ==> HeaderEnd(Rest(st)).More?)
            && r.outcome in {End, Error(BadHeader), Error(Failure.Malformed), Error(NoDirective), Error(TooLong), Error(ReadFailed)}
    decreases if st.eof then 0 else 1, |st.src|
  {
    hide HeaderEnd;
    match HeaderEnd(st.pending)
    case More =>
      if st.eof {
        assert st.pending + [] == st.pending;
      } else if |st.pending| < HEADER_MAX && Pull(st).Some? {
        PullKeeps(st);
        OpenIsHeader(g, Pull(st).value);
      }
    case Bad => HeaderStable(st.pending, Rest(st));
    case Stop(end) =>
      HeaderStable(st.pending, Rest(st));
      assert Rest(st)[..end + 1] == st.pending[..end + 1];
      assert Rest(st.(pending := st.pending[end + 1..])) == Rest(st)[end + 1..];
  }

  /** No read gives more than size bytes. */
  predicate ReadsWithin(src: seq<Chunk>, size: nat) {
    forall i :: 0 <= i < |src| && src[i].Data? ==> |src[i].bytes| <= size
  }

  predicate Bounded(st: State, bound: nat, size: nat) {
    |st.pending| <= bound && ReadsWithin(st.src, size)
  }

  lemma {:induction false} PullBounded(st: State, max: nat, size: nat)
    requires |st.pending| < max && ReadsWithin(st.src, size) && Pull(st).Some?
    ensures Bounded(Pull(st).value, max + size, size)
    decreases |st.src|
  {
    if !st.eof && st.src != [] {
      assert ReadsWithin(st.src[1..], size) by {
        assert forall i :: 0 <= i < |st.src[1..]| ==> st.src[1..][i] == st.src[i + 1];
      }
      if st.src[0].Interrupted? {
        PullBounded(st.(src := st.src[1..]), max, size);
      }
    }
  }

  /** However long a stream goes on without ending a row, the reader holds less than
      the limit and one more read. */
  lemma {:induction false} StepBounded(g: Grammar, max: nat, st: State, size: nat)
    requires Bounded(st, max + size, size)
    ensures Bounded(Step(g, max, st).state, max + size, size)
    decreases if st.eof then 0 else 1, |st.src|
  {
    hide FindRow, ReadsWithin;
    var next := FindRow(st.pending, 0);
    if (next.NeedMore? || next.InRow?) && !st.eof && |st.pending| < max && Pull(st).Some? {
      PullBounded(st, max, size);
      StepBounded(g, max, Pull(st).value, size);
    }
  }

  // A comment cut in two.

  /** `( )` and the first byte of a comment; the rest of the comment and `( )`. */
  const FIRST_READ: seq<Byte> := [OPEN, CLOSE, SLASH]
  const SECOND_READ: seq<Byte> := [SLASH, NEWLINE, OPEN, CLOSE]
  const ONE_ROW: seq<Byte> := [OPEN, CLOSE]

  lemma RowFirst(s: seq<Byte>)
    requires |s| >= 2 && s[0] == OPEN && s[1] == CLOSE
    ensures FindRow(s, 0) == Found(0, 1) && s[0..2] == ONE_ROW
  {
    assert SkipAt(s, 0) == Past(0) && SkipAt(s, 1) == Past(1);
    assert Matching(s, 1, 1) == Stop(1);
  }

  lemma CommentThenRow(s: seq<Byte>)
    requires s == [SLASH, SLASH, NEWLINE, OPEN, CLOSE]
    ensures FindRow(s, 0) == Found(3, 4) && s[3..5] == ONE_ROW && s[5..] == []
  {
    assert LineEnd(s, 2) == 2;
    assert SkipAt(s, 0) == Past(2);
    assert SkipAt(s, 3) == Past(3) && SkipAt(s, 4) == Past(4);
    assert Matching(s, 4, 1) == Stop(4);
    assert FindRow(s, 3) == Found(3, 4);
    assert FindRow(s, 2) == Found(3, 4);
  }

  /** A row, a comment and another row are two rows. In two reads that part the
      comment's two slashes, they are one row and an error. */
  lemma CommentCutInTwo(g: Grammar, max: nat)
    requires g.row(ONE_ROW) && max > 0
    ensures Rows(g, FIRST_READ + SECOND_READ) == ([ONE_ROW, ONE_ROW], End)
    ensures var run := ReadAll(g, max, State([], [Data(FIRST_READ), Data(SECOND_READ)], false));
            run.rows == [ONE_ROW] && run.last == Error(Unexpected)
  {
    var input := FIRST_READ + SECOND_READ;
    RowFirst(input);
    RowFirst(FIRST_READ);
    CommentThenRow(input[2..]);
    assert FIRST_READ[2..] == [SLASH] && SkipAt([SLASH], 0) == Past(0);
    assert FindRow([SLASH], 0) == NotARow(0) && FindRow([], 0) == NeedMore;
    hide FindRow;
    assert Rows(g, []) == ([], End);
    assert [ONE_ROW] + [] == [ONE_ROW] && [ONE_ROW] + [ONE_ROW] == [ONE_ROW, ONE_ROW];
    assert Rows(g, input[2..]) == ([ONE_ROW], End);
    assert Rows(g, input) == ([ONE_ROW] + [ONE_ROW], End);
    var second := State(FIRST_READ, [Data(SECOND_READ)], false);
    assert [Data(FIRST_READ), Data(SECOND_READ)][1..] == [Data(SECOND_READ)] && [] + FIRST_READ == FIRST_READ;
    assert Step(g, max, State([], [Data(FIRST_READ), Data(SECOND_READ)], false)) == Step(g, max, second);
    assert Step(g, max, second) == Report(Row(ONE_ROW), second.(pending := [SLASH]));
  }
}
