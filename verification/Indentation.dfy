/** The lines of formatted text: each is indented by as many units as blocks and lists
    are open before it. */
module Indentation {
  import opened Lexing
  import opened Decimals
  import opened LexFacts
  import opened Base64
  import opened Syntax
  import opened NumberSpelling
  import opened TimeTokens
  import opened LexedText
  import opened TextForms
  import TokenSpelling
  import DurationSpelling
  import Durations
  import KeyedForm
  import StringSpelling

  // Lines.

  /** A line: how deep it stands, its text, and whether it ends in an opening mark or
      starts with a closing one. */
  datatype Line = Line(depth: nat, text: string, opens: bool, closes: bool)

  predicate OneLine(s: string) {
    '\n' !in s
  }

  predicate Marked(l: Line) {
    && OneLine(l.text)
    && (l.opens ==> l.text != "" && l.text[|l.text| - 1] in {'{', '['})
    && (l.closes ==> l.text != "" && l.text[0] in {'}', ']'})
  }

  function Units(unit: string, n: nat): string {
    if n == 0 then "" else unit + Units(unit, n - 1)
  }

  function LineText(unit: string, l: Line): string {
    Units(unit, l.depth) + (l.text + "\n")
  }

  function LinesText(unit: string, ls: seq<Line>): string {
    if ls == [] then "" else LineText(unit, ls[0]) + LinesText(unit, ls[1..])
  }

  /** Before the lines depth blocks and lists are open, and after them as many again. */
  predicate Indented(ls: seq<Line>, depth: nat, after: nat) {
    if ls == [] then depth == after
    else
      var l := ls[0];
      && Marked(l) && (l.closes ==> depth > 0) && l.depth == (if l.closes then depth - 1 else depth)
      && Indented(ls[1..], if l.opens then l.depth + 1 else l.depth, after)
  }

  // Lines after lines.

  lemma {:induction false} IndentUnits(unit: string, level: nat, tail: string)
    ensures Indent(unit, level, tail) == Units(unit, level) + tail
    decreases level
  {
    if level > 0 {
      IndentUnits(unit, level - 1, tail);
    }
  }

  lemma {:induction false} Then(unit: string, a: seq<Line>, b: seq<Line>, depth: nat, middle: nat, after: nat)
    requires Indented(a, depth, middle) && Indented(b, middle, after)
    ensures Indented(a + b, depth, after) && LinesText(unit, a + b) == LinesText(unit, a) + LinesText(unit, b)
    decreases |a|
  {
    if a == [] {
      assert a + b == b;
    } else {
      hide Marked, LineText;
      var l := a[0];
      assert (a + b)[0] == l && (a + b)[1..] == a[1..] + b;
      Then(unit, a[1..], b, if l.opens then l.depth + 1 else l.depth, middle, after);
    }
  }

  lemma {:induction false} Single(unit: string, l: Line, depth: nat)
    requires Marked(l) && (l.closes ==> depth > 0) && l.depth == (if l.closes then depth - 1 else depth)
    ensures Indented([l], depth, if l.opens then l.depth + 1 else l.depth)
    ensures LinesText(unit, [l]) == LineText(unit, l)
  {
    hide Marked, LineText;
    assert [l][1..] == [];
    assert LineText(unit, l) + "" == LineText(unit, l);
  }

  // Literals hold no line end.

  lemma {:induction false} OneLineJoin(a: string, b: string)
    ensures OneLine(a + b) <==> OneLine(a) && OneLine(b)
  {}

  lemma {:induction false} DigitsOneLine(s: string)
    requires AllDigits(s)
    ensures OneLine(s)
  {}

  lemma {:induction false} NumeralOneLine(n: Numeral)
    requires Formed(n)
    ensures OneLine(Raw(n)) && OneLine(n.suffix)
  {
    var w, f, p, x := n.whole, n.fraction, n.point, n.exponent;
    hide OneLine;
    if w[0] == '-' {
      HeadedDigits(w);
    } else {
      DigitsOneLine(w);
    }
    HeadedDigits(f);
    HeadedDigits(p);
    HeadedDigits(n.suffix);
    ExponentOneLine(x);
    hide Formed, AllDigits;
    OneLineJoin(p, x);
    OneLineJoin(f, p + x);
    OneLineJoin(w, f + (p + x));
  }

  lemma {:induction false} HeadedDigits(s: string)
    requires s != "" ==> s[0] != '\n' && AllDigits(s[1..])
    ensures OneLine(s)
  {
    Headed(s);
  }

  lemma {:induction false} ExponentOneLine(x: string)
    requires x != "" ==> x[0] in {'e', 'E'} && AllDigits(x[if Signed(x) then 2 else 1..])
    ensures OneLine(x)
  {
    if x != "" && Signed(x) {
      assert x == [x[0], x[1]] + x[2..];
      OneLineJoin([x[0], x[1]], x[2..]);
    } else {
      Headed(x);
    }
  }

  lemma {:induction false} Headed(s: string)
    ensures s != "" ==> (OneLine(s) <==> s[0] != '\n' && OneLine(s[1..]))
    ensures s == "" ==> OneLine(s)
  {
    if s != "" {
      assert s == [s[0]] + s[1..];
    }
  }

  lemma {:induction false} PartsOneLine(ps: seq<DurationSpelling.Part>)
    requires DurationSpelling.AllProper(ps)
    ensures OneLine(DurationSpelling.Text(ps))
    decreases |ps|
  {
    if ps != [] {
      DurationSpelling.FirstOf(ps);
      PartJoined(ps[0]);
      var p, name := ps[0], DurationSpelling.NameOf(ps[0].unit);
      assert OneLine(name);
      Headed(PointText(p));
      PartsOneLine(ps[1..]);
      OneLineJoin(p.whole, PointText(p));
      OneLineJoin(p.whole + PointText(p), name);
      OneLineJoin(DurationSpelling.PartText(p), DurationSpelling.Text(ps[1..]));
    }
  }

  lemma {:induction false} DurationOneLine(s: string)
    requires Durations.Valid(s)
    ensures OneLine(s)
  {
    DurationSpelling.OnlySpelled(s);
    hide Durations.Valid, DurationSpelling.Text, DurationSpelling.AllProper;
    var sign: DurationSpelling.Sign, ps :|
      DurationSpelling.AllProper(ps) && ps != [] && s == DurationSpelling.SignText(sign) + DurationSpelling.Text(ps);
    PartsOneLine(ps);
    OneLineJoin(DurationSpelling.SignText(sign), DurationSpelling.Text(ps));
  }

  /** A token with a text of its own, as the lexer makes them. */
  lemma {:induction false} TokenOneLine(c: Config, t: Token)
    requires Produced(c, t) && t.kind in {Int, Float, Ident, Bool, Null, TimestampLit, DurationLit}
    ensures OneLine(t.value) && OneLine(t.prec)
  {
    var s :| s != "" && LexAt(c, s).token == t;
    var text := LexemeTakes(c, s);
    var rest := LexAt(c, s).rest;
    hide LexAt;
    LexemeOneLine(c, text, t, rest);
  }

  lemma {:induction false} LexemeOneLine(c: Config, text: string, t: Token, rest: string)
    requires AnyLexeme(c, text, t, rest) && t.kind in {Int, Float, Ident, Bool, Null, TimestampLit, DurationLit}
    ensures OneLine(t.value) && OneLine(t.prec)
  {
    if t == Plain(Float, text) && Infinite(text, rest) {
    } else if t == Plain(DurationLit, text) && DurationLexeme(text, rest) {
      DurationOneLine(text);
    } else if t == Plain(TimestampLit, text) && TimestampLexeme(text, rest) {
      DatePlain(text);
    } else if NumberKind(t.kind) {
      var n :| Formed(n) && Stands(n, rest) && text == Text(n) && t == NumeralToken(n);
      NumeralOneLine(n);
      Headed(n.suffix);
    } else {
      assert TokenSpelling.Word(text, rest);
    }
    hide Durations.Valid, Formed, Stands;
  }

  lemma {:induction false} QuotedOneLine(s: string)
    ensures OneLine(QuoteString(s))
  {
    QuotedExactly(s);
    PiecesOneLine(s);
    var body := StringSpelling.Texts(PiecesFor(s));
    OneLineJoin("\"", body);
    OneLineJoin("\"" + body, "\"");
  }

  lemma {:induction false} PiecesOneLine(s: string)
    ensures OneLine(StringSpelling.Texts(PiecesFor(s)))
    decreases |s|
  {
    if s != "" {
      PiecesOneLine(s[1..]);
      var ps := PiecesFor(s);
      assert ps[1..] == PiecesFor(s[1..]);
      assert OneLine(StringSpelling.Text(PieceFor(s[0])));
      OneLineJoin(StringSpelling.Text(ps[0]), StringSpelling.Texts(ps[1..]));
    }
  }

  lemma {:induction false} BytesOneLine(b: string)
    requires AllOctets(b)
    ensures OneLine(BytesText(b))
  {
    EncodeOneLine(b);
    assert BytesText(b) == "b\"" + Encode(b) + "\"";
    OneLineJoin("b\"", Encode(b));
    OneLineJoin("b\"" + Encode(b), "\"");
  }

  lemma {:induction false} EncodeOneLine(b: string)
    requires AllOctets(b)
    ensures OneLine(Encode(b))
    decreases |b|
  {
    if |b| >= 3 {
      EncodeOneLine(b[3..]);
      var n := Packed(b[0] as int, b[1] as int, b[2] as int);
      assert Encode(b) == [DigitOf(n, 0), DigitOf(n, 1)] + ([DigitOf(n, 2)] + ([DigitOf(n, 3)] + Encode(b[3..])));
    }
    hide Sextet;
  }

  // Values and entries.

  lemma {:induction false} NameOneLine(c: Config, name: string, quoted: bool)
    requires ProperName(c, name, quoted)
    ensures OneLine(NameText(name, quoted, ""))
  {
    if quoted {
      QuotedOneLine(name);
      OneLineJoin(QuoteString(name), "");
    } else {
      TokenOneLine(c, NameToken(name, false));
      OneLineJoin(name, "");
    }
    hide QuoteString;
  }

  lemma {:induction false} SafeOneLine(name: string)
    requires KeyedForm.IdentSafe(name)
    ensures OneLine(name)
  {}

  predicate IsLeaf(v: Value) {
    !v.ListVal? && !v.BlockVal?
  }

  lemma {:induction false} LeafOneLine(c: Config, unit: string, v: Value, level: nat, room: nat)
    requires IsLeaf(v) && Proper(c, v, room)
    ensures OneLine(ValueText(unit, v, level, ""))
  {
    hide QuoteString, BytesText, Produced;
    if v.StringVal? {
      QuotedOneLine(v.value);
      OneLineJoin(QuoteString(v.value), "");
    } else if v.BytesVal? {
      BytesOneLine(v.bytes);
      OneLineJoin(BytesText(v.bytes), "");
    } else if !v.BoolVal? && !v.NullVal? {
      var t := ValueToken(v);
      TokenOneLine(c, t);
      OneLineJoin(t.value, if t.prec == "" then "" else "p" + t.prec);
      Headed("p" + t.prec);
      OneLineJoin(NumberText(t), "");
    }
  }

  lemma {:induction false} LeafTail(unit: string, v: Value, level: nat, tail: string)
    requires IsLeaf(v)
    ensures ValueText(unit, v, level, tail) == ValueText(unit, v, level, "") + tail
  {}

  /** A text before a value and one after it on its last line. */
  lemma {:induction false} ValueLines(c: Config, unit: string, v: Value, level: nat, room: nat, before: string, after: string, tail: string)
    returns (ls: seq<Line>)
    requires Proper(c, v, room) && OneLine(before) && OneLine(after)
    ensures Indented(ls, level, level)
    ensures Units(unit, level) + (before + ValueText(unit, v, level, after + ("\n" + tail))) == LinesText(unit, ls) + tail
    decreases v, 0
  {
    match v
    case ListVal(vs) =>
      ls := BracketLines(c, unit, vs, level, room - 1, before, after, tail);
      hide LinesText, Units, Indented, OneLine, ElementsText, Proper;
    case BlockVal(es) =>
      ls := BracesLines(c, unit, es, level, room - 1, before, after, tail);
      hide LinesText, Units, Indented, OneLine, EntriesText, Proper, ProperBody;
    case _ =>
      LeafOneLine(c, unit, v, level, room);
      LeafTail(unit, v, level, after + ("\n" + tail));
      ls := LeafLine(unit, level, before, ValueText(unit, v, level, ""), after, tail);
      hide LinesText, Units, Indented, OneLine, ValueText, Proper;
  }

  lemma {:induction false} BracketLines(c: Config, unit: string, vs: seq<Value>, level: nat, room: nat, before: string, after: string, tail: string)
    returns (ls: seq<Line>)
    requires (forall i :: 0 <= i < |vs| ==> Proper(c, vs[i], room)) && OneLine(before) && OneLine(after)
    ensures Indented(ls, level, level)
    ensures Units(unit, level)
            + (before + ("[" + ("\n" + ElementsText(unit, vs, level + 1, Indent(unit, level, "]" + (after + ("\n" + tail)))))))
         == LinesText(unit, ls) + tail
    decreases vs, 2
  {
    var close := "]" + (after + ("\n" + tail));
    var inner := ElementsLines(c, unit, vs, level + 1, room, Indent(unit, level, close));
    OneLineJoin(before, "[");
    OneLineJoin("]", after);
    hide LineText, LinesText, Units, Marked, Indented, OneLine, ElementsText, Proper;
    ls := Enclosed(unit, level, before + "[", inner, "]" + after, tail);
    EnclosedText(unit, level, before, "[", LinesText(unit, inner), "]", after, tail);
  }

  lemma {:induction false} LeafLine(unit: string, level: nat, before: string, leaf: string, after: string, tail: string)
    returns (ls: seq<Line>)
    requires OneLine(before) && OneLine(leaf) && OneLine(after)
    ensures Indented(ls, level, level)
    ensures Units(unit, level) + (before + (leaf + (after + ("\n" + tail)))) == LinesText(unit, ls) + tail
  {
    OneLineJoin(before, leaf);
    OneLineJoin(before + leaf, after);
    var text := before + leaf + after;
    hide OneLine, Indented;
    var l := Line(level, text, false, false);
    Single(unit, l, level);
    ls := [l];
    hide LinesText;
    assert before + (leaf + (after + ("\n" + tail))) == text + ("\n" + tail);
    assert text + ("\n" + tail) == (text + "\n") + tail;
    assert Units(unit, level) + ((text + "\n") + tail) == (Units(unit, level) + (text + "\n")) + tail;
  }

  /** Lines inside an opening line and a closing one. */
  lemma {:induction false} Enclosed(unit: string, level: nat, open: string, inner: seq<Line>, close: string, tail: string)
    returns (ls: seq<Line>)
    requires OneLine(open) && open != "" && open[|open| - 1] in {'{', '['}
    requires OneLine(close) && close != "" && close[0] in {'}', ']'} && Indented(inner, level + 1, level + 1)
    ensures Indented(ls, level, level)
    ensures LinesText(unit, ls)
         == Units(unit, level) + (open + "\n") + LinesText(unit, inner) + (Units(unit, level) + (close + "\n"))
  {
    var first, last := Line(level, open, true, false), Line(level, close, false, true);
    Single(unit, first, level);
    Single(unit, last, level + 1);
    hide LinesText, Indented;
    Then(unit, [first], inner, level, level + 1, level + 1);
    Then(unit, [first] + inner, [last], level, level + 1, level);
    ls := [first] + inner + [last];
  }

  /** The text of enclosed lines, as the formatter nests it. */
  lemma {:induction false} EnclosedText(unit: string, level: nat, before: string, open: string, inner: string, close: string, after: string, tail: string)
    ensures Units(unit, level) + (before + (open + ("\n" + (inner + Indent(unit, level, close + (after + ("\n" + tail)))))))
         == Units(unit, level) + ((before + open) + "\n") + inner + (Units(unit, level) + ((close + after) + "\n")) + tail
  {
    IndentUnits(unit, level, close + (after + ("\n" + tail)));
    hide Indent, Units;
    var u := Units(unit, level);
    var last := u + ((close + after) + "\n");
    assert u + (close + (after + ("\n" + tail))) == last + tail;
    assert u + (before + (open + ("\n" + (inner + (last + tail))))) == u + ((before + open) + "\n") + inner + last + tail;
  }

  lemma {:induction false} BracesLines(c: Config, unit: string, es: seq<Entry>, level: nat, room: nat, before: string, after: string, tail: string)
    returns (ls: seq<Line>)
    requires ProperBody(c, es, room) && OneLine(before) && OneLine(after)
    ensures Indented(ls, level, level)
    ensures Units(unit, level)
            + (before + ("{" + ("\n" + EntriesText(unit, es, level + 1, Indent(unit, level, "}" + (after + ("\n" + tail)))))))
         == LinesText(unit, ls) + tail
    decreases es, 2
  {
    var close := "}" + (after + ("\n" + tail));
    var inner := EntriesLines(c, unit, es, level + 1, room, Indent(unit, level, close));
    OneLineJoin(before, "{");
    OneLineJoin("}", after);
    hide LineText, LinesText, Units, Marked, Indented, OneLine, EntriesText, ProperBody;
    ls := Enclosed(unit, level, before + "{", inner, "}" + after, tail);
    EnclosedText(unit, level, before, "{", LinesText(unit, inner), "}", after, tail);
  }

  lemma {:induction false} ElementsLines(c: Config, unit: string, vs: seq<Value>, level: nat, room: nat, tail: string) returns (ls: seq<Line>)
    requires forall i :: 0 <= i < |vs| ==> Proper(c, vs[i], room)
    ensures Indented(ls, level, level) && ElementsText(unit, vs, level, tail) == LinesText(unit, ls) + tail
    decreases vs, 1
  {
    if vs == [] {
      ls := [];
    } else {
      var after, rest := if |vs| > 1 then "," else "", ElementsText(unit, vs[1..], level, tail);
      var first := ValueLines(c, unit, vs[0], level, room, "", after, rest);
      var more := ElementsLines(c, unit, vs[1..], level, room, tail);
      IndentUnits(unit, level, ValueText(unit, vs[0], level, after + ("\n" + rest)));
      hide LineText, LinesText, Units, Marked, Indented, OneLine, ValueText, Indent, Proper;
      Then(unit, first, more, level, level, level);
      ls := first + more;
      assert "" + ValueText(unit, vs[0], level, after + ("\n" + rest)) == ValueText(unit, vs[0], level, after + ("\n" + rest));
      Joined(LinesText(unit, first), LinesText(unit, more), tail);
    }
  }

  lemma {:induction false} Joined(a: string, b: string, c: string)
    ensures (a + b) + c == a + (b + c)
  {}

  lemma {:induction false} EntriesLines(c: Config, unit: string, es: seq<Entry>, level: nat, room: nat, tail: string) returns (ls: seq<Line>)
    requires forall i :: 0 <= i < |es| ==> ProperEntry(c, es[i], room)
    ensures Indented(ls, level, level) && EntriesText(unit, es, level, tail) == LinesText(unit, ls) + tail
    decreases es, 1
  {
    if es == [] {
      ls := [];
    } else {
      var rest := EntriesText(unit, es[1..], level, tail);
      var first := EntryLines(c, unit, es[0], level, room, rest);
      var more := EntriesLines(c, unit, es[1..], level, room, tail);
      hide LineText, LinesText, Units, Marked, Indented, OneLine, EntryText, Indent, ProperEntry;
      Then(unit, first, more, level, level, level);
      ls := first + more;
      Joined(LinesText(unit, first), LinesText(unit, more), tail);
    }
  }

  lemma {:induction false} EntryLines(c: Config, unit: string, e: Entry, level: nat, room: nat, tail: string) returns (ls: seq<Line>)
    requires ProperEntry(c, e, room)
    ensures Indented(ls, level, level) && Indent(unit, level, EntryText(unit, e, level, tail)) == LinesText(unit, ls) + tail
    decreases e, 0
  {
    hide LinesText, Units, Indented, OneLine, Indent, QuoteString;
    IndentUnits(unit, level, EntryText(unit, e, level, tail));
    match e
    case Assignment(key, quoted, v) =>
      NameOneLine(c, key, quoted);
      ls := BoundLines(c, unit, key, quoted, " ", "=", v, level, room, tail);
      hide ValueText, NameText, Proper, ProperName;
    case MapEntry(key, quoted, v) =>
      KeyOneLine(c, key, quoted);
      ls := BoundLines(c, unit, key, KeepsQuotes(key, quoted), "", ":", v, level, room, tail);
      hide ValueText, NameText, Proper, ProperName, KeepsQuotes;
      assert "" + (":" + (" " + ValueText(unit, v, level, "\n" + tail))) == ":" + (" " + ValueText(unit, v, level, "\n" + tail));
    case Block(name, quoted, es) =>
      NameOneLine(c, name, quoted);
      ls := NestedLines(c, unit, name, quoted, es, level, room - 1, tail);
      hide EntriesText, NameText, ProperBody, ProperName;
    case TypeEntry(url) =>
      QuotedOneLine(url);
      ls := TypeLines(unit, QuoteString(url), level, tail);
  }

  lemma {:induction false} KeyOneLine(c: Config, key: string, quoted: bool)
    requires ProperName(c, key, quoted)
    ensures OneLine(NameText(key, KeepsQuotes(key, quoted), ""))
  {
    if quoted && !KeepsQuotes(key, quoted) {
      SafeOneLine(key);
      OneLineJoin(key, "");
    } else {
      NameOneLine(c, key, quoted);
    }
  }

  lemma {:induction false} BoundLines(c: Config, unit: string, key: string, quoted: bool, gap: string, mark: string, v: Value, level: nat,
                                      room: nat, tail: string) returns (ls: seq<Line>)
    requires OneLine(NameText(key, quoted, "")) && Proper(c, v, room) && (gap == "" || gap == " ") && (mark == "=" || mark == ":")
    ensures Indented(ls, level, level)
    ensures Units(unit, level) + NameText(key, quoted, gap + (mark + (" " + ValueText(unit, v, level, "\n" + tail))))
         == LinesText(unit, ls) + tail
    decreases v, 1
  {
    var name, sign := NameText(key, quoted, ""), gap + mark + " ";
    OneLineJoin(name, sign);
    assert OneLine("");
    ls := ValueLines(c, unit, v, level, room, name + sign, "", tail);
    hide *;
    NameTail(key, quoted, gap + (mark + (" " + ValueText(unit, v, level, "\n" + tail))));
    Bound(name, gap, mark, " ", ValueText(unit, v, level, "\n" + tail));
    assert "" + ("\n" + tail) == "\n" + tail;
  }

  lemma {:induction false} NestedLines(c: Config, unit: string, name: string, quoted: bool, es: seq<Entry>, level: nat, room: nat,
                                       tail: string) returns (ls: seq<Line>)
    requires OneLine(NameText(name, quoted, "")) && ProperBody(c, es, room)
    ensures Indented(ls, level, level)
    ensures Units(unit, level)
            + NameText(name, quoted, " " + ("{" + ("\n" + EntriesText(unit, es, level + 1, Indent(unit, level, "}" + ("\n" + tail))))))
         == LinesText(unit, ls) + tail
    decreases es, 3
  {
    var text := NameText(name, quoted, "");
    OneLineJoin(text, " ");
    assert OneLine("");
    ls := BracesLines(c, unit, es, level, room, text + " ", "", tail);
    hide *;
    assert "" + ("\n" + tail) == "\n" + tail;
    var inner := EntriesText(unit, es, level + 1, Indent(unit, level, "}" + ("\n" + tail)));
    NameTail(name, quoted, " " + ("{" + ("\n" + inner)));
    Joined(text, " ", "{" + ("\n" + inner));
  }

  lemma {:induction false} TypeLines(unit: string, url: string, level: nat, tail: string) returns (ls: seq<Line>)
    requires OneLine(url)
    ensures Indented(ls, level, level)
    ensures Units(unit, level) + ("@type" + (" " + ("=" + (" " + (url + ("\n" + tail)))))) == LinesText(unit, ls) + tail
  {
    assert OneLine("") && OneLine("@type = ");
    ls := LeafLine(unit, level, "@type = ", url, "", tail);
    hide *;
    assert "" + ("\n" + tail) == "\n" + tail;
    Bound("@type", " ", "=", " ", url + ("\n" + tail));
    assert "@type" + (" " + "=" + " ") == "@type = ";
  }

  lemma {:induction false} Bound(name: string, a: string, b: string, d: string, rest: string)
    ensures name + (a + (b + (d + rest))) == (name + (a + b + d)) + rest
  {}

  lemma {:induction false} NameTail(name: string, quoted: bool, tail: string)
    ensures NameText(name, quoted, tail) == NameText(name, quoted, "") + tail
  {
    hide QuoteString;
  }

  /** Every document the parser made is formatted in lines, each indented by as many
      units as blocks and lists are open before it. */
  lemma {:induction false} FormatLines(c: Config, unit: string, d: Document, maxDepth: nat) returns (ls: seq<Line>)
    requires ProperDocument(c, d, maxDepth)
    ensures Format(unit, d) == LinesText(unit, ls) && Indented(ls, 0, 0)
  {
    ls := EntriesLines(c, unit, d.entries, 0, maxDepth, "");
    var body := EntriesText(unit, d.entries, 0, "");
    assert LinesText(unit, ls) + "" == LinesText(unit, ls);
    if d.typeUrl != "" {
      TokenOneLine(c, Plain(Ident, d.typeUrl));
      OneLineJoin("@type ", d.typeUrl);
      var head, blank := Line(0, "@type " + d.typeUrl, false, false), Line(0, "", false, false);
      hide Indented, EntriesText;
      Single(unit, head, 0);
      Single(unit, blank, 0);
      hide LinesText;
      Then(unit, [head], [blank], 0, 0, 0);
      Then(unit, [head] + [blank], ls, 0, 0, 0);
      var rest := LinesText(unit, ls);
      ls := [head] + [blank] + ls;
      HeadText(unit, d.typeUrl, rest);
    }
  }

  lemma {:induction false} HeadText(unit: string, url: string, body: string)
    ensures "@type" + (" " + (url + ("\n" + ("\n" + body))))
         == LineText(unit, Line(0, "@type " + url, false, false)) + LineText(unit, Line(0, "", false, false)) + body
  {
    assert Units(unit, 0) == "";
    assert LineText(unit, Line(0, "", false, false)) == "\n";
    assert LineText(unit, Line(0, "@type " + url, false, false)) == "@type " + url + "\n";
  }

  /** The lines of each kind of entry, blocks and lists empty or of one line each. */
  lemma {:induction false} EntryForms(unit: string, key: string, raw: string, raw': string, url: string, tail: string)
    ensures var one, two := IntVal(raw, ""), IntVal(raw', "");
            && EntryText(unit, Assignment(key, false, one), 1, tail) == (key + " = " + raw + "\n") + tail
            && EntryText(unit, MapEntry(key, false, one), 1, tail) == (key + ": " + raw + "\n") + tail
            && EntryText(unit, Block(key, false, []), 1, tail) == (key + " {\n" + unit + "}\n") + tail
            && EntryText(unit, TypeEntry(url), 1, tail) == ("@type = " + QuoteString(url) + "\n") + tail
            && ValueText(unit, ListVal([one, two]), 0, tail) == ("[\n" + unit + raw + ",\n" + unit + raw' + "\n]") + tail
            && ValueText(unit, BlockVal([TypeEntry(url)]), 0, tail) == ("{\n" + unit + "@type = " + QuoteString(url) + "\n}") + tail
  {
    hide QuoteString;
    IndentUnits(unit, 0, "]" + tail);
    IndentUnits(unit, 0, "}" + tail);
    OneUnit(unit, "}" + ("\n" + tail));
    var one, two := IntVal(raw, ""), IntVal(raw', "");
    ListForm(unit, raw, raw', tail);
    BlockForm(unit, url, tail);
    assert raw + "" == raw;
    assert EntryText(unit, Assignment(key, false, one), 1, tail) == key + (" " + ("=" + (" " + (raw + ("\n" + tail)))));
    assert EntryText(unit, MapEntry(key, false, one), 1, tail) == key + (":" + (" " + (raw + ("\n" + tail))));
    assert EntryText(unit, Block(key, false, []), 1, tail) == key + (" " + ("{" + ("\n" + Indent(unit, 1, "}" + ("\n" + tail)))));
  }

  lemma {:induction false} OneUnit(unit: string, tail: string)
    ensures Indent(unit, 1, tail) == unit + tail
  {
    assert Indent(unit, 0, tail) == tail;
  }

  lemma {:induction false} ListForm(unit: string, raw: string, raw': string, tail: string)
    ensures ValueText(unit, ListVal([IntVal(raw, ""), IntVal(raw', "")]), 0, tail)
         == ("[\n" + unit + raw + ",\n" + unit + raw' + "\n]") + tail
  {
    var one, two := IntVal(raw, ""), IntVal(raw', "");
    var close := Indent(unit, 0, "]" + tail);
    assert close == "]" + tail;
    assert [one, two][1..] == [two] && [two][1..] == [];
    assert raw + "" == raw && raw' + "" == raw';
    var end, last := "\n" + close, ElementsText(unit, [two], 1, close);
    IntText(unit, raw', 1, end);
    assert "" + end == end && ElementsText(unit, [two][1..], 1, close) == close;
    assert last == Indent(unit, 1, raw' + end);
    OneUnit(unit, raw' + end);
    var more := "," + ("\n" + last);
    IntText(unit, raw, 1, more);
    assert ElementsText(unit, [one, two], 1, close) == Indent(unit, 1, raw + more);
    OneUnit(unit, raw + more);
  }

  lemma {:induction false} IntText(unit: string, raw: string, level: nat, tail: string)
    ensures ValueText(unit, IntVal(raw, ""), level, tail) == raw + tail
  {
    assert raw + "" == raw;
  }

  lemma {:induction false} BlockForm(unit: string, url: string, tail: string)
    ensures ValueText(unit, BlockVal([TypeEntry(url)]), 0, tail) == ("{\n" + unit + "@type = " + QuoteString(url) + "\n}") + tail
  {
    hide QuoteString;
    var close := Indent(unit, 0, "}" + tail);
    assert close == "}" + tail;
    assert [TypeEntry(url)][1..] == [];
    var line := "@type" + (" " + ("=" + (" " + (QuoteString(url) + ("\n" + close)))));
    OneUnit(unit, line);
    assert EntriesText(unit, [TypeEntry(url)], 1, close) == unit + line;
  }
}
