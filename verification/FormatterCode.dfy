/** The formatter as it runs: output appended piece by piece. */
module FormatterCode {
  import opened Lexing
  import opened LexFacts
  import opened Base64
  import opened Syntax
  import KeyedForm

  // What follows a text is only put after it.

  lemma {:induction false} IndentThen(unit: string, level: nat, a: string, b: string)
    ensures Indent(unit, level, a + b) == Indent(unit, level, a) + b
    decreases level
  {
    if level > 0 {
      IndentThen(unit, level - 1, a, b);
    }
  }

  lemma {:induction false} ValueThen(unit: string, v: Value, level: nat, a: string, b: string)
    ensures ValueText(unit, v, level, a + b) == ValueText(unit, v, level, a) + b
    decreases v, 0
  {
    match v
    case ListVal(vs) =>
      assert "]" + (a + b) == ("]" + a) + b;
      IndentThen(unit, level, "]" + a, b);
      ElementsThen(unit, vs, level + 1, Indent(unit, level, "]" + a), b);
    case BlockVal(es) =>
      assert "}" + (a + b) == ("}" + a) + b;
      IndentThen(unit, level, "}" + a, b);
      EntriesThen(unit, es, level + 1, Indent(unit, level, "}" + a), b);
    case _ => LeafThen(unit, v, level, a, b);
  }

  lemma LeafThen(unit: string, v: Value, level: nat, a: string, b: string)
    requires !v.ListVal? && !v.BlockVal?
    ensures ValueText(unit, v, level, a + b) == ValueText(unit, v, level, a) + b
  {
    hide QuoteString, BytesSource, NumberText;
  }

  lemma {:induction false} ElementsThen(unit: string, vs: seq<Value>, level: nat, a: string, b: string)
    ensures ElementsText(unit, vs, level, a + b) == ElementsText(unit, vs, level, a) + b
    decreases vs, 1
  {
    hide ValueText;
    if vs != [] {
      var rest := ElementsText(unit, vs[1..], level, a);
      var comma := if |vs| > 1 then "," else "";
      var more := comma + ("\n" + rest);
      ElementsThen(unit, vs[1..], level, a, b);
      assert comma + ("\n" + (rest + b)) == more + b;
      ValueThen(unit, vs[0], level, more, b);
      IndentThen(unit, level, ValueText(unit, vs[0], level, more), b);
    }
  }

  lemma {:induction false} EntryThen(unit: string, e: Entry, level: nat, a: string, b: string)
    ensures EntryText(unit, e, level, a + b) == EntryText(unit, e, level, a) + b
    decreases e, 0
  {
    hide ValueText, QuoteString;
    assert "\n" + (a + b) == ("\n" + a) + b;
    match e
    case Assignment(key, quoted, v) => ValueThen(unit, v, level, "\n" + a, b);
    case MapEntry(key, quoted, v) => ValueThen(unit, v, level, "\n" + a, b);
    case Block(name, quoted, es) =>
      var close := "}" + ("\n" + a);
      assert "}" + ("\n" + (a + b)) == close + b;
      IndentThen(unit, level, close, b);
      EntriesThen(unit, es, level + 1, Indent(unit, level, close), b);
    case TypeEntry(url) =>
  }

  lemma {:induction false} EntriesThen(unit: string, es: seq<Entry>, level: nat, a: string, b: string)
    ensures EntriesText(unit, es, level, a + b) == EntriesText(unit, es, level, a) + b
    decreases es, 1
  {
    hide EntryText;
    if es != [] {
      var rest := EntriesText(unit, es[1..], level, a);
      EntriesThen(unit, es[1..], level, a, b);
      EntryThen(unit, es[0], level, rest, b);
      IndentThen(unit, level, EntryText(unit, es[0], level, rest), b);
    }
  }

  // The loops.

  /** quote_string and write_quoted_string, character by character. */
  method QuoteWith(s: string, quote: char -> string) returns (out: string)
    ensures out == "\"" + (Quoted(s, quote) + "\"")
  {
    out := "\"";
    var i := 0;
    assert s[0..] == s;
    while i < |s|
      invariant i <= |s| && out + Quoted(s[i..], quote) == "\"" + Quoted(s, quote)
    {
      assert s[i..][0] == s[i] && s[i..][1..] == s[i + 1..];
      assert out + (quote(s[i]) + Quoted(s[i + 1..], quote)) == (out + quote(s[i])) + Quoted(s[i + 1..], quote);
      out := out + quote(s[i]);
      i := i + 1;
    }
    assert out + "" == out;
    out := out + "\"";
  }

  /** encode_base64: three bytes at a time, then what is left. */
  method EncodeBase64(b: string) returns (out: string)
    requires AllOctets(b)
    ensures out == Encode(b)
  {
    hide DigitOf, Packed, Encode;
    out := "";
    var i := 0;
    assert b[0..] == b;
    while i + 3 <= |b|
      invariant i <= |b| && Encode(b) == out + Encode(b[i..])
    {
      var n := Packed(b[i] as int, b[i + 1] as int, b[i + 2] as int);
      var four := [DigitOf(n, 0), DigitOf(n, 1), DigitOf(n, 2), DigitOf(n, 3)];
      NextFour(b, i);
      assert out + (four + Encode(b[i + 3..])) == (out + four) + Encode(b[i + 3..]);
      out := out + four;
      i := i + 3;
    }
    LastFour(b, i);
    if |b| - i == 1 {
      var n := Packed(b[i] as int, 0, 0);
      out := out + ([DigitOf(n, 0), DigitOf(n, 1)] + "==");
    } else if |b| - i == 2 {
      var n := Packed(b[i] as int, b[i + 1] as int, 0);
      out := out + ([DigitOf(n, 0), DigitOf(n, 1)] + ([DigitOf(n, 2)] + "="));
    }
  }

  lemma NextFour(b: string, i: nat)
    requires AllOctets(b) && i + 3 <= |b|
    ensures var n := Packed(b[i] as int, b[i + 1] as int, b[i + 2] as int);
            Encode(b[i..]) == [DigitOf(n, 0), DigitOf(n, 1), DigitOf(n, 2), DigitOf(n, 3)] + Encode(b[i + 3..])
  {
    hide DigitOf, Packed;
    assert b[i..][3..] == b[i + 3..];
  }

  lemma LastFour(b: string, i: nat)
    requires AllOctets(b) && i <= |b| < i + 3
    ensures |b| == i ==> Encode(b[i..]) == ""
    ensures |b| == i + 1 ==> (var n := Packed(b[i] as int, 0, 0); Encode(b[i..]) == [DigitOf(n, 0), DigitOf(n, 1)] + "==")
    ensures |b| == i + 2 ==>
              (var n := Packed(b[i] as int, b[i + 1] as int, 0);
               Encode(b[i..]) == [DigitOf(n, 0), DigitOf(n, 1)] + ([DigitOf(n, 2)] + "="))
  {
    hide DigitOf, Packed;
  }

  class Formatter {
    const indent: string
    var out: string

    constructor (indent: string)
      ensures this.indent == indent && out == ""
    {
      this.indent := indent;
      out := "";
    }

    method Push(s: string)
      modifies this
      ensures out == old(out) + s
    {
      out := out + s;
    }

    method WriteIndent(level: nat)
      modifies this
      ensures out == old(out) + Indent(indent, level, "")
    {
      var i := 0;
      while i < level
        invariant i <= level && out + Indent(indent, level - i, "") == old(out) + Indent(indent, level, "")
      {
        assert out + (indent + Indent(indent, level - i - 1, "")) == (out + indent) + Indent(indent, level - i - 1, "");
        out := out + indent;
        i := i + 1;
      }
      assert out + "" == out;
    }

    method WriteName(name: string, quoted: bool)
      modifies this
      ensures out == old(out) + NameText(name, quoted, "")
    {
      if quoted {
        var q := QuoteWith(name, QuoteChar);
        out := out + q;
      } else {
        out := out + name;
      }
    }

    /** The literals of format_value. */
    method FormatLeaf(v: Value)
      requires !v.ListVal? && !v.BlockVal?
      modifies this
      ensures forall level :: out == old(out) + ValueText(indent, v, level, "")
    {
      hide Quoted, Encode;
      var text: string;
      match v {
        case StringVal(s) => text := QuoteWith(s, QuoteChar);
        case IntVal(raw, prec) => text := raw + if prec == "" then "" else "p" + prec;
        case FloatVal(raw, prec) => text := raw + if prec == "" then "" else "p" + prec;
        case BoolVal(b) => text := if b then "true" else "false";
        case BytesVal(b) =>
          if AllOctets(b) {
            var e := EncodeBase64(b);
            text := "b\"" + (e + "\"");
          } else {
            text := "";
          }
        case NullVal => text := "null";
        case IdentVal(name) => text := name;
        case TimestampVal(raw) => text := raw;
        case DurationVal(raw) => text := raw;
      }
      assert text + "" == text;
      out := out + text;
    }

    /** format_value */
    method FormatValue(v: Value, level: nat)
      modifies this
      ensures out == old(out) + ValueText(indent, v, level, "")
      decreases v, 0
    {
      hide ValueText, ElementsText, EntriesText;
      ghost var before := out;
      match v
      case ListVal(vs) =>
        Push("[\n");
        FormatElements(vs, level + 1);
        WriteIndent(level);
        Push("]");
        ClosedList(indent, vs, level);
        assert out == before + ("[\n" + ElementsText(indent, vs, level + 1, "") + Indent(indent, level, "") + "]");
      case BlockVal(es) =>
        Push("{\n");
        FormatEntries(es, level + 1);
        WriteIndent(level);
        Push("}");
        ClosedBlock(indent, es, level, "}");
        assert out == before + ("{\n" + EntriesText(indent, es, level + 1, "") + Indent(indent, level, "") + "}");
      case _ => FormatLeaf(v);
    }

    /** The loop over a list's elements. */
    method FormatElements(vs: seq<Value>, level: nat)
      modifies this
      ensures out == old(out) + ElementsText(indent, vs, level, "")
      decreases vs, 1
    {
      hide ValueText;
      var i := 0;
      assert vs[0..] == vs;
      while i < |vs|
        invariant i <= |vs|
        invariant out + ElementsText(indent, vs[i..], level, "") == old(out) + ElementsText(indent, vs, level, "")
      {
        ghost var before := out;
        var comma := if i < |vs| - 1 then "," else "";
        WriteIndent(level);
        FormatValue(vs[i], level);
        Push(comma);
        Push("\n");
        OneElement(indent, vs, i, level);
        assert out == before + ((Indent(indent, level, "") + ValueText(indent, vs[i], level, "")) + comma + "\n");
        assert before + (((Indent(indent, level, "") + ValueText(indent, vs[i], level, "")) + comma + "\n")
                         + ElementsText(indent, vs[i + 1..], level, ""))
            == out + ElementsText(indent, vs[i + 1..], level, "");
        i := i + 1;
      }
      assert out + "" == out;
    }

    /** format_entries */
    method FormatEntries(es: seq<Entry>, level: nat)
      modifies this
      ensures out == old(out) + EntriesText(indent, es, level, "")
      decreases es, 1
    {
      hide EntryText;
      var i := 0;
      assert es[0..] == es;
      while i < |es|
        invariant i <= |es|
        invariant out + EntriesText(indent, es[i..], level, "") == old(out) + EntriesText(indent, es, level, "")
      {
        ghost var before := out;
        WriteIndent(level);
        FormatEntry(es[i], level);
        OneEntry(indent, es, i, level);
        ghost var text := Indent(indent, level, "") + EntryText(indent, es[i], level, "");
        assert out == before + text;
        assert before + (text + EntriesText(indent, es[i + 1..], level, "")) == out + EntriesText(indent, es[i + 1..], level, "");
        i := i + 1;
      }
      assert out + "" == out;
    }

    /** One arm of format_entries. */
    method FormatEntry(e: Entry, level: nat)
      modifies this
      ensures out == old(out) + EntryText(indent, e, level, "")
      decreases e, 0
    {
      hide ValueText, QuoteString, NameText, EntriesText;
      match e
      case Assignment(key, quoted, v) =>
        FormatBinding(key, quoted, " = ", v, level);
        AssignedText(indent, key, quoted, ValueText(indent, v, level, ""));
      case MapEntry(key, quoted, v) =>
        FormatBinding(key, quoted && !KeyedForm.IdentSafe(key), ": ", v, level);
        MappedText(indent, key, KeepsQuotes(key, quoted), ValueText(indent, v, level, ""));
      case Block(name, quoted, es) =>
        ghost var before := out;
        WriteName(name, quoted);
        Push(" {\n");
        FormatEntries(es, level + 1);
        WriteIndent(level);
        Push("}\n");
        BlockText(name, quoted, indent, es, level);
        hide EntryText;
        assert out == before + (NameText(name, quoted, "") + " {\n" + EntriesText(indent, es, level + 1, "")
                                + Indent(indent, level, "") + "}\n");
      case TypeEntry(url) =>
        ghost var before := out;
        Push("@type = ");
        var q := QuoteWith(url, QuoteChar);
        Push(q);
        Push("\n");
        WholeQuote(url);
        TypeText(url);
        assert out == before + ("@type = " + q + "\n");
    }

    /** A name, a separator and a value on a line. */
    method FormatBinding(key: string, quoted: bool, mark: string, v: Value, level: nat)
      modifies this
      ensures out == old(out) + (NameText(key, quoted, "") + mark + ValueText(indent, v, level, "") + "\n")
      ensures ValueText(indent, v, level, "\n" + "") == ValueText(indent, v, level, "") + "\n"
      decreases v, 1
    {
      hide ValueText, NameText;
      ghost var before := out;
      WriteName(key, quoted);
      Push(mark);
      FormatValue(v, level);
      Push("\n");
      ValueThen(indent, v, level, "", "\n");
      assert "" + "\n" == "\n" + "";
      assert out == before + (NameText(key, quoted, "") + mark + ValueText(indent, v, level, "") + "\n");
    }

    /** format_with_options */
    method FormatDocument(d: Document)
      requires out == ""
      modifies this
      ensures out == Format(indent, d)
    {
      hide EntriesText;
      if d.typeUrl != "" {
        Push("@type ");
        Push(d.typeUrl);
        Push("\n\n");
      }
      ghost var head := out;
      FormatEntries(d.entries, 0);
      HeadText(d.typeUrl, EntriesText(indent, d.entries, 0, ""));
    }
  }

  // The pieces, put together.

  lemma HeadText(url: string, body: string)
    ensures "" + body == body
    ensures "" + "@type " + url + "\n\n" + body == "@type" + (" " + (url + ("\n" + ("\n" + body))))
  {}

  lemma ClosedList(unit: string, vs: seq<Value>, level: nat)
    ensures ValueText(unit, ListVal(vs), level, "")
         == "[\n" + ElementsText(unit, vs, level + 1, "") + Indent(unit, level, "") + "]"
  {
    hide ElementsText;
    var close := Indent(unit, level, "") + "]";
    IndentThen(unit, level, "", "]");
    assert "" + "]" == "]" + "" && "" + close == close;
    ElementsThen(unit, vs, level + 1, "", close);
  }

  lemma ClosedBlock(unit: string, es: seq<Entry>, level: nat, brace: string)
    ensures "{" + ("\n" + EntriesText(unit, es, level + 1, Indent(unit, level, brace)))
         == "{\n" + EntriesText(unit, es, level + 1, "") + Indent(unit, level, "") + brace
    ensures brace == "}" ==>
              ValueText(unit, BlockVal(es), level, "") == "{" + ("\n" + EntriesText(unit, es, level + 1, Indent(unit, level, brace)))
  {
    hide EntriesText;
    var close := Indent(unit, level, "") + brace;
    IndentThen(unit, level, "", brace);
    assert "" + brace == brace && "" + close == close && brace + "" == brace;
    EntriesThen(unit, es, level + 1, "", close);
  }

  lemma OneElement(unit: string, vs: seq<Value>, i: nat, level: nat)
    requires i < |vs|
    ensures ElementsText(unit, vs[i..], level, "")
         == ((Indent(unit, level, "") + ValueText(unit, vs[i], level, "")) + (if i < |vs| - 1 then "," else "") + "\n")
            + ElementsText(unit, vs[i + 1..], level, "")
  {
    hide ValueText;
    var rest := ElementsText(unit, vs[i + 1..], level, "");
    var comma := if i < |vs| - 1 then "," else "";
    var more := comma + ("\n" + rest);
    assert vs[i..][0] == vs[i] && vs[i..][1..] == vs[i + 1..];
    assert "" + more == more;
    ValueThen(unit, vs[i], level, "", more);
    var text := ValueText(unit, vs[i], level, "") + more;
    assert "" + text == text;
    IndentThen(unit, level, "", text);
  }

  lemma OneEntry(unit: string, es: seq<Entry>, i: nat, level: nat)
    requires i < |es|
    ensures EntriesText(unit, es[i..], level, "")
         == (Indent(unit, level, "") + EntryText(unit, es[i], level, "")) + EntriesText(unit, es[i + 1..], level, "")
  {
    hide EntryText;
    var rest := EntriesText(unit, es[i + 1..], level, "");
    assert es[i..][0] == es[i] && es[i..][1..] == es[i + 1..];
    assert "" + rest == rest;
    EntryThen(unit, es[i], level, "", rest);
    var text := EntryText(unit, es[i], level, "") + rest;
    assert "" + text == text;
    IndentThen(unit, level, "", text);
  }

  lemma AssignedText(unit: string, key: string, quoted: bool, value: string)
    ensures NameText(key, quoted, " " + ("=" + (" " + (value + "\n")))) == NameText(key, quoted, "") + " = " + value + "\n"
  {
    hide QuoteString;
  }

  lemma MappedText(unit: string, key: string, quoted: bool, value: string)
    ensures NameText(key, quoted, ":" + (" " + (value + "\n"))) == NameText(key, quoted, "") + ": " + value + "\n"
  {
    hide QuoteString;
  }

  lemma BlockText(name: string, quoted: bool, unit: string, es: seq<Entry>, level: nat)
    ensures EntryText(unit, Block(name, quoted, es), level, "")
         == NameText(name, quoted, "") + " {\n" + EntriesText(unit, es, level + 1, "") + Indent(unit, level, "") + "}\n"
  {
    hide QuoteString, EntriesText;
    ClosedBlock(unit, es, level, "}\n");
    assert "}" + ("\n" + "") == "}\n";
  }

  lemma WholeQuote(s: string)
    ensures QuoteString(s) == "\"" + (Quoted(s, QuoteChar) + "\"")
  {}

  lemma TypeText(url: string)
    ensures "@type" + (" " + ("=" + (" " + (QuoteString(url) + ("\n" + ""))))) == "@type = " + QuoteString(url) + "\n"
  {
    hide QuoteString;
  }
}
