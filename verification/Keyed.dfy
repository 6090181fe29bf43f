/** The canonical keyed form: what the formatter rewrites a document to. */
module KeyedForm {
  import opened Options
  import opened PxfDocument
  import opened PxfDecoder

  /** Whether a name can be written unquoted: an identifier that is no keyword. */
  predicate IdentSafe(s: string) {
    s != "" && s != "true" && s != "false" && s != "null"
    && IdentStart(s[0]) && forall i :: 1 <= i < |s| ==> IdentPart(s[i])
  }

  predicate IdentStart(c: char) {
    'a' <= c <= 'z' || 'A' <= c <= 'Z' || c == '_'
  }

  predicate IdentPart(c: char) {
    IdentStart(c) || '0' <= c <= '9' || c == '.'
  }

  /** The key assignments that are dropped from a body: none, or those of a named
      entry that repeat its name. */
  datatype Dropped = Nothing | Key(name: string, value: string)

  predicate IsDropped(e: Entry, d: Dropped) {
    d.Key? && e.Assignment? && !e.quoted && e.key == d.name && e.value == Lit(Str(d.value))
  }

  /** The value of the single explicit string assignment to the key, given one
      already found. */
  function ExplicitKey(es: seq<Entry>, keyName: string, found: Option<string>): Option<string> {
    if es == [] then found
    else if !es[0].Assignment? || es[0].key != keyName then ExplicitKey(es[1..], keyName, found)
    else if !es[0].value.Lit? || !es[0].value.literal.Str? || es[0].quoted || found.Some? then None
    else ExplicitKey(es[1..], keyName, Some(es[0].value.literal.text))
  }

  /** Every element is a body with one explicit key, non-empty and not seen before. */
  predicate Eligible(vs: seq<Value>, keyName: string, seen: set<string>) {
    vs != [] ==>
      && vs[0].Braces?
      && var key := ExplicitKey(vs[0].entries, keyName, None);
         && key.Some? && key.value != "" && key.value !in seen
         && Eligible(vs[1..], keyName, seen + {key.value})
  }

  function CanonEntries(s: Schema, message: string, es: seq<Entry>, d: Dropped): seq<Entry>
    decreases es, 2
  {
    if es == [] then []
    else (if IsDropped(es[0], d) then [] else [CanonEntry(s, message, es[0])]) + CanonEntries(s, message, es[1..], d)
  }

  function CanonEntry(s: Schema, message: string, e: Entry): Entry
    decreases e, 1
  {
    match e
    case Assignment(key, false, v) =>
      (match FieldNamed(s, message, key)
       case None => e
       case Some(fd) => CanonAssignment(s, fd, key, v))
    case Block(name, false, es) =>
      (match FieldNamed(s, message, name)
       case None => e
       case Some(fd) =>
         match KeyField(s, fd)
         case Some(key) => Block(name, false, CanonKeyed(s, fd, key, es))
         case None =>
           if fd.kind.MessageKind? && fd.shape.Singular? then Block(name, false, CanonEntries(s, fd.kind.name, es, Nothing))
           else e)
    case _ => e
  }

  /** An assignment by its field's shape; a keyed list or block becomes a block. */
  function CanonAssignment(s: Schema, fd: Field, key: string, v: Value): Entry
    decreases v, 3
  {
    if !fd.kind.MessageKind? then Assignment(key, false, v)
    else
      match fd.shape
      case MapOf => Assignment(key, false, if v.Braces? then Braces(CanonMap(s, fd.kind.name, v.entries)) else v)
      case Singular =>
        Assignment(key, false, if v.Braces? then Braces(CanonEntries(s, fd.kind.name, v.entries, Nothing)) else v)
      case Repeated =>
        match KeyField(s, fd)
        case None => Assignment(key, false, if v.List? then List(CanonElements(s, fd.kind.name, v.elements)) else v)
        case Some(keyField) =>
          if v.Braces? then Block(key, false, CanonKeyed(s, fd, keyField, v.entries))
          else if v.List? && Eligible(v.elements, keyField.name, {}) then
            Block(key, false, NamedBlocks(s, fd, keyField, v.elements, {}))
          else Assignment(key, false, if v.List? then List(CanonElements(s, fd.kind.name, v.elements)) else v)
  }

  function CanonMap(s: Schema, message: string, es: seq<Entry>): seq<Entry>
    decreases es, 2
  {
    if es == [] then []
    else
      var first :=
        if es[0].MapEntry? && es[0].value.Braces? then
          MapEntry(es[0].key, es[0].quoted, Braces(CanonEntries(s, message, es[0].value.entries, Nothing)))
        else es[0];
      [first] + CanonMap(s, message, es[1..])
  }

  function CanonElements(s: Schema, message: string, vs: seq<Value>): seq<Value>
    decreases vs, 2
  {
    if vs == [] then []
    else
      var first := if vs[0].Braces? then Braces(CanonEntries(s, message, vs[0].entries, Nothing)) else vs[0];
      [first] + CanonElements(s, message, vs[1..])
  }

  /** The entries of a keyed block: the block spelling, names unquoted where they
      may be, repeated keys dropped. */
  function CanonKeyed(s: Schema, fd: Field, key: Field, es: seq<Entry>): seq<Entry>
    requires fd.kind.MessageKind?
    decreases es, 3
  {
    if es == [] then [] else [CanonNamed(s, fd, key, es[0])] + CanonKeyed(s, fd, key, es[1..])
  }

  function EntryQuoted(e: Entry): bool {
    match e
    case Block(_, quoted, _) => quoted
    case Assignment(_, quoted, _) => quoted
    case _ => false
  }

  function CanonNamed(s: Schema, fd: Field, key: Field, e: Entry): Entry
    requires fd.kind.MessageKind?
    decreases e, 3
  {
    match EntryName(e)
    case None => e
    case Some(name) =>
      Block(name, EntryQuoted(e) && !IdentSafe(name),
            CanonEntries(s, fd.kind.name, EntryBody(e), Key(key.name, name)))
  }

  /** The named blocks an eligible list becomes. */
  function NamedBlocks(s: Schema, fd: Field, key: Field, vs: seq<Value>, seen: set<string>): seq<Entry>
    requires fd.kind.MessageKind? && Eligible(vs, key.name, seen)
    decreases vs, 2
  {
    if vs == [] then []
    else
      var name := ExplicitKey(vs[0].entries, key.name, None).value;
      [Block(name, !IdentSafe(name), CanonEntries(s, fd.kind.name, vs[0].entries, Key(key.name, name)))]
      + NamedBlocks(s, fd, key, vs[1..], seen + {name})
  }

  /** canonicalize_keyed. */
  function Canonical(s: Schema, message: string, es: seq<Entry>): seq<Entry> {
    CanonEntries(s, message, es, Nothing)
  }
}
