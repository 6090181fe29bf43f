/** Decoding a message with a moving reader: the loops and the recursion as they
    run, equal to the specification on every input. */
module MessageReader {
  import opened Bytes
  import opened Wire
  import opened Codec
  import opened WireCode

  /** Merge one field; its tag was read. */
  method MergeFieldAt(kind: Kind, m: Msg, tag: Tag, r: Reader) returns (out: Read<Msg>)
    requires r.Valid()
    modifies r
    ensures r.Valid() && r.depth == old(r.depth)
    ensures out == MergeField(kind, m, tag, r.data, old(r.pos), old(r.depth), r.limits)
    ensures out.Got? ==> r.pos == out.next
    decreases |r.data| - r.pos, 1
  {
    hide ReadMessage, ReadFields, Skip, ReadString, ReadBytes, ReadVarint, Store, StoreText;
    var f := FieldOf(kind, tag.num);
    match f {
      case NoField =>
        var skipped := r.SkipValue(tag.wire);
        return if skipped.Fail? then Fail(skipped.error) else Got(m, r.pos);
      case Blob =>
        var b := r.TakeBytes();
        return if b.Fail? then Fail(b.error) else Got(PutBytes(m, tag.num, b.value), r.pos);
      case Int32 =>
        var v := r.TakeVarint();
        return if v.Fail? then Fail(v.error) else Got(PutInt(m, tag.num, AsI32(v.value)), r.pos);
      case Text =>
        var b := r.TakeString();
        return if b.Fail? then Fail(b.error) else Finish(StoreText(f, m, tag.num, b.value, r.limits.maxCount), r.pos);
      case TextList =>
        var b := r.TakeString();
        return if b.Fail? then Fail(b.error) else Finish(StoreText(f, m, tag.num, b.value, r.limits.maxCount), r.pos);
      case _ =>
        var sub := ReadMessageAt(f.kind, r);
        return if sub.Fail? then Fail(sub.error) else Finish(Store(f, m, tag.num, sub.value, r.limits.maxCount), r.pos);
    }
  }

  /** A length-delimited message: the depth goes up for its fields and comes back
      down whatever they are. */
  method ReadMessageAt(kind: Kind, r: Reader) returns (out: Read<Msg>)
    requires r.Valid()
    modifies r
    ensures r.Valid() && r.depth == old(r.depth)
    ensures out == ReadMessage(kind, r.data, old(r.pos), old(r.depth), r.limits)
    ensures out.Got? ==> r.pos == out.next
    decreases |r.data| - r.pos, 0
  {
    hide ReadFields, ReadVarint;
    var len := r.TakeVarint();
    if len.Fail? {
      return Fail(len.error);
    }
    var end := r.pos + len.value;
    if end > |r.data| {
      return Fail(NestedExceedsBuffer);
    }
    if r.depth >= r.limits.maxDepth {
      return Fail(DepthExceeded);
    }
    r.depth := r.depth + 1;
    out := ReadFieldsAt(kind, r, end, EMPTY);
    r.depth := r.depth - 1;
  }

  /** Fields up to the end, which the last of them must reach exactly. */
  method ReadFieldsAt(kind: Kind, r: Reader, end: nat, start: Msg) returns (out: Read<Msg>)
    requires r.Valid() && end <= |r.data|
    modifies r
    ensures r.Valid() && r.depth == old(r.depth)
    ensures out == ReadFields(kind, r.data, old(r.pos), end, old(r.depth), r.limits, start)
    ensures out.Got? ==> r.pos == out.next
    decreases |r.data| - r.pos, 2
  {
    hide MergeField, ReadTag;
    var m := start;
    while r.pos < end
      invariant r.Valid() && r.depth == old(r.depth) && old(r.pos) <= r.pos
      invariant ReadFields(kind, r.data, r.pos, end, r.depth, r.limits, m)
             == ReadFields(kind, r.data, old(r.pos), end, old(r.depth), r.limits, start)
      decreases |r.data| - r.pos
    {
      var tag := r.TakeTag();
      if tag.Fail? {
        return Fail(tag.error);
      }
      var merged := MergeFieldAt(kind, m, tag.value, r);
      if merged.Fail? {
        return merged;
      }
      m := merged.value;
    }
    if r.pos != end {
      return Fail(Overrun);
    }
    out := Got(m, r.pos);
  }

  /** unmarshal_with. */
  method UnmarshalWith(kind: Kind, data: seq<Byte>, limits: Limits) returns (out: Outcome<Msg>)
    ensures out == Unmarshal(kind, data, limits)
  {
    hide ReadFields;
    if |data| > limits.maxSize {
      return Err(MessageTooLarge);
    }
    var r := new Reader(data, limits);
    var read := ReadFieldsAt(kind, r, |data|, EMPTY);
    out := if read.Fail? then Err(read.error) else Ok(read.value);
  }
}
