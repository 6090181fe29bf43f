/** The writer and the reader as they run: a buffer that grows, and a position
    that moves. */
module WireCode {
  import opened Bytes
  import opened Wire
  import opened Codec

  /** An output buffer for one message, and how deep it sits. */
  class Writer {
    var buf: seq<Byte>
    var exceeded: bool
    const depth: nat
    const maxDepth: nat

    constructor Root(maxNestingDepth: nat)
      ensures buf == [] && !exceeded && depth == 0 && maxDepth == maxNestingDepth
    {
      buf, exceeded := [], false;
      depth, maxDepth := 0, maxNestingDepth;
    }

    constructor Below(outer: Writer)
      ensures buf == [] && !exceeded && depth == outer.depth + 1 && maxDepth == outer.maxDepth
    {
      buf, exceeded := [], false;
      depth, maxDepth := outer.depth + 1, outer.maxDepth;
    }

    /** A writer one descent below, or none, with the refusal recorded here. */
    method Nested() returns (inner: Writer?)
      modifies this
      ensures buf == old(buf)
      ensures depth >= maxDepth ==> inner == null && exceeded
      ensures depth < maxDepth ==>
                exceeded == old(exceeded)
                && inner != null && fresh(inner)
                && inner.buf == [] && !inner.exceeded && inner.depth == depth + 1 && inner.maxDepth == maxDepth
    {
      if depth >= maxDepth {
        exceeded := true;
        return null;
      }
      inner := new Writer.Below(this);
    }

    method Raw(b: seq<Byte>)
      modifies this`buf
      ensures buf == old(buf) + b
    {
      buf := buf + b;
    }

    method WriteVarint(v: nat)
      modifies this`buf
      ensures buf == old(buf) + VarintBytes(v)
    {
      var rest := v;
      while rest >= 0x80
        invariant buf + VarintBytes(rest) == old(buf) + VarintBytes(v)
        decreases rest
      {
        buf := buf + [rest % 0x80 + 0x80];
        rest := rest / 0x80;
      }
      buf := buf + [rest];
    }

    method WriteTag(num: nat, wire: WireType)
      requires 0 < num <= MAX_FIELD_NUMBER
      modifies this`buf
      ensures buf == old(buf) + TagBytes(num, wire)
    {
      WriteVarint(8 * num + WireCode(wire));
    }

    method WriteBytes(b: seq<Byte>)
      modifies this`buf
      ensures buf == old(buf) + Framed(b)
    {
      WriteVarint(|b|);
      Raw(b);
    }
  }

  /** A position in the input, with the live recursion depth and the limits. */
  class Reader {
    const data: seq<Byte>
    const limits: Limits
    var pos: nat
    var depth: nat

    ghost predicate Valid()
      reads this
    {
      pos <= |data|
    }

    constructor (input: seq<Byte>, limits: Limits)
      ensures data == input && this.limits == limits && pos == 0 && depth == 0
    {
      data, this.limits := input, limits;
      pos, depth := 0, 0;
    }

    method TakeVarint() returns (r: Read<nat>)
      requires Valid()
      modifies this`pos
      ensures Valid() && r == ReadVarint(data, old(pos)) && (r.Got? ==> pos == r.next)
    {
      hide Shifted;
      var result: nat, i: nat := 0, 0;
      while i < 10
        invariant i <= 10 && Valid()
        invariant ReadVarint(data, old(pos)) == Plus(VarintAt(data, pos, i), result)
      {
        if pos >= |data| {
          return Fail(TruncatedVarint);
        }
        var byte := data[pos];
        pos := pos + 1;
        result := result + Shifted(byte, i);
        if byte < 0x80 {
          return Got(result, pos);
        }
        i := i + 1;
      }
      r := Fail(VarintTooLong);
    }

    method TakeTag() returns (r: Read<Tag>)
      requires Valid()
      modifies this`pos
      ensures Valid() && r == ReadTag(data, old(pos)) && (r.Got? ==> pos == r.next)
    {
      var t := TakeVarint();
      if t.Fail? {
        return Fail(t.error);
      }
      if t.value % 8 >= 6 {
        return Fail(UnknownWireType);
      }
      var num := (t.value / 8) % U32_SIZE;
      if num == 0 {
        return Fail(InvalidTag);
      }
      r := Got(Tag(num, WireOf(t.value % 8)), pos);
    }

    method TakeLength() returns (r: Read<nat>)
      requires Valid()
      modifies this`pos
      ensures Valid() && r == ReadLength(data, old(pos)) && (r.Got? ==> pos == r.next)
    {
      var len := TakeVarint();
      if len.Fail? {
        return len;
      }
      if pos + len.value > |data| {
        return Fail(TruncatedLengthDelim);
      }
      r := len;
    }

    method TakeBytes() returns (r: Read<seq<Byte>>)
      requires Valid()
      modifies this`pos
      ensures Valid() && r == ReadBytes(data, old(pos)) && (r.Got? ==> pos == r.next)
    {
      var len := TakeLength();
      if len.Fail? {
        return Fail(len.error);
      }
      var end := pos + len.value;
      var view := data[pos..end];
      pos := end;
      r := Got(view, pos);
    }

    method TakeString() returns (r: Read<seq<Byte>>)
      requires Valid()
      modifies this`pos
      ensures Valid() && r == ReadString(data, old(pos)) && (r.Got? ==> pos == r.next)
    {
      r := TakeBytes();
      if r.Got? && !ValidUtf8(r.value) {
        r := Fail(InvalidUtf8);
      }
    }

    /** Skip the value of a field with the given wire type. */
    method SkipValue(wire: WireType) returns (r: Read<()>)
      requires Valid()
      modifies this`pos
      ensures Valid() && r == Skip(data, old(pos), wire) && (r.Got? ==> pos == r.next)
    {
      match wire {
        case Varint =>
          var v := TakeVarint();
          if v.Fail? {
            return Fail(v.error);
          }
        case Fixed64 =>
          if pos + 8 > |data| {
            return Fail(TruncatedFixed64);
          }
          pos := pos + 8;
        case LengthDelimited =>
          var len := TakeLength();
          if len.Fail? {
            return Fail(len.error);
          }
          pos := pos + len.value;
        case Fixed32 =>
          if pos + 4 > |data| {
            return Fail(TruncatedFixed32);
          }
          pos := pos + 4;
        case StartGroup => return Fail(GroupNotSupported);
        case EndGroup => return Fail(GroupNotSupported);
      }
      r := Got((), pos);
    }
  }

  /** The rest of a varint, with what was already taken added. */
  ghost function Plus(r: Read<nat>, taken: nat): Read<nat> {
    match r
    case Got(v, next) => Got(taken + v, next)
    case Fail(e) => Fail(e)
  }
}
