/** UTF-8 (RFC 3629 section 3): the encodings of the Unicode scalar values, and that
    a text is valid exactly when it is made of them. */
module Utf8 {
  import opened Options
  import opened Bytes
  import opened Lexing

  predicate Scalar(r: nat) {
    r <= 0x10_ffff && !(0xd800 <= r <= 0xdfff)
  }

  /** The six bits a byte after the first carries. */
  function Low(b: Byte): int {
    b as int - 0x80
  }

  /** The bytes are the encoding of r: as many as r needs, the first saying how many,
      its bits six to each byte after the first. */
  predicate Encodes(b: seq<Byte>, r: nat) {
    && Scalar(r) && b != []
    && (forall i :: 1 <= i < |b| ==> Continuation(b[i]))
    && match |b|
       case 1 => r < 0x80 && b[0] == r
       case 2 => 0x80 <= r < 0x800 && r == 0x40 * (b[0] as int - 0xc0) + Low(b[1])
       case 3 => 0x800 <= r < 0x1_0000 && r == 0x1000 * (b[0] as int - 0xe0) + 0x40 * Low(b[1]) + Low(b[2])
       case 4 => 0x1_0000 <= r && r == 0x4_0000 * (b[0] as int - 0xf0) + 0x1000 * Low(b[1]) + 0x40 * Low(b[2]) + Low(b[3])
       case _ => false
  }

  /** A string's characters as bytes are the encoding of r exactly when the lexer
      writes them for it. */
  lemma {:induction false} RuneExactly(r: nat, s: string)
    ensures Rune(r) == Some(s) <==> AllOctets(s) && Encodes(Octets(s), r)
  {
    if Rune(r).Some? {
      RuneEncodes(r);
      if AllOctets(s) && Encodes(Octets(s), r) {
        var t := Rune(r).value;
        EncodesOnce(Octets(s), Octets(t), r);
        OctetsAt(s);
        OctetsAt(t);
        assert s == t;
      }
    } else {
      assert !Scalar(r);
    }
  }

  lemma {:induction false} OctetsAt(s: string)
    requires AllOctets(s)
    ensures |Octets(s)| == |s| && forall i :: 0 <= i < |s| ==> Octets(s)[i] == s[i] as int
    decreases |s|
  {
    if s != [] {
      OctetsAt(s[1..]);
    }
  }

  lemma {:induction false} RuneEncodes(r: nat)
    requires Rune(r).Some?
    ensures AllOctets(Rune(r).value) && Encodes(Octets(Rune(r).value), r)
  {
    var s := Rune(r).value;
    assert AllOctets(s) by { Bounds(r); }
    OctetsAt(s);
    var b := Octets(s);
    hide Octets, AllOctets;
    Sixes(r);
    if r < 0x80 {
    } else if r < 0x800 {
      assert |b| == 2 && b[0] == 0xc0 + r / 0x40 && b[1] == 0x80 + r % 0x40;
    } else if r < 0x1_0000 {
      assert |b| == 3 && b[0] == 0xe0 + r / 0x1000 && b[1] == 0x80 + r / 0x40 % 0x40 && b[2] == 0x80 + r % 0x40;
    } else {
      assert |b| == 4 && b[0] == 0xf0 + r / 0x4_0000 && b[1] == 0x80 + r / 0x1000 % 0x40;
      assert b[2] == 0x80 + r / 0x40 % 0x40 && b[3] == 0x80 + r % 0x40;
    }
    hide Rune;
  }

  lemma {:induction false} Bounds(r: nat)
    ensures r < 0x800 ==> r / 0x40 < 0x20
    ensures r < 0x1_0000 ==> r / 0x1000 < 0x10
    ensures r < 0x20_0000 ==> r / 0x4_0000 < 8
  {}

  lemma {:induction false} Sixes(r: nat)
    ensures r == 0x40 * (r / 0x40) + r % 0x40
    ensures r / 0x40 == 0x40 * (r / 0x1000) + r / 0x40 % 0x40
    ensures r / 0x1000 == 0x40 * (r / 0x4_0000) + r / 0x1000 % 0x40
  {}

  lemma {:induction false} SixBits(x: int, y: int, x': int, y': int)
    requires 0x40 * x + y == 0x40 * x' + y' && 0 <= y < 0x40 && 0 <= y' < 0x40
    ensures x == x' && y == y'
  {}

  lemma {:induction false} EncodesOnce(a: seq<Byte>, b: seq<Byte>, r: nat)
    requires Encodes(a, r) && Encodes(b, r)
    ensures a == b
  {
    assert |a| == |b|;
    if |a| == 1 {
      assert a == [a[0]] && b == [b[0]];
    } else if |a| == 2 {
      SixBits(a[0] as int - 0xc0, Low(a[1]), b[0] as int - 0xc0, Low(b[1]));
      assert a == [a[0], a[1]] && b == [b[0], b[1]];
    } else if |a| == 3 {
      ThreeOnce(a, b, r);
    } else {
      FourOnce(a, b, r);
    }
    hide Encodes;
  }

  lemma {:induction false} ThreeOnce(a: seq<Byte>, b: seq<Byte>, r: nat)
    requires Encodes(a, r) && Encodes(b, r) && |a| == 3 && |b| == 3
    ensures a == b
  {
    var x, x' := a[0] as int - 0xe0, b[0] as int - 0xe0;
    SixBits(0x40 * x + Low(a[1]), Low(a[2]), 0x40 * x' + Low(b[1]), Low(b[2]));
    SixBits(x, Low(a[1]), x', Low(b[1]));
    assert a == [a[0], a[1], a[2]] && b == [b[0], b[1], b[2]];
  }

  lemma {:induction false} FourOnce(a: seq<Byte>, b: seq<Byte>, r: nat)
    requires Encodes(a, r) && Encodes(b, r) && |a| == 4 && |b| == 4
    ensures a == b
  {
    var x, x' := a[0] as int - 0xf0, b[0] as int - 0xf0;
    var y, y' := 0x40 * x + Low(a[1]), 0x40 * x' + Low(b[1]);
    SixBits(0x40 * y + Low(a[2]), Low(a[3]), 0x40 * y' + Low(b[2]), Low(b[3]));
    SixBits(y, Low(a[2]), y', Low(b[2]));
    SixBits(x, Low(a[1]), x', Low(b[1]));
    assert a == [a[0], a[1], a[2], a[3]] && b == [b[0], b[1], b[2], b[3]];
  }

  // Valid texts.

  /** The bytes are encodings of scalar values, one after another. */
  ghost predicate Made(b: seq<Byte>, rs: seq<nat>)
    decreases |rs|
  {
    if rs == [] then b == [] else exists k :: 0 < k <= |b| && Encodes(b[..k], rs[0]) && Made(b[k..], rs[1..])
  }

  lemma {:induction false} FirstValid(b: seq<Byte>, k: nat, r: nat)
    requires k <= |b| && Encodes(b[..k], r)
    ensures ValidUtf8(b) <==> ValidUtf8(b[k..])
  {
    hide ValidUtf8;
    var c := b[..k];
    assert forall i :: 0 <= i < k ==> c[i] == b[i];
    ValidStep(b);
  }

  /** The test, unfolded once. */
  lemma {:induction false} ValidStep(b: seq<Byte>)
    requires b != []
    ensures ValidUtf8(b)
        <==> if b[0] < 0x80 then ValidUtf8(b[1..])
             else if 0xc2 <= b[0] <= 0xdf then |b| >= 2 && Continuation(b[1]) && ValidUtf8(b[2..])
             else if 0xe0 <= b[0] <= 0xef then |b| >= 3 && SecondByte(b[0], b[1]) && Continuation(b[2]) && ValidUtf8(b[3..])
             else 0xf0 <= b[0] <= 0xf4
                  && |b| >= 4 && SecondByte(b[0], b[1]) && Continuation(b[2]) && Continuation(b[3]) && ValidUtf8(b[4..])
  {}

  lemma {:induction false} FirstScalar(b: seq<Byte>) returns (k: nat, r: nat)
    requires b != [] && ValidUtf8(b)
    ensures 0 < k <= |b| && Encodes(b[..k], r) && ValidUtf8(b[k..])
  {
    ValidStep(b);
    hide ValidUtf8;
    if b[0] < 0x80 {
      k, r := 1, b[0];
    } else if b[0] <= 0xdf {
      k, r := 2, 0x40 * (b[0] as int - 0xc0) + Low(b[1]);
    } else if b[0] <= 0xef {
      k, r := 3, 0x1000 * (b[0] as int - 0xe0) + 0x40 * Low(b[1]) + Low(b[2]);
    } else {
      k, r := 4, 0x4_0000 * (b[0] as int - 0xf0) + 0x1000 * Low(b[1]) + 0x40 * Low(b[2]) + Low(b[3]);
    }
    assert forall i :: 0 <= i < k ==> b[..k][i] == b[i];
  }

  lemma {:induction false} MadeOf(b: seq<Byte>) returns (rs: seq<nat>)
    requires ValidUtf8(b)
    ensures Made(b, rs)
    decreases |b|
  {
    if b == [] {
      rs := [];
    } else {
      var k, r := FirstScalar(b);
      hide ValidUtf8, Encodes;
      var rest := MadeOf(b[k..]);
      rs := [r] + rest;
      assert rs[1..] == rest;
    }
  }

  lemma {:induction false} MadeValid(b: seq<Byte>, rs: seq<nat>)
    requires Made(b, rs)
    ensures ValidUtf8(b)
    decreases |rs|
  {
    hide Encodes;
    if rs != [] {
      var k :| 0 < k <= |b| && Encodes(b[..k], rs[0]) && Made(b[k..], rs[1..]);
      MadeValid(b[k..], rs[1..]);
      FirstValid(b, k, rs[0]);
    }
  }

  /** A text is valid exactly when scalar values make it. */
  lemma {:induction false} ValidExactly(b: seq<Byte>)
    ensures ValidUtf8(b) <==> exists rs :: Made(b, rs)
  {
    hide ValidUtf8;
    if ValidUtf8(b) {
      var rs := MadeOf(b);
    }
    if rs :| Made(b, rs) {
      MadeValid(b, rs);
    }
  }
}
