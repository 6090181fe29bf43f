/** Bytes, and which byte strings are UTF-8. */
module Bytes {
  type Byte = x: int | 0 <= x < 256

  predicate Continuation(b: Byte) {
    0x80 <= b <= 0xbf
  }

  /** The second byte a lead byte admits (RFC 3629 section 4): no overlong form,
      no surrogate, nothing past U+10FFFF. */
  predicate SecondByte(lead: Byte, b: Byte) {
    if lead == 0xe0 then 0xa0 <= b <= 0xbf
    else if lead == 0xed then 0x80 <= b <= 0x9f
    else if lead == 0xf0 then 0x90 <= b <= 0xbf
    else if lead == 0xf4 then 0x80 <= b <= 0x8f
    else Continuation(b)
  }

  predicate ValidUtf8(s: seq<Byte>)
    decreases |s|
  {
    if s == [] then true
    else if s[0] < 0x80 then ValidUtf8(s[1..])
    else if 0xc2 <= s[0] <= 0xdf then |s| >= 2 && Continuation(s[1]) && ValidUtf8(s[2..])
    else if 0xe0 <= s[0] <= 0xef then
      |s| >= 3 && SecondByte(s[0], s[1]) && Continuation(s[2]) && ValidUtf8(s[3..])
    else if 0xf0 <= s[0] <= 0xf4 then
      |s| >= 4 && SecondByte(s[0], s[1]) && Continuation(s[2]) && Continuation(s[3]) && ValidUtf8(s[4..])
    else false
  }

  /** The number of little-endian bytes. */
  function FromLe(s: seq<Byte>): nat {
    if s == [] then 0 else s[0] + 256 * FromLe(s[1..])
  }
}
