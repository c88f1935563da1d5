/** Byte strings, little-endian words and NUL-terminated strings. */
module Bytes {

  type Byte = x: int | 0 <= x < 0x100
  type U16 = x: int | 0 <= x < 0x1_0000
  type U32 = x: int | 0 <= x < 0x1_0000_0000

  datatype Option<+T> = None | Some(value: T)

  /** The little-endian word at offset i. */
  function Le32(s: seq<Byte>, i: nat): U32
    requires i + 4 <= |s|
  {
    var b0: int, b1: int, b2: int, b3: int := s[i], s[i + 1], s[i + 2], s[i + 3];
    b0 + 0x100 * b1 + 0x1_0000 * b2 + 0x100_0000 * b3
  }

  function Le16(lo: Byte, hi: Byte): U16 {
    var b0: int, b1: int := lo, hi;
    b0 + 0x100 * b1
  }

  /** The little-endian encoding of a word. */
  function PutLe32(v: U32): (s: seq<Byte>)
    ensures |s| == 4 && Le32(s, 0) == v
  {
    var a := v / 0x100;
    var b := a / 0x100;
    [v % 0x100, a % 0x100, b % 0x100, b / 0x100]
  }

  /** The word at an offset depends only on the four bytes there. */
  lemma Le32Congruent(s: seq<Byte>, i: nat, t: seq<Byte>, j: nat)
    requires i + 4 <= |s| && j + 4 <= |t|
    requires s[i..i + 4] == t[j..j + 4]
    ensures Le32(s, i) == Le32(t, j)
  {
    var a, b := s[i..i + 4], t[j..j + 4];
    assert s[i] == a[0] && s[i + 1] == a[1] && s[i + 2] == a[2] && s[i + 3] == a[3];
    assert t[j] == b[0] && t[j + 1] == b[1] && t[j + 2] == b[2] && t[j + 3] == b[3];
  }
}
