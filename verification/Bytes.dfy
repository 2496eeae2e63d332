/** Fixed-width unsigned integers and their little-endian byte encodings. */
module Bytes {

  type u8 = x: int | 0 <= x < 0x100
  type u16 = x: int | 0 <= x < 0x1_0000
  type u32 = x: int | 0 <= x < 0x1_0000_0000

  /** A signed offset stored in an unsigned 32-bit operand (two's complement). */
  function ToU32(x: int): (r: u32) {
    x % 0x1_0000_0000
  }

  /** The operand of a jump back over `len` bytes. */
  function Behind(len: nat): (r: u32) {
    var x: int := len;
    ToU32(-x)
  }

  /** The cast `(int)val` applied to an unsigned 32-bit operand. */
  function ToI32(x: u32): (r: int) {
    if x < 0x8000_0000 then x else x - 0x1_0000_0000
  }

  lemma SignedRoundTrip(x: int)
    requires -0x8000_0000 <= x < 0x8000_0000
    ensures ToI32(ToU32(x)) == x
  {
    if x < 0 {
      assert (x + 0x1_0000_0000) % 0x1_0000_0000 == x + 0x1_0000_0000;
    }
  }

  function PutU16(v: u16): (r: seq<u8>)
    ensures |r| == 2
  {
    [v % 256, v / 256]
  }

  function PutU32(v: u32): (r: seq<u8>)
    ensures |r| == 4
  {
    [v % 256, v / 256 % 256, v / 65536 % 256, v / 16777216]
  }

  function GetU16(bc: seq<u8>, pos: nat): (r: u16)
    requires pos + 2 <= |bc|
  {
    var b0: int, b1: int := bc[pos], bc[pos + 1];
    b0 + 256 * b1
  }

  function GetU32(bc: seq<u8>, pos: nat): (r: u32)
    requires pos + 4 <= |bc|
  {
    var b0: int, b1: int, b2: int, b3: int := bc[pos], bc[pos + 1], bc[pos + 2], bc[pos + 3];
    b0 + 256 * b1 + 65536 * b2 + 16777216 * b3
  }

  lemma SliceOfSlice<T>(s: seq<T>, a: nat, b: nat, c: nat, d: nat)
    requires a <= b <= |s| && c <= d <= b - a
    ensures s[a..b][c..d] == s[a + c..a + d]
  {
    var x, y := s[a..b][c..d], s[a + c..a + d];
    assert |x| == |y|;
    forall k | 0 <= k < |x|
      ensures x[k] == y[k]
    {
      assert x[k] == s[a..b][c + k] == s[a + c + k];
    }
  }

  lemma U16RoundTrip(bc: seq<u8>, pos: nat, v: u16)
    requires pos + 2 <= |bc| && bc[pos..pos + 2] == PutU16(v)
    ensures GetU16(bc, pos) == v
  {
    assert bc[pos] == bc[pos..pos + 2][0] && bc[pos + 1] == bc[pos..pos + 2][1];
  }

  lemma U32RoundTrip(bc: seq<u8>, pos: nat, v: u32)
    requires pos + 4 <= |bc| && bc[pos..pos + 4] == PutU32(v)
    ensures GetU32(bc, pos) == v
  {
    var s := bc[pos..pos + 4];
    assert bc[pos] == s[0] && bc[pos + 1] == s[1] && bc[pos + 2] == s[2] && bc[pos + 3] == s[3];
  }
}
