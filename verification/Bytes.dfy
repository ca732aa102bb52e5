/** Little-endian bytes and words, and the fixed-width integer views the assemblers use.

    Machine integers are written as mathematical integers with explicit ranges.  Masking with
    `2^k - 1` is `% 2^k`, an arithmetic right shift by `k` is `/ 2^k` (Dafny's division by a
    positive divisor floors, as the shift does), and a store of a signed value into an
    n-bit slot is `% 2^n`.
 */
module Bytes {
  type byte = b: int | 0 <= b < 0x100
  type uint32 = w: int | 0 <= w < 0x1_0000_0000

  /** The value an n-bit two's complement representation can hold. */
  predicate IsInt8(v: int) { -0x80 <= v < 0x80 }
  predicate IsInt16(v: int) { -0x8000 <= v < 0x8000 }
  predicate IsInt24(v: int) { -0x80_0000 <= v < 0x80_0000 }
  predicate IsInt32(v: int) { -0x8000_0000 <= v < 0x8000_0000 }

  /** Two's complement reading of a field that holds `v` modulo its width. */
  function Signed8(b: byte): int { if b < 0x80 then b else b - 0x100 }
  function Signed16(v: int): int { if v < 0x8000 then v else v - 0x1_0000 }
  function Signed24(v: int): int { if v < 0x80_0000 then v else v - 0x100_0000 }
  function Signed32(w: uint32): int { if w < 0x8000_0000 then w else w - 0x1_0000_0000 }

  function Bytes32(w: uint32): (b: seq<byte>)
    ensures |b| == 4
  {
    [w % 0x100, w / 0x100 % 0x100, w / 0x1_0000 % 0x100, w / 0x100_0000]
  }

  function Load32(code: seq<byte>, p: nat): uint32
    requires p + 4 <= |code|
  {
    var b0: int, b1: int, b2: int, b3: int := code[p], code[p + 1], code[p + 2], code[p + 3];
    b0 + 0x100 * b1 + 0x1_0000 * b2 + 0x100_0000 * b3
  }

  function Store32(code: seq<byte>, p: nat, w: uint32): (r: seq<byte>)
    requires p + 4 <= |code|
    ensures |r| == |code|
  {
    var b := Bytes32(w);
    code[p := b[0]][p + 1 := b[1]][p + 2 := b[2]][p + 3 := b[3]]
  }

  /** Dividing by a byte at a time. */
  lemma ByteSteps(w: nat)
    ensures w / 0x1_0000 == w / 0x100 / 0x100 && w / 0x100_0000 == w / 0x1_0000 / 0x100
  {
  }

  lemma LowByte(d: int, rest: int)
    requires 0 <= d < 0x100
    ensures (d + 0x100 * rest) % 0x100 == d && (d + 0x100 * rest) / 0x100 == rest
  {
  }

  lemma Digits(w: uint32)
    ensures w == w % 0x100 + 0x100 * (w / 0x100 % 0x100) + 0x1_0000 * (w / 0x1_0000 % 0x100) + 0x100_0000 * (w / 0x100_0000)
  {
    ByteSteps(w);
    var q := w / 0x100;
    var r := q / 0x100;
    assert w == w % 0x100 + 0x100 * q && q == q % 0x100 + 0x100 * r && r == r % 0x100 + 0x100 * (r / 0x100);
  }

  /** The bytes of a word built from bytes. */
  lemma BytesOfDigits(b0: byte, b1: byte, b2: byte, b3: byte)
    ensures var d0: int, d1: int, d2: int, d3: int := b0, b1, b2, b3;
            Bytes32(d0 + 0x100 * d1 + 0x1_0000 * d2 + 0x100_0000 * d3) == [b0, b1, b2, b3]
  {
    var d0: int, d1: int, d2: int, d3: int := b0, b1, b2, b3;
    var two := d2 + 0x100 * d3;
    var three := d1 + 0x100 * two;
    var w := d0 + 0x100 * three;
    LowByte(d0, three);
    LowByte(d1, two);
    LowByte(d2, d3);
    ByteSteps(w);
    assert w == d0 + 0x100 * d1 + 0x1_0000 * d2 + 0x100_0000 * d3;
  }

  /** A word read back from its four bytes is the word. */
  lemma LoadBytes32(code: seq<byte>, p: nat, w: uint32)
    requires p + 4 <= |code|
    requires code[p..p + 4] == Bytes32(w)
    ensures Load32(code, p) == w
  {
    Digits(w);
    var s := code[p..p + 4];
    assert s[0] == code[p] && s[1] == code[p + 1] && s[2] == code[p + 2] && s[3] == code[p + 3];
  }

  /** A stored word reads back, and a store touches only its own four bytes. */
  lemma LoadStore32(code: seq<byte>, p: nat, w: uint32)
    requires p + 4 <= |code|
    ensures Load32(Store32(code, p, w), p) == w
    ensures forall i :: 0 <= i < |code| && (i < p || p + 4 <= i) ==> Store32(code, p, w)[i] == code[i]
  {
    var r := Store32(code, p, w);
    assert r[p..p + 4] == Bytes32(w);
    LoadBytes32(r, p, w);
  }

  /** Words over unchanged bytes are unchanged. */
  lemma LoadFrame(code: seq<byte>, code': seq<byte>, p: nat)
    requires p + 4 <= |code| && p + 4 <= |code'|
    requires forall i :: p <= i < p + 4 ==> code[i] == code'[i]
    ensures Load32(code, p) == Load32(code', p)
  {
    assert code[p] == code'[p] && code[p + 1] == code'[p + 1] && code[p + 2] == code'[p + 2] && code[p + 3] == code'[p + 3];
  }
}
