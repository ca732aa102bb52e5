/** Memory as bytes, with the words the runtime keeps in it. */
module AsanMemory {
  import opened Bytes

  type Memory = int -> byte

  const NULL := 0
  const WORD := 4
  const ADDRESS_LIMIT := 0x1_0000_0000

  function Load(m: Memory, a: int): uint32 { Load32([m(a), m(a + 1), m(a + 2), m(a + 3)], 0) }

  function Store(m: Memory, a: int, w: uint32): Memory {
    x => if a <= x < a + WORD then Bytes32(w)[x - a] else m(x)
  }

  /** Memory after `memset` to 0 and after `memcpy` between places that do not overlap. */
  function Cleared(m: Memory, at: int, n: nat): Memory {
    x => if at <= x < at + n then 0 else m(x)
  }

  function Copied(m: Memory, from: int, to: int, n: nat): Memory {
    x => if to <= x < to + n then m(from + (x - to)) else m(x)
  }

  lemma LoadStored(m: Memory, a: int, w: uint32)
    ensures Load(Store(m, a, w), a) == w
  {
    hide Bytes32, Load32;
    var s := Store(m, a, w);
    assert [s(a), s(a + 1), s(a + 2), s(a + 3)] == Bytes32(w);
    LoadBytes32(Bytes32(w), 0, w);
  }

  /** A word over unchanged bytes is unchanged. */
  lemma LoadKept(m: Memory, m': Memory, a: int)
    requires forall x :: a <= x < a + WORD ==> m'(x) == m(x)
    ensures Load(m', a) == Load(m, a)
  {
    assert m'(a) == m(a) && m'(a + 1) == m(a + 1) && m'(a + 2) == m(a + 2) && m'(a + 3) == m(a + 3);
  }

  /** Words that are equal have equal bytes. */
  lemma LoadBytes(m: Memory, a: int, k: nat)
    requires k < WORD
    ensures Bytes32(Load(m, a))[k] == m(a + k)
  {
    hide Bytes32;
    BytesOfDigits(m(a), m(a + 1), m(a + 2), m(a + 3));
    assert [m(a), m(a + 1), m(a + 2), m(a + 3)][k] == m(a + k);
  }
}
