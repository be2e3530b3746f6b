/**
  What several modules share: an optional value, bytes, the sizes of machine words, powers of two.
 */
module Common {

  datatype Option<+T> = None | Some(value: T)

  type byte = x: int | 0 <= x < 256
  type Bytes = seq<byte>

  const U16 := 0x1_0000
  const U32 := 0x1_0000_0000
  const U64 := 0x1_0000_0000_0000_0000

  function Pow2(k: nat): (p: nat)
    ensures p > 0
  {
    if k == 0 then 1 else 2 * Pow2(k - 1)
  }

  lemma Pow2Of32()
    ensures Pow2(16) == U16 && Pow2(32) == U32
  {
    assert Pow2(8) == 0x100;
    assert Pow2(16) == 0x100 * Pow2(8);
    assert Pow2(24) == 0x100 * Pow2(16);
    assert Pow2(32) == 0x100 * Pow2(24);
  }

  /** A value computed in 32 bits. */
  function Wrapped(x: nat): (r: nat)
    ensures r < U32 && (x < U32 ==> r == x)
  {
    x % U32
  }

  /** One for a condition that holds. */
  function One(p: bool): (n: nat) { if p then 1 else 0 }
}
