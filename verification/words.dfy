/** Machine words: `unsigned long` on the two data models the headers compile under.
  *
  * A word is held in a `bv64`; on ILP32 every arithmetic result is cut to 32 bits by `Wrap`.
  * Proofs about one word apply an operation to the written-out argument, such as
  * `Xor(x ^ y, x)`: there the solver normalises both sides to the same term.
  */
module Words {

  /** ILP32: `unsigned long` has 32 bits.  LP64: it has 64 bits. */
  datatype Platform = ILP32 | LP64

  /** What an `unsigned long` of platform `p` keeps of an arithmetic result. */
  function Wrap(p: Platform, x: bv64): bv64 {
    if p.LP64? then x else x & 0xffff_ffff
  }

  /** The low 32 bits of a machine word. */
  function Low(x: bv64): bv32 {
    (x & 0xffff_ffff) as bv32
  }

  /** A 32-bit word stored in an `unsigned long`. */
  function Wide(x: bv32): bv64 {
    x as bv64
  }

  /** An index added to, or subtracted from, a state word. */
  function Num(i: nat): bv32
    requires i < 0x1_0000_0000
  {
    Low(i as bv64)
  }

  lemma WideIs(x: bv32)
    ensures Wide(x) == x as bv64
  {
  }

  lemma LowWide(x: bv32)
    ensures Low(Wide(x)) == x
    ensures Wide(x) & 0xffff_ffff == Wide(x)
  {
    assert ((x as bv64) & 0xffff_ffff) as bv32 == x;
    assert (x as bv64) & 0xffff_ffff == x as bv64;
  }

  lemma MaskIsLow(x: bv64)
    ensures x & 0xffff_ffff == Wide(Low(x))
  {
    assert x & 0xffff_ffff == ((x & 0xffff_ffff) as bv32) as bv64;
  }

  /** Equal integers mean equal words. */
  lemma WordFromNat(x: bv32, y: bv32)
    requires x as nat == y as nat
    ensures x == y
  {
    assert x == (x as nat) as bv32;
    assert y == (y as nat) as bv32;
  }

  // Exclusive or, sum and difference as named operations: congruence over them costs the solver nothing.

  function Xor(x: bv32, y: bv32): bv32 {
    x ^ y
  }

  lemma XorRaw(x: bv32, y: bv32)
    ensures Xor(x ^ y, x) == y
    ensures Xor(x ^ y, y) == x
  {
  }

  lemma XorCancels(x: bv32, y: bv32)
    ensures Xor(Xor(x, y), x) == y
    ensures Xor(Xor(x, y), y) == x
  {
    assert x ^ y == Xor(x, y);
    XorRaw(x, y);
    hide Xor;
  }

  lemma XorRegroup(a: bv32, b: bv32, c: bv32, d: bv32)
    ensures Xor(Xor(a, b), Xor(c, d)) == Xor(Xor(a, c), Xor(b, d))
  {
    assert Xor(a ^ b, c ^ d) == Xor(a ^ c, b ^ d);
  }

  lemma XorAssociates(x: bv32, y: bv32, z: bv32)
    ensures Xor(Xor(x, y), z) == Xor(x, Xor(y, z))
  {
    assert Xor(x ^ y, z) == Xor(x, y ^ z);
  }

  lemma XorCommutes(x: bv32, y: bv32)
    ensures Xor(x, y) == Xor(y, x)
  {
  }

  lemma XorSelf(x: bv32)
    ensures Xor(x, x) == 0
    ensures Xor(x, 0) == x
  {
  }

  function Plus(x: bv32, y: bv32): bv32 {
    x + y
  }

  function Minus(x: bv32, y: bv32): bv32 {
    x - y
  }

  lemma PlusIs(x: bv32, y: bv32)
    ensures Plus(x, y) == x + y
  {
  }

  lemma XorIs(x: bv32, y: bv32)
    ensures Xor(x, y) == x ^ y
  {
  }

  lemma PlusRegroup(x: bv32, y: bv32, z: bv32)
    ensures Plus(Plus(x, y), z) == Plus(x, Plus(y, z))
  {
    assert Plus(x + y, z) == Plus(x, y + z);
  }

  lemma PlusCommutes(x: bv32, y: bv32)
    ensures Plus(x, y) == Plus(y, x)
  {
  }

  lemma SumRaw(x: bv32, y: bv32)
    ensures Minus(x + y, y) == x
    ensures Minus(x + y, x) == y
  {
  }

  lemma SumCancels(x: bv32, y: bv32)
    ensures Minus(Plus(x, y), y) == x
    ensures Minus(Plus(x, y), x) == y
  {
    assert x + y == Plus(x, y);
    SumRaw(x, y);
    hide Plus, Minus;
  }

  lemma DifferenceRaw(x: bv32, y: bv32)
    ensures Plus(x - y, y) == x
    ensures Plus(y, x - y) == x
  {
  }

  lemma DifferenceCancels(x: bv32, y: bv32)
    ensures Plus(Minus(x, y), y) == x
    ensures Plus(y, Minus(x, y)) == x
  {
    assert x - y == Minus(x, y);
    DifferenceRaw(x, y);
    hide Plus, Minus;
  }
}
