/** The C operators on `unsigned long`, and what they do to the low 32 bits.
  *
  * The operators that can leave the word cut their result to the word of the platform.
  */
module CWords {
  import opened Words

  const MASK: bv64 := 0xffff_ffff

  function Add(p: Platform, x: bv64, y: bv64): bv64 {
    Wrap(p, x + y)
  }

  function Sub(p: Platform, x: bv64, y: bv64): bv64 {
    Wrap(p, x - y)
  }

  function Mul(p: Platform, x: bv64, y: bv64): bv64 {
    Wrap(p, x * y)
  }

  function Neg(p: Platform, x: bv64): bv64 {
    Wrap(p, 0 - x)
  }

  function Shl(p: Platform, x: bv64, k: bv6): bv64 {
    Wrap(p, x << k)
  }

  function Shr(x: bv64, k: bv6): bv64 {
    x >> k
  }

  function And(x: bv64, y: bv64): bv64 {
    x & y
  }

  function Or(x: bv64, y: bv64): bv64 {
    x | y
  }

  function Eor(x: bv64, y: bv64): bv64 {
    x ^ y
  }

  // ---------- The low half of results ----------

  lemma LowWrap(p: Platform, x: bv64)
    ensures Low(Wrap(p, x)) == Low(x)
  {
    assert Low(x & 0xffff_ffff) == (x & 0xffff_ffff) as bv32;
  }

  lemma LowAddRaw(x: bv64, y: bv64)
    ensures Low(x + y) == Plus((x & 0xffff_ffff) as bv32, (y & 0xffff_ffff) as bv32)
  {
  }

  lemma LowIs(x: bv64)
    ensures Low(x) == (x & 0xffff_ffff) as bv32
  {
  }

  lemma LowAdd(p: Platform, x: bv64, y: bv64)
    ensures Low(Add(p, x, y)) == Plus(Low(x), Low(y))
  {
    hide Low, Wrap, Plus;
    LowWrap(p, x + y);
    LowAddRaw(x, y);
    LowIs(x);
    LowIs(y);
  }

  lemma LowSubRaw(x: bv64, y: bv64)
    ensures Low(x - y) == Minus((x & 0xffff_ffff) as bv32, (y & 0xffff_ffff) as bv32)
  {
  }

  lemma LowSub(p: Platform, x: bv64, y: bv64)
    ensures Low(Sub(p, x, y)) == Minus(Low(x), Low(y))
  {
    hide Low, Wrap, Minus;
    LowWrap(p, x - y);
    LowSubRaw(x, y);
    LowIs(x);
    LowIs(y);
  }

  lemma LowEorRaw(x: bv64, y: bv64)
    ensures Low(x ^ y) == Xor((x & 0xffff_ffff) as bv32, (y & 0xffff_ffff) as bv32)
  {
  }

  lemma LowEor(x: bv64, y: bv64)
    ensures Low(Eor(x, y)) == Xor(Low(x), Low(y))
  {
    hide Low, Xor;
    LowEorRaw(x, y);
    LowIs(x);
    LowIs(y);
  }

  /** A product modulo 2^32. */
  function Times32(c: bv32, x: bv32): bv32 {
    c * x
  }

  lemma LowMulRaw(x: bv64, y: bv64)
    ensures Low(x * y) == Times32((x & 0xffff_ffff) as bv32, (y & 0xffff_ffff) as bv32)
  {
  }

  lemma LowMul(p: Platform, x: bv64, y: bv64)
    ensures Low(Mul(p, x, y)) == Times32(Low(x), Low(y))
  {
    hide Low, Wrap, Times32;
    LowWrap(p, x * y);
    LowMulRaw(x, y);
    LowIs(x);
    LowIs(y);
  }

  /** Masking keeps exactly the low half. */
  lemma AndMask(x: bv64)
    ensures And(x, MASK) == Wide(Low(x))
  {
    MaskIsLow(x);
  }

  // ---------- Words that fit in 32 bits stay so ----------

  // The same operators on 32-bit words.

  function And32(x: bv32, y: bv32): bv32 {
    x & y
  }

  function Or32(x: bv32, y: bv32): bv32 {
    x | y
  }

  function Shr32(x: bv32, k: bv6): bv32
    requires k < 32
  {
    x >> k
  }

  function Shl32(x: bv32, k: bv6): bv32
    requires k < 32
  {
    x << k
  }

  lemma And32Is(x: bv32, y: bv32)
    ensures And32(x, y) == x & y
  {
  }

  lemma Or32Is(x: bv32, y: bv32)
    ensures Or32(x, y) == x | y
  {
  }

  lemma EorRaw(x: bv32, y: bv32)
    ensures Eor(x as bv64, y as bv64) == Wide(x ^ y)
  {
  }

  lemma EorWide(x: bv32, y: bv32)
    ensures Eor(Wide(x), Wide(y)) == Wide(Xor(x, y))
  {
    hide Eor, Xor, Wide;
    WideIs(x);
    WideIs(y);
    EorRaw(x, y);
    XorIs(x, y);
  }

  lemma AndRaw(x: bv32, y: bv32)
    ensures And(x as bv64, y as bv64) == Wide(x & y)
  {
  }

  lemma AndWide(x: bv32, y: bv32)
    ensures And(Wide(x), Wide(y)) == Wide(And32(x, y))
  {
    hide And, And32, Wide;
    WideIs(x);
    WideIs(y);
    AndRaw(x, y);
    And32Is(x, y);
  }

  lemma OrRaw(x: bv32, y: bv32)
    ensures (x as bv64) | (y as bv64) == (x | y) as bv64
  {
  }

  lemma OrIs(x: bv64, y: bv64)
    ensures Or(x, y) == x | y
  {
  }

  lemma OrWide(x: bv32, y: bv32)
    ensures Or(Wide(x), Wide(y)) == Wide(Or32(x, y))
  {
    hide Or, Or32, Wide;
    WideIs(x);
    WideIs(y);
    OrIs(x as bv64, y as bv64);
    OrRaw(x, y);
    WideIs(x | y);
    Or32Is(x, y);
  }

  lemma ShrWide(x: bv32, k: bv6)
    requires k < 32
    ensures Shr(Wide(x), k) == Wide(Shr32(x, k))
  {
    assert Shr(x as bv64, k) == Wide(x >> k);
  }

  // The bits that a left shift pushes beyond bit 31 are cleared by a 32-bit mask.

  lemma MaskedShlRaw(p: Platform, x: bv32, k: bv6, c: bv32)
    requires k < 32
    ensures And(if p.LP64? then (x as bv64) << k else ((x as bv64) << k) & 0xffff_ffff, c as bv64)
         == Wide((x << k) & c)
  {
  }

  lemma ShlRaw(p: Platform, x: bv64, k: bv6)
    ensures Shl(p, x, k) == if p.LP64? then x << k else (x << k) & 0xffff_ffff
  {
  }

  lemma ShlIs(p: Platform, x: bv32, k: bv6)
    requires k < 32
    ensures Shl(p, Wide(x), k) == if p.LP64? then (x as bv64) << k else ((x as bv64) << k) & 0xffff_ffff
  {
    hide Shl, Wide;
    WideIs(x);
    ShlRaw(p, x as bv64, k);
  }

  lemma MaskedShl32Is(x: bv32, k: bv6, c: bv32)
    requires k < 32
    ensures And32(Shl32(x, k), c) == (x << k) & c
  {
    assert And32(x << k, c) == (x << k) & c;
  }

  lemma MaskedShlWide(p: Platform, x: bv32, k: bv6, c: bv32)
    requires k < 32
    ensures And(Shl(p, Wide(x), k), Wide(c)) == Wide(And32(Shl32(x, k), c))
  {
    hide And, Shl, Wide, And32, Shl32;
    WideIs(c);
    MaskedShlRaw(p, x, k, c);
    ShlIs(p, x, k);
    MaskedShl32Is(x, k, c);
  }

  predicate Greater(x: bv64, y: bv64) {
    x > y
  }

  predicate Greater32(x: bv32, y: bv32) {
    x > y
  }

  lemma GreaterRaw(x: bv32, y: bv32)
    ensures Greater(x as bv64, y as bv64) <==> Greater32(x, y)
  {
  }

  lemma GreaterWide(x: bv32, y: bv32)
    ensures Greater(Wide(x), Wide(y)) <==> Greater32(x, y)
  {
    hide Wide, Greater, Greater32;
    GreaterRaw(x, y);
    WideIs(x);
    WideIs(y);
  }

  lemma NatRaw(x: bv32)
    ensures (x as bv64) as nat == x as nat
  {
  }

  lemma NatWide(x: bv32)
    ensures Wide(x) as nat == x as nat
  {
    hide Wide;
    NatRaw(x);
    WideIs(x);
  }
}
