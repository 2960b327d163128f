/** The word computations of the generator as they run in `unsigned long`, on either platform, each
  * equal to its 32-bit counterpart. */
module Machine {
  import opened Words
  import opened CWords
  import opened Recurrence
  import opened Tempering
  import opened Generators
  import opened Seeding
  import opened Draws

  // ---------- The twist ----------

  function MixBits(u: bv64, v: bv64): bv64 {
    Or(And(u, 0x8000_0000), And(v, 0x7fff_ffff))
  }

  /** The new word from the words M, 0 and 1 places further; the sign-extended low bit selects the
    * constant. */
  function Twist(p: Platform, m: bv64, s0: bv64, s1: bv64): bv64 {
    Eor(Eor(m, Shr(MixBits(s0, s1), 1)), And(Neg(p, And(s1, 1)), 0x9908_b0df))
  }

  function Selected(x: bv32): bv32 {
    if x & 1 == 0 then 0 else 0x9908_b0df
  }

  lemma SelectRaw(p: Platform, x: bv32)
    ensures And(if p.LP64? then 0 - ((x & 1) as bv64) else (0 - ((x & 1) as bv64)) & 0xffff_ffff, 0x9908_b0df)
            == (if x & 1 == 0 then 0 else 0x9908_b0df as bv32) as bv64
  {
  }

  lemma NegIs(p: Platform, x: bv32)
    ensures Neg(p, x as bv64) == if p.LP64? then 0 - (x as bv64) else (0 - (x as bv64)) & 0xffff_ffff
  {
  }

  lemma SelectedIs(x: bv32)
    ensures Wide(Selected(x)) == (if x & 1 == 0 then 0 else 0x9908_b0df as bv32) as bv64
  {
    assert Wide(if x & 1 == 0 then 0 else 0x9908_b0df) == (if x & 1 == 0 then 0 else 0x9908_b0df as bv32) as bv64;
  }

  lemma SelectWide(p: Platform, x: bv32)
    ensures And(Neg(p, And(Wide(x), 1)), 0x9908_b0df) == Wide(Selected(x))
  {
    hide And, Neg, Wide, And32, Selected;
    assert Wide(1) == 1 by { WideIs(1); }
    AndWide(x, 1);
    And32Is(x, 1);
    WideIs(x & 1);
    NegIs(p, x & 1);
    SelectRaw(p, x);
    SelectedIs(x);
  }

  lemma JoinRaw(u: bv32, v: bv32)
    ensures Or32(u & 0x8000_0000, v & 0x7fff_ffff) == Join(u, v)
  {
  }

  lemma JoinIs(u: bv32, v: bv32)
    ensures Join(u, v) == Or32(And32(u, 0x8000_0000), And32(v, 0x7fff_ffff))
  {
    hide Or32, And32, Join;
    And32Is(u, 0x8000_0000);
    And32Is(v, 0x7fff_ffff);
    JoinRaw(u, v);
  }

  lemma MixBitsWide(u: bv32, v: bv32)
    ensures MixBits(Wide(u), Wide(v)) == Wide(Join(u, v))
  {
    hide And, Or, Wide, And32, Or32, Join;
    assert Wide(0x8000_0000) == 0x8000_0000 by { WideIs(0x8000_0000); }
    assert Wide(0x7fff_ffff) == 0x7fff_ffff by { WideIs(0x7fff_ffff); }
    AndWide(u, 0x8000_0000);
    AndWide(v, 0x7fff_ffff);
    OrWide(And32(u, 0x8000_0000), And32(v, 0x7fff_ffff));
    JoinIs(u, v);
  }

  /** The branch-free form of the product with A. */
  lemma TimesASelects(u: bv32, v: bv32)
    ensures TimesA(Join(u, v)) == Xor(Shr32(Join(u, v), 1), Selected(v))
  {
    assert TimesA((u & 0x8000_0000) | (v & 0x7fff_ffff))
        == Xor(Shr32((u & 0x8000_0000) | (v & 0x7fff_ffff), 1), if v & 1 == 0 then 0 else 0x9908_b0df);
  }

  lemma TwistIsNext(p: Platform, m: bv32, u: bv32, v: bv32)
    ensures Twist(p, Wide(m), Wide(u), Wide(v)) == Wide(Next(m, u, v))
  {
    hide And, Or, Eor, Shr, Neg, Wide, MixBits, Join, Xor, Selected, TimesA, Shr32;
    var half := Shr32(Join(u, v), 1);
    MixBitsWide(u, v);
    ShrWide(Join(u, v), 1);
    SelectWide(p, v);
    EorWide(m, half);
    EorWide(Xor(m, half), Selected(v));
    XorAssociates(m, half, Selected(v));
    TimesASelects(u, v);
  }

  // ---------- Tempering ----------

  /** The four steps of `randInt`. */
  function TemperWord(p: Platform, w: bv64): bv64 {
    var s1 := Eor(w, Shr(w, 11));
    var s2 := Eor(s1, And(Shl(p, s1, 7), 0x9d2c_5680));
    var s3 := Eor(s2, And(Shl(p, s2, 15), 0xefc6_0000));
    Eor(s3, Shr(s3, 18))
  }

  lemma RightStepIs(w: bv32, k: bv6)
    requires k < 32
    ensures RightStep(w, k) == Xor(w, Shr32(w, k))
  {
    assert Xor(w, w >> k) == RightStep(w, k);
  }

  lemma RightStepWide(w: bv32, k: bv6)
    requires k < 32
    ensures Eor(Wide(w), Shr(Wide(w), k)) == Wide(RightStep(w, k))
  {
    hide Eor, Shr, Wide, Xor, Shr32, RightStep;
    ShrWide(w, k);
    EorWide(w, Shr32(w, k));
    RightStepIs(w, k);
  }

  lemma LeftStepRaw(w: bv32, k: bv6, c: bv32)
    requires k < 32
    ensures LeftStep(w, k, c) == Xor(w, (w << k) & c)
  {
  }

  lemma LeftStepIs(w: bv32, k: bv6, c: bv32)
    requires k < 32
    ensures LeftStep(w, k, c) == Xor(w, And32(Shl32(w, k), c))
  {
    hide Xor, And32, Shl32, LeftStep;
    MaskedShl32Is(w, k, c);
    LeftStepRaw(w, k, c);
  }

  lemma LeftStepWide(p: Platform, w: bv32, k: bv6, c: bv32)
    requires k < 32
    ensures Eor(Wide(w), And(Shl(p, Wide(w), k), Wide(c))) == Wide(LeftStep(w, k, c))
  {
    hide Eor, And, Shl, Wide, Xor, And32, Shl32, LeftStep;
    MaskedShlWide(p, w, k, c);
    EorWide(w, And32(Shl32(w, k), c));
    LeftStepIs(w, k, c);
  }

  lemma MasksWide()
    ensures Wide(C7) == 0x9d2c_5680 && Wide(C15) == 0xefc6_0000
  {
  }

  lemma TemperWide(p: Platform, w: bv32)
    ensures TemperWord(p, Wide(w)) == Wide(Temper(w))
  {
    hide Eor, Shr, And, Shl, Wide, RightStep, LeftStep, C7, C15;
    var s1 := RightStep(w, 11);
    var s2 := LeftStep(s1, 7, C7);
    var s3 := LeftStep(s2, 15, C15);
    MasksWide();
    RightStepWide(w, 11);
    LeftStepWide(p, s1, 7, C7);
    LeftStepWide(p, s2, 15, C15);
    RightStepWide(s3, 18);
  }

  // ---------- Seeding ----------

  /** `w ^ (w >> 30)`. */
  function Fold(w: bv64): bv64 {
    Eor(w, Shr(w, 30))
  }

  function Fold32(x: bv32): bv32 {
    RightStep(x, 30)
  }

  lemma FoldWide(x: bv32)
    ensures Fold(Wide(x)) == Wide(Fold32(x))
  {
    hide Eor, Shr, Wide, RightStep;
    RightStepWide(x, 30);
  }

  lemma LowLiteral(c: bv32)
    ensures Low(c as bv64) == c
  {
    LowWide(c);
  }

  /** A word of `initialize`. */
  function GrowWord(p: Platform, prev: bv64, i: nat): bv64
    requires i < N
  {
    And(Add(p, Mul(p, 1812433253, Fold(prev)), i as bv64), MASK)
  }

  lemma GrowIs(x: bv32, i: bv32)
    ensures Grow(x, i) == Plus(Times32(1812433253, Fold32(x)), i)
  {
    assert Times32(1812433253, x ^ (x >> 30)) == 1812433253 * (x ^ (x >> 30));
    assert Plus(1812433253 * (x ^ (x >> 30)), i) == Grow(x, i);
  }

  lemma GrowWide(p: Platform, x: bv32, i: nat)
    requires i < N
    ensures GrowWord(p, Wide(x), i) == Wide(Grow(x, Num(i)))
  {
    hide And, Add, Mul, Fold, Wide, Low, Times32, Fold32, Plus, Grow;
    FoldWide(x);
    LowWide(Fold32(x));
    LowLiteral(1812433253);
    LowMul(p, 1812433253, Wide(Fold32(x)));
    LowAdd(p, Mul(p, 1812433253, Fold(Wide(x))), i as bv64);
    AndMask(Add(p, Mul(p, 1812433253, Fold(Wide(x))), i as bv64));
    GrowIs(x, Num(i));
  }

  /** What the first pass leaves in a slot: two assignments and the mask. */
  function FirstPassWord(p: Platform, cur: bv64, prev: bv64, keyWord: bv64, j: nat): bv64
    requires j < MAX_KEY
  {
    And(Add(p, Eor(cur, Mul(p, Fold(prev), 1664525)), Add(p, And(keyWord, MASK), j as bv64)), MASK)
  }

  lemma Mix1Is(x: bv32)
    ensures Mix1(x) == Times32(Fold32(x), 1664525)
  {
    assert Times32(x ^ (x >> 30), 1664525) == Mix1(x);
  }

  lemma FirstPassWide(p: Platform, cur: bv32, prev: bv32, keyWord: bv64, j: nat)
    requires j < MAX_KEY
    ensures FirstPassWord(p, Wide(cur), Wide(prev), keyWord, j)
         == Wide(Plus(Xor(cur, Mix1(prev)), Plus(Low(keyWord), Num(j))))
  {
    hide And, Add, Mul, Eor, Fold, Wide, Low, Times32, Fold32, Plus, Xor, Mix1;
    var product := Mul(p, Fold(Wide(prev)), 1664525);
    var mixed := Eor(Wide(cur), product);
    var share := Add(p, And(keyWord, MASK), j as bv64);
    FoldWide(prev);
    LowWide(Fold32(prev));
    LowLiteral(1664525);
    LowMul(p, Wide(Fold32(prev)), 1664525);
    Mix1Is(prev);
    LowWide(cur);
    LowEor(Wide(cur), product);
    AndMask(keyWord);
    LowWide(Low(keyWord));
    LowAdd(p, And(keyWord, MASK), j as bv64);
    LowAdd(p, mixed, share);
    AndMask(Add(p, mixed, share));
  }

  /** What the second pass leaves in slot i. */
  function SecondPassWord(p: Platform, cur: bv64, prev: bv64, i: nat): bv64
    requires i < N
  {
    And(Sub(p, Eor(cur, Mul(p, Fold(prev), 1566083941)), i as bv64), MASK)
  }

  lemma Mix2Is(x: bv32)
    ensures Mix2(x) == Times32(Fold32(x), 1566083941)
  {
    assert Times32(x ^ (x >> 30), 1566083941) == Mix2(x);
  }

  lemma SecondPassWide(p: Platform, cur: bv32, prev: bv32, i: nat)
    requires i < N
    ensures SecondPassWord(p, Wide(cur), Wide(prev), i) == Wide(Minus(Xor(cur, Mix2(prev)), Num(i)))
  {
    hide And, Sub, Mul, Eor, Fold, Wide, Low, Times32, Fold32, Minus, Xor, Mix2;
    var product := Mul(p, Fold(Wide(prev)), 1566083941);
    var mixed := Eor(Wide(cur), product);
    FoldWide(prev);
    LowWide(Fold32(prev));
    LowLiteral(1566083941);
    LowMul(p, Wide(Fold32(prev)), 1566083941);
    Mix2Is(prev);
    LowWide(cur);
    LowEor(Wide(cur), product);
    LowSub(p, mixed, i as bv64);
    AndMask(Sub(p, mixed, i as bv64));
  }

  // ---------- Bounded draws ----------

  /** The five assignments that compute the mask. */
  function SmearWord(n: bv64): bv64 {
    var a := Or(n, Shr(n, 1));
    var b := Or(a, Shr(a, 2));
    var c := Or(b, Shr(b, 4));
    var d := Or(c, Shr(c, 8));
    Or(d, Shr(d, 16))
  }

  lemma SmearedWide(x: bv32, k: bv6)
    requires k < 32
    ensures Or(Wide(x), Shr(Wide(x), k)) == Wide(Smeared(x, k))
  {
    hide Or, Shr, Wide, Or32, Shr32, Smeared;
    ShrWide(x, k);
    OrWide(x, Shr32(x, k));
    SmearedOr(x, k);
  }

  lemma SmearedOr(x: bv32, k: bv6)
    requires k < 32
    ensures Smeared(x, k) == Or32(x, Shr32(x, k))
  {
    assert Or32(x, x >> k) == Smeared(x, k);
  }

  lemma SmearWide(n: bv32)
    ensures SmearWord(Wide(n)) == Wide(Smear(n))
  {
    hide Or, Shr, Wide, Smeared;
    var a := Smeared(n, 1);
    var b := Smeared(a, 2);
    var c := Smeared(b, 4);
    var d := Smeared(c, 8);
    SmearedWide(n, 1);
    SmearedWide(a, 2);
    SmearedWide(b, 4);
    SmearedWide(c, 8);
    SmearedWide(d, 16);
  }

  /** The test of the rejection loop, on machine words. */
  lemma RejectionTest(g: Generator, n: bv32, t: nat)
    requires g.Valid()
    ensures And(Wide(Stream(g, t)), Wide(Smear(n))) == Wide(Masked(g, n, t))
    ensures Greater(Wide(Masked(g, n, t)), Wide(n)) <==> !Accepts(g, n, t)
  {
    hide And, And32, Wide, Stream, Smear, Greater, Greater32;
    AndWide(Stream(g, t), Smear(n));
    GreaterWide(Masked(g, n, t), n);
  }

  // ---------- 53-bit draws ----------

  lemma ShrNat(w: bv32, k: bv6)
    requires k < 32
    ensures Shr(Wide(w), k) as nat == Upper(w, k)
  {
    hide Shr, Wide, Shr32;
    ShrWide(w, k);
    NatWide(Shr32(w, k));
    Shr32Is(w, k);
  }

  lemma UpperBits(w1: bv32, w2: bv32)
    ensures Shr(Wide(w1), 5) as nat * 0x400_0000 + Shr(Wide(w2), 6) as nat == Numerator(w1, w2)
  {
    hide Shr, Wide, Upper;
    ShrNat(w1, 5);
    ShrNat(w2, 6);
  }

  lemma Shr32Is(w: bv32, k: bv6)
    requires k < 32
    ensures Shr32(w, k) == w >> k
  {
  }
}
