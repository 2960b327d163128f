/** The tempering of output words, and its inverse. */
module Tempering {
  function RightStep(w: bv32, k: bv6): bv32
    requires k < 32
  {
    w ^ (w >> k)
  }

  function LeftStep(w: bv32, k: bv6, c: bv32): bv32
    requires k < 32
  {
    w ^ ((w << k) & c)
  }

  const C7: bv32 := 0x9d2c_5680
  const C15: bv32 := 0xefc6_0000

  /** The output word made from a state word. */
  function Temper(w: bv32): bv32 {
    RightStep(LeftStep(LeftStep(RightStep(w, 11), 7, C7), 15, C15), 18)
  }

  function Untemper11(y: bv32): bv32 {
    y ^ (y >> 11) ^ (y >> 22)
  }

  /** Each round recovers seven more bits from the low end. */
  function Untemper7(y: bv32): bv32 {
    var a := y ^ ((y << 7) & 0x9d2c_5680);
    var b := y ^ ((a << 7) & 0x9d2c_5680);
    var c := y ^ ((b << 7) & 0x9d2c_5680);
    y ^ ((c << 7) & 0x9d2c_5680)
  }

  /** The state word behind an output word; steps 15 and 18 are their own inverses. */
  function Untemper(y: bv32): bv32 {
    Untemper11(Untemper7(LeftStep(RightStep(y, 18), 15, C15)))
  }

  lemma RightStepsInvertible(w: bv32)
    ensures Untemper11(RightStep(w, 11)) == w && RightStep(Untemper11(w), 11) == w
    ensures RightStep(RightStep(w, 18), 18) == w
  {
    assert Untemper11(w ^ (w >> 11)) == w;
    assert RightStep(w ^ (w >> 11) ^ (w >> 22), 11) == w;
    assert RightStep(w ^ (w >> 18), 18) == w;
  }

  lemma Step15Invertible(w: bv32)
    ensures LeftStep(LeftStep(w, 15, C15), 15, C15) == w
  {
    assert LeftStep(w ^ ((w << 15) & 0xefc6_0000), 15, 0xefc6_0000) == w;
  }

  lemma Step7Invertible(w: bv32)
    ensures Untemper7(LeftStep(w, 7, C7)) == w && LeftStep(Untemper7(w), 7, C7) == w
  {
    assert Untemper7(w ^ ((w << 7) & 0x9d2c_5680)) == w;
    assert LeftStep(var a := w ^ ((w << 7) & 0x9d2c_5680);
                    var b := w ^ ((a << 7) & 0x9d2c_5680);
                    var c := w ^ ((b << 7) & 0x9d2c_5680);
                    w ^ ((c << 7) & 0x9d2c_5680), 7, 0x9d2c_5680) == w;
  }

  /** Tempering is a bijection on 32-bit words. */
  lemma TemperBijective(w: bv32)
    ensures Untemper(Temper(w)) == w
    ensures Temper(Untemper(w)) == w
  {
    hide RightStep, LeftStep, Untemper11, Untemper7;
    var s1 := RightStep(w, 11);
    var s2 := LeftStep(s1, 7, C7);
    var s3 := LeftStep(s2, 15, C15);
    RightStepsInvertible(s3);
    Step15Invertible(s2);
    Step7Invertible(s1);
    RightStepsInvertible(w);
    var t3 := RightStep(w, 18);
    var t2 := LeftStep(t3, 15, C15);
    Step15Invertible(t3);
    Step7Invertible(t2);
    RightStepsInvertible(Untemper7(t2));
  }

  lemma TemperInjective(u: bv32, v: bv32)
    requires Temper(u) == Temper(v)
    ensures u == v
  {
    TemperBijective(u);
    TemperBijective(v);
  }

  lemma RightIs(w: bv32, k: bv6)
    requires k < 32
    ensures RightStep(w, k) == w ^ (w >> k)
  {
  }

  lemma LeftIs(w: bv32, k: bv6, c: bv32)
    requires k < 32
    ensures LeftStep(w, k, c) == w ^ ((w << k) & c)
  {
  }

  /** The published form, with its shifts and masks, and one known word. */
  lemma TemperInLiterals(w: bv32)
    ensures Temper(w) == RightStep(LeftStep(LeftStep(RightStep(w, 11), 7, 0x9d2c_5680), 15, 0xefc6_0000), 18)
    ensures Temper(1) == 4194449
  {
  }
}
