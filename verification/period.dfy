/** Every sequence of the generator is purely periodic: the transition is injective on a finite set
  * of effective states, so it comes back to where it started. */
module Period {
  import opened Words
  import opened Recurrence
  import opened Tempering
  import opened Generators

  const BASE: nat := 0x1_0000_0000

  function Power(n: nat): (p: nat)
    ensures p > 0
  {
    if n == 0 then 1 else BASE * Power(n - 1)
  }

  function Digit(w: bv32): (d: nat)
    ensures d < BASE
  {
    w as nat
  }

  /** The words as the digits of one number. */
  function Code(s: seq<bv32>): (c: nat)
    ensures c < Power(|s|)
  {
    if s == [] then 0 else Digit(s[0]) + BASE * Code(s[1..])
  }

  lemma CodeUnfolds(s: seq<bv32>)
    requires s != []
    ensures Code(s) == Digit(s[0]) + BASE * Code(s[1..])
  {
    hide Digit;
  }

  lemma {:induction false} CodeInjective(a: seq<bv32>, b: seq<bv32>)
    requires |a| == |b|
    requires Code(a) == Code(b)
    ensures a == b
  {
    hide Digit, Code, Power;
    if a != [] {
      CodeUnfolds(a);
      CodeUnfolds(b);
      DigitsUnique(Digit(a[0]), Code(a[1..]), Digit(b[0]), Code(b[1..]));
      DigitInjective(a[0], b[0]);
      CodeInjective(a[1..], b[1..]);
      assert a == [a[0]] + a[1..] && b == [b[0]] + b[1..];
    }
  }

  lemma DigitsUnique(d: nat, c: nat, d': nat, c': nat)
    requires d < BASE && d' < BASE
    requires d + BASE * c == d' + BASE * c'
    ensures d == d' && c == c'
  {
  }

  lemma DigitInjective(v: bv32, w: bv32)
    requires Digit(v) == Digit(w)
    ensures v == w
  {
    WordFromNat(v, w);
  }

  /** More numbers below `bound` than `bound`: two of them are equal. */
  lemma {:induction false} Pigeonhole(xs: seq<nat>, bound: nat) returns (i: nat, j: nat)
    requires |xs| > bound
    requires forall k :: 0 <= k < |xs| ==> xs[k] < bound
    ensures i < j < |xs| && xs[i] == xs[j]
    decreases bound
  {
    var last := |xs| - 1;
    if k :| 0 <= k < last && xs[k] == xs[last] {
      return k, last;
    }
    // No other entry equals the last one: drop it and close the gap it leaves below the bound.
    var x := xs[last];
    var ys := seq(last, k requires 0 <= k < last => if xs[k] > x then xs[k] - 1 else xs[k]);
    i, j := Pigeonhole(ys, bound - 1);
    assert ys[i] == ys[j];
  }

  lemma {:induction false} CodeOfZeros(n: nat)
    ensures Code(seq(n, _ => 0 as bv32)) == 0
  {
    if n > 0 {
      var s := seq(n, _ => 0 as bv32);
      assert s[1..] == seq(n - 1, _ => 0 as bv32);
      CodeOfZeros(n - 1);
    }
  }

  /** The number of effective states: 2 * 2^(32 * 623) = 2^19937. */
  function States(): (n: nat)
    ensures n >= 2
  {
    2 * Power(N - 1)
  }

  /** The number of an effective state. */
  function Index(b: Block): (c: nat)
    ensures c < States()
  {
    (if HiBit(b[0]) == 0 then 0 else 1) + 2 * Code(b[1..])
  }

  lemma OneBit(x: bv32)
    ensures HiBit(x) == 0 || HiBit(x) == 0x8000_0000
  {
  }

  lemma IndexInjective(a: Block, b: Block)
    ensures Index(a) == Index(b) <==> SameState(a, b)
  {
    SameStateSlots(a, b);
    OneBit(a[0]);
    OneBit(b[0]);
    hide Code, HiBit, Power;
    if Index(a) == Index(b) {
      CodeInjective(a[1..], b[1..]);
      forall i | 1 <= i < N
        ensures a[i] == b[i]
      {
        assert a[i] == a[1..][i - 1] && b[i] == b[1..][i - 1];
      }
    }
    if SameState(a, b) {
      assert a[1..] == b[1..];
    }
  }

  lemma ZeroIndex(b: Block)
    ensures Index(b) == 0 <==> SameState(b, ZERO)
  {
    IndexInjective(b, ZERO);
    CodeOfZeros(N - 1);
    assert ZERO[1..] == seq(N - 1, _ => 0 as bv32);
    hide Power;
  }

  /** The number, less one, of the nonzero effective state after t steps. */
  ghost function Visit(s: Block, t: nat): (c: nat)
    requires !SameState(s, ZERO)
    ensures c < States() - 1
  {
    ZeroIsolated(s, t);
    ZeroIndex(Window(s, t));
    Index(Window(s, t)) - 1
  }

  /** At most 2^19937 - 1 steps lead back to the effective state one started from. */
  lemma StateRecurs(s: Block) returns (p: nat)
    requires !SameState(s, ZERO)
    ensures 0 < p < States()
    ensures SameState(Window(s, p), s)
  {
    hide Window, Canon, Step, Index, States;
    var visits := seq(States(), t requires 0 <= t => Visit(s, t));
    var i, j := Pigeonhole(visits, States() - 1);
    assert Visit(s, i) == Visit(s, j);
    IndexInjective(Window(s, i), Window(s, j));
    p := j - i;
    WindowWindow(s, p, i);
    TransitionInjective(Window(s, p), s, i);
  }

  /** The outputs of a seeded generator repeat with period p exactly when the effective state does. */
  lemma PeriodExactly(s: Block, p: nat)
    ensures (forall t: nat :: Stream(Seeded(s), t + p) == Stream(Seeded(s), t)) <==> SameState(Window(s, p), s)
  {
    hide Stream, Window, Canon;
    if forall t: nat :: Stream(Seeded(s), t + p) == Stream(Seeded(s), t) {
      forall j | 0 <= j < N
        ensures Stream(Seeded(Window(s, p)), j) == Stream(Seeded(s), j)
      {
        LaterStream(s, j, p);
      }
      SeedStateFromOutputs(Window(s, p), s, 0);
    }
    if SameState(Window(s, p), s) {
      forall t: nat
        ensures Stream(Seeded(s), t + p) == Stream(Seeded(s), t)
      {
        StreamShift(s, t, p);
      }
    }
  }

  /** Seeding from the array p steps on gives the same outputs, p places earlier. */
  lemma LaterStream(s: Block, t: nat, p: nat)
    ensures Stream(Seeded(Window(s, p)), t) == Stream(Seeded(s), t + p)
  {
    hide Temper, X, Window;
    WindowX(Window(s, p), N, t);
    WindowX(s, p, N + t);
    WindowX(s, N, t + p);
  }

  lemma StreamShift(s: Block, t: nat, p: nat)
    requires SameState(Window(s, p), s)
    ensures Stream(Seeded(s), t + p) == Stream(Seeded(s), t)
  {
    hide Temper, X, Window, Canon;
    WindowX(s, N, t + p);
    WindowX(s, N, t);
    WindowX(s, p, N + t);
    SameStateSameSequence(Window(s, p), s, N + t);
  }

  /** The output stream of a seeded generator repeats from its first output on, with a period of at
    * most 2^19937 - 1. */
  lemma StreamPeriodic(s: Block) returns (p: nat)
    requires !SameState(s, ZERO)
    ensures 0 < p < States()
    ensures forall t: nat :: Stream(Seeded(s), t + p) == Stream(Seeded(s), t)
  {
    p := StateRecurs(s);
    PeriodExactly(s, p);
  }

  function Two(n: nat): (p: nat)
    ensures p > 0
  {
    if n == 0 then 1 else 2 * Two(n - 1)
  }

  lemma {:induction false} TwoAdds(m: nat, n: nat)
    ensures Two(m + n) == Two(m) * Two(n)
  {
    if m > 0 {
      TwoAdds(m - 1, n);
    }
  }

  lemma TwoOfThirtyTwo()
    ensures Two(32) == 0x1_0000_0000
  {
    assert Two(2) == 4;
    TwoAdds(2, 2);
    TwoAdds(4, 4);
    TwoAdds(8, 8);
    TwoAdds(16, 16);
  }

  lemma {:induction false} PowerIsTwo(n: nat)
    ensures Power(n) == Two(32 * n)
  {
    if n > 0 {
      PowerIsTwo(n - 1);
      TwoAdds(32, 32 * (n - 1));
      TwoOfThirtyTwo();
      hide Two;
    }
  }

  /** The bound on the period, as a power of two. */
  lemma StatesArePower()
    ensures States() == Two(19937)
  {
    hide Power, Two;
    PowerIsTwo(623);
    TwoOnce(19936);
  }

  lemma TwoOnce(n: nat)
    ensures Two(n + 1) == 2 * Two(n)
  {
  }
}
