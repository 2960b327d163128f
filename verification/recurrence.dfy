/** The linear recurrence of Matsumoto and Nishimura (1998), section 2.1, over GF(2):
  *   x(k+n) = x(k+m) xor (upper bit of x(k) | lower bits of x(k+1)) A
  * with n = 624, m = 397, and its transition on the 19937 effective bits.
  */
module Recurrence {
  import opened Words

  const N: nat := 624
  const M: nat := 397

  /** A state array of N words. */
  type Block = s: seq<bv32> | |s| == N witness seq(N, _ => 0)

  function HiBit(u: bv32): bv32 {
    u & 0x8000_0000
  }

  /** The upper bit of `u` followed by the lower 31 bits of `v`. */
  function Join(u: bv32, v: bv32): bv32 {
    (u & 0x8000_0000) | (v & 0x7fff_ffff)
  }

  /** The product of row vector `x` with the companion matrix A. */
  function TimesA(x: bv32): bv32 {
    if x & 1 == 0 then x >> 1 else (x >> 1) ^ 0x9908_b0df
  }

  /** The product with the inverse of A: the top bit tells whether the constant was added. */
  function TimesAInverse(y: bv32): bv32 {
    if y & 0x8000_0000 == 0 then y << 1 else ((y ^ 0x9908_b0df) << 1) | 1
  }

  /** One application of the recurrence to x(k+m), x(k) and x(k+1). */
  function Next(m: bv32, u: bv32, v: bv32): bv32 {
    Xor(m, TimesA(Join(u, v)))
  }

  /** Term j of the infinite sequence that starts with the words of `s`. */
  ghost function X(s: Block, j: nat): bv32 {
    if j < N then s[j] else Next(X(s, j - N + M), X(s, j - N), X(s, j - N + 1))
  }

  /** The N terms from position t on. */
  ghost function Window(s: Block, t: nat): Block {
    seq(N, i requires 0 <= i < N => X(s, t + i))
  }

  /** The sequence restarted at position t is the sequence itself, t places further. */
  lemma {:induction false} WindowX(s: Block, t: nat, j: nat)
    ensures X(Window(s, t), j) == X(s, t + j)
  {
    if j >= N {
      WindowX(s, t, j - N);
      WindowX(s, t, j - N + 1);
      WindowX(s, t, j - N + M);
    }
  }

  lemma WindowWindow(s: Block, t: nat, u: nat)
    ensures Window(Window(s, t), u) == Window(s, t + u)
  {
    forall i | 0 <= i < N
      ensures Window(Window(s, t), u)[i] == Window(s, t + u)[i]
    {
      WindowX(s, t, u + i);
    }
  }

  // ---------- One step of the transition, and its inverse ----------

  /** Drop x(k), append x(k+n). */
  function Step(s: Block): Block {
    s[1..] + [Next(s[M], s[0], s[1])]
  }

  lemma WindowStep(s: Block, t: nat)
    ensures Window(s, t + 1) == Step(Window(s, t))
    ensures Window(s, 0) == s
  {
    assert X(s, t + N) == Next(X(s, t + M), X(s, t), X(s, t + 1));
  }

  /** The effective part of an array: the lower 31 bits of its first word are cleared. */
  function Canon(s: Block): Block {
    s[0 := HiBit(s[0])]
  }

  /** The array before a step, as far as the effective bits tell. */
  function StepBack(w: Block): Block {
    var mixed := TimesAInverse(Xor(w[N - 1], w[M - 1]));
    [HiBit(mixed), Join(w[0], mixed)] + w[1..N - 1]
  }

  lemma TimesAThenBack(x: bv32)
    ensures TimesAInverse(TimesA(x)) == x
  {
    assert TimesAInverse(if x & 1 == 0 then x >> 1 else (x >> 1) ^ 0x9908_b0df) == x;
  }

  lemma BackThenTimesA(y: bv32)
    ensures TimesA(TimesAInverse(y)) == y
  {
    assert TimesA(if y & 0x8000_0000 == 0 then y << 1 else ((y ^ 0x9908_b0df) << 1) | 1) == y;
  }

  /** `Join` uses only the upper bit of one word and the lower bits of the other. */
  lemma JoinParts(u: bv32, v: bv32)
    ensures HiBit(Join(u, v)) == HiBit(u)
    ensures Join(u, Join(v, u)) == u
    ensures Join(HiBit(u), v) == Join(u, v)
    ensures HiBit(HiBit(u)) == HiBit(u)
  {
    assert HiBit((u & 0x8000_0000) | (v & 0x7fff_ffff)) == u & 0x8000_0000;
    assert Join(u, (v & 0x8000_0000) | (u & 0x7fff_ffff)) == u;
    assert Join(u & 0x8000_0000, v) == (u & 0x8000_0000) | (v & 0x7fff_ffff);
    assert HiBit(u & 0x8000_0000) == u & 0x8000_0000;
  }

  /** Going back from a step gives the effective part of the array before it. */
  lemma StepThenBack(s: Block)
    ensures StepBack(Step(s)) == Canon(s)
  {
    XorCancels(s[M], TimesA(Join(s[0], s[1])));
    TimesAThenBack(Join(s[0], s[1]));
    JoinParts(s[0], s[1]);
    JoinParts(s[1], s[0]);
  }

  lemma NextInverse(last: bv32, m: bv32, u: bv32)
    ensures var mixed := TimesAInverse(Xor(last, m)); Next(m, HiBit(mixed), Join(u, mixed)) == last
  {
    var mixed := TimesAInverse(Xor(last, m));
    JoinParts(mixed, Join(u, mixed));
    JoinParts(mixed, u);
    BackThenTimesA(Xor(last, m));
    XorCancels(last, m);
    XorCommutes(m, Xor(last, m));
  }

  lemma StepOfPair(x: bv32, y: bv32, w: Block)
    ensures Step([x, y] + w[1..N - 1]) == [y] + (w[1..N - 1] + [Next(w[M - 1], x, y)])
  {
    hide Next;
    var b: Block := [x, y] + w[1..N - 1];
    assert b[M] == w[M - 1];
    assert b[1..] == [y] + w[1..N - 1];
  }

  /** Stepping after going back restores every effective bit: no array lacks a predecessor. */
  lemma BackThenStep(w: Block)
    ensures Canon(Step(StepBack(w))) == Canon(w)
  {
    var mixed := TimesAInverse(Xor(w[N - 1], w[M - 1]));
    NextInverse(w[N - 1], w[M - 1], w[0]);
    StepOfPair(HiBit(mixed), Join(w[0], mixed), w);
    assert w[1..N - 1] + [w[N - 1]] == w[1..];
    JoinParts(w[0], mixed);
  }

  /** The lower bits of the first word never matter. */
  lemma CanonIsEnough(s: Block)
    ensures Step(Canon(s)) == Step(s)
    ensures StepBack(Canon(s)) == StepBack(s)
    ensures Canon(Canon(s)) == Canon(s)
  {
    JoinParts(s[0], s[1]);
    JoinParts(s[0], TimesAInverse(Xor(s[N - 1], s[M - 1])));
  }

  // ---------- Any number of steps ----------

  /** Same effective state: the 19937 bits that the generator depends on. */
  predicate SameState(a: Block, b: Block) {
    Canon(a) == Canon(b)
  }

  lemma SameStateStep(a: Block, b: Block)
    requires SameState(a, b)
    ensures Step(a) == Step(b)
    ensures StepBack(a) == StepBack(b)
  {
    CanonIsEnough(a);
    CanonIsEnough(b);
  }

  lemma BackUndoesStep(s: Block, w: Block)
    requires SameState(w, Step(s))
    ensures SameState(StepBack(w), s)
  {
    SameStateStep(w, Step(s));
    StepThenBack(s);
    CanonIsEnough(s);
  }

  /** Going back t steps. */
  ghost function Back(w: Block, t: nat): Block
    decreases t
  {
    if t == 0 then w else Back(StepBack(w), t - 1)
  }

  lemma {:induction false} BackUndoesWindow(s: Block, w: Block, t: nat)
    requires SameState(w, Window(s, t))
    ensures SameState(Back(w, t), s)
    decreases t
  {
    WindowStep(s, 0);
    if t > 0 {
      WindowStep(s, t - 1);
      BackUndoesStep(Window(s, t - 1), w);
      BackUndoesWindow(s, StepBack(w), t - 1);
    }
  }

  lemma {:induction false} WindowUndoesBack(w: Block, t: nat)
    ensures SameState(Window(Back(w, t), t), w)
    decreases t
  {
    WindowStep(Back(w, t), 0);
    if t > 0 {
      var s := Back(w, t);
      WindowUndoesBack(StepBack(w), t - 1);
      WindowStep(s, t - 1);
      SameStateStep(Window(s, t - 1), StepBack(w));
      BackThenStep(w);
    }
  }

  lemma {:induction false} SameStateForward(a: Block, b: Block, t: nat)
    requires SameState(a, b)
    ensures if t == 0 then SameState(Window(a, t), Window(b, t)) else Window(a, t) == Window(b, t)
  {
    WindowStep(a, 0);
    WindowStep(b, 0);
    if t > 0 {
      SameStateForward(a, b, t - 1);
      WindowStep(a, t - 1);
      WindowStep(b, t - 1);
      SameStateStep(Window(a, t - 1), Window(b, t - 1));
    }
  }

  /** The transition over any number of steps is injective on effective states. */
  lemma TransitionInjective(a: Block, b: Block, t: nat)
    ensures SameState(Window(a, t), Window(b, t)) <==> SameState(a, b)
  {
    if SameState(a, b) {
      SameStateForward(a, b, t);
    }
    if SameState(Window(a, t), Window(b, t)) {
      BackUndoesWindow(a, Window(a, t), t);
      BackUndoesWindow(b, Window(a, t), t);
    }
  }

  /** ... and onto: every effective state is reached from one and only one. */
  lemma TransitionBijective(w: Block, t: nat, s: Block)
    ensures SameState(Window(s, t), w) <==> SameState(s, Back(w, t))
  {
    WindowUndoesBack(w, t);
    TransitionInjective(s, Back(w, t), t);
  }

  /** Equal effective states give the same sequence from its second term on. */
  lemma SameStateSameSequence(a: Block, b: Block, j: nat)
    requires SameState(a, b)
    requires j > 0
    ensures X(a, j) == X(b, j)
  {
    SameStateForward(a, b, j);
    assert Window(a, j)[0] == X(a, j);
    assert Window(b, j)[0] == X(b, j);
  }

  // ---------- The zero state ----------

  const ZERO: Block := seq(N, _ => 0)

  lemma {:induction false} ZeroSequence(j: nat)
    ensures X(ZERO, j) == 0
  {
    if j >= N {
      ZeroSequence(j - N);
      ZeroSequence(j - N + 1);
      ZeroSequence(j - N + M);
      assert Next(0, 0, 0) == 0;
    }
  }

  /** The all-zero effective state is reached from nowhere but itself. */
  lemma ZeroIsolated(s: Block, t: nat)
    ensures SameState(Window(s, t), ZERO) <==> SameState(s, ZERO)
  {
    forall i | 0 <= i < N
      ensures Window(ZERO, t)[i] == 0
    {
      ZeroSequence(t + i);
    }
    assert Window(ZERO, t) == ZERO;
    TransitionInjective(s, ZERO, t);
  }

  // ---------- Linearity over GF(2) ----------

  function XorBlocks(a: Block, b: Block): Block {
    seq(N, i requires 0 <= i < N => Xor(a[i], b[i]))
  }

  lemma TimesALinear(u: bv32, v: bv32)
    ensures TimesA(Xor(u, v)) == Xor(TimesA(u), TimesA(v))
  {
    assert TimesA(u ^ v) == Xor(if u & 1 == 0 then u >> 1 else (u >> 1) ^ 0x9908_b0df,
                                if v & 1 == 0 then v >> 1 else (v >> 1) ^ 0x9908_b0df);
  }

  lemma JoinLinear(u: bv32, v: bv32, u': bv32, v': bv32)
    ensures Join(Xor(u, u'), Xor(v, v')) == Xor(Join(u, v), Join(u', v'))
  {
    assert Join(u ^ u', v ^ v') == Xor((u & 0x8000_0000) | (v & 0x7fff_ffff), (u' & 0x8000_0000) | (v' & 0x7fff_ffff));
  }

  lemma NextLinear(m: bv32, u: bv32, v: bv32, m': bv32, u': bv32, v': bv32)
    ensures Next(Xor(m, m'), Xor(u, u'), Xor(v, v')) == Xor(Next(m, u, v), Next(m', u', v'))
  {
    JoinLinear(u, v, u', v');
    TimesALinear(Join(u, v), Join(u', v'));
    XorRegroup(m, m', TimesA(Join(u, v)), TimesA(Join(u', v')));
  }

  /** The sequence of a sum of two arrays is the sum of their sequences. */
  lemma {:induction false} RecurrenceLinear(a: Block, b: Block, j: nat)
    ensures X(XorBlocks(a, b), j) == Xor(X(a, j), X(b, j))
  {
    if j >= N {
      RecurrenceLinear(a, b, j - N);
      RecurrenceLinear(a, b, j - N + 1);
      RecurrenceLinear(a, b, j - N + M);
      NextLinear(X(a, j - N + M), X(a, j - N), X(a, j - N + 1), X(b, j - N + M), X(b, j - N), X(b, j - N + 1));
    }
  }

  // ---------- The recurrence in its own literals ----------

  // The parts of words 0 and 1 that enter the term 624 places further.

  function TopPart(w: bv32): bv32 {
    (w & 0x8000_0000) >> 1
  }

  function LowPart(w: bv32): bv32 {
    if w & 1 == 0 then (w & 0x7fff_ffff) >> 1 else ((w & 0x7fff_ffff) >> 1) ^ 0x9908_b0df
  }

  lemma JoinOfZeros(w: bv32)
    ensures Join(w, 0) == w & 0x8000_0000 && Join(0, w) == w & 0x7fff_ffff && Join(0, 0) == 0
  {
  }

  lemma TopPartTimesA(w: bv32)
    ensures TimesA(w & 0x8000_0000) == TopPart(w)
  {
  }

  lemma LowPartTimesA(w: bv32)
    ensures TimesA(w & 0x7fff_ffff) == LowPart(w)
  {
  }

  lemma TwistOfZeros(w: bv32)
    ensures Next(w, 0, 0) == w && Next(0, w, 0) == TopPart(w) && Next(0, 0, w) == LowPart(w)
  {
    hide Join, Xor, TimesA, TopPart, LowPart;
    JoinOfZeros(w);
    TopPartTimesA(w);
    LowPartTimesA(w);
    assert TimesA(0) == 0 by { TimesAOfZero(); }
    XorSelf(w);
    XorCommutes(0, TopPart(w));
    XorCommutes(0, LowPart(w));
    XorSelf(TopPart(w));
    XorSelf(LowPart(w));
  }

  lemma TimesAOfZero()
    ensures TimesA(0) == 0
  {
  }

  /** The twist in the literals of its publication: every term is the word 397 places on, xor the top
    * bit of one word, xor the lower bits of the next with the constant if it is odd. */
  lemma TermInLiterals(s: Block, j: nat)
    ensures j < 624 ==> X(s, j) == s[j]
    ensures X(s, j + 624) == Xor(X(s, j + 397), Xor(TopPart(X(s, j)), LowPart(X(s, j + 1))))
  {
    assert X(s, j + 624) == Next(X(s, j + 397), X(s, j), X(s, j + 1)) by { hide Next; }
    Superposed(X(s, j + 397), X(s, j), X(s, j + 1));
  }

  lemma Superposed(m: bv32, u: bv32, v: bv32)
    ensures Next(m, u, v) == Xor(m, Xor(TopPart(u), LowPart(v)))
  {
    hide Next, Xor, TopPart, LowPart;
    NextLinear(m, 0, 0, 0, u, v);
    NextLinear(0, u, 0, 0, 0, v);
    TwistOfZeros(m);
    TwistOfZeros(u);
    TwistOfZeros(v);
    XorSelf(m);
    XorSelf(u);
    XorCommutes(0, u);
    XorCommutes(0, v);
    XorSelf(v);
    XorSelf(0);
  }

  lemma PartsAre(w: bv32)
    ensures TopPart(w) == (w & 0x8000_0000) >> 1
    ensures LowPart(w) == if w & 1 == 0 then (w & 0x7fff_ffff) >> 1 else ((w & 0x7fff_ffff) >> 1) ^ 0x9908_b0df
  {
  }

  lemma PartsOfZero()
    ensures TopPart(0) == 0 && LowPart(0) == 0
  {
  }

  /** The answer of the recurrence to a single nonzero word among 624: word 397 is passed on as it is,
    * word 0 with its top bit, word 1 with its lower bits, and no other word counts.  Together with
    * linearity this fixes every term. */
  lemma ImpulseResponse(s: Block, j: nat, at: nat, w: bv32)
    requires at < 624
    requires forall k :: j <= k < j + 624 ==> X(s, k) == if k == j + at then w else 0
    ensures X(s, j + 624)
         == if at == 397 then w
            else if at == 0 then (w & 0x8000_0000) >> 1
            else if at == 1 then
              (if w & 1 == 0 then (w & 0x7fff_ffff) >> 1 else ((w & 0x7fff_ffff) >> 1) ^ 0x9908_b0df)
            else 0
  {
    TermInLiterals(s, j);
    hide X, Xor, TopPart, LowPart;
    PartsOfZero();
    PartsAre(w);
    XorSelf(w);
    XorSelf(0);
    XorSelf(TopPart(w));
    XorSelf(LowPart(w));
    XorCommutes(0, TopPart(w));
    XorCommutes(0, LowPart(w));
  }
}
