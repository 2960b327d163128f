/** Filling the state array from one word, and from a key of any length. */
module Seeding {
  import opened Words
  import opened Recurrence

  // ---------- From one word ----------

  /** A word of the array, from the word before it and its own index. */
  function Grow(prev: bv32, i: bv32): bv32 {
    1812433253 * (prev ^ (prev >> 30)) + i
  }

  function InitWord(seed: bv32, i: nat): bv32
    requires i < N
  {
    if i == 0 then seed else Grow(InitWord(seed, i - 1), Num(i))
  }

  function Init(seed: bv32): Block {
    seq(N, i requires 0 <= i < N => InitWord(seed, i))
  }

  /** No seed word gives the all-zero effective state. */
  lemma InitNonzero(seed: bv32)
    ensures !SameState(Init(seed), ZERO)
  {
    if InitWord(seed, 1) == 0 {
      assert Grow(0, Num(2)) == 2;
      assert Canon(Init(seed))[2] != Canon(ZERO)[2];
    } else {
      assert Canon(Init(seed))[1] != Canon(ZERO)[1];
    }
  }

  /** The word before, recovered: 0x9638806d is the inverse of 1812433253 modulo 2^32, and
    * x ^ (x >> 30) undoes itself. */
  function Ungrow(w: bv32, i: bv32): bv32 {
    var y := 0x9638_806d * (w - i);
    y ^ (y >> 30)
  }

  lemma GrowInjective(x: bv32, i: bv32)
    ensures Ungrow(Grow(x, i), i) == x
  {
    assert Ungrow(1812433253 * (x ^ (x >> 30)) + i, i) == x;
  }

  /** Different seed words start from different effective states. */
  lemma InitInjective(a: bv32, b: bv32)
    ensures SameState(Init(a), Init(b)) <==> a == b
  {
    hide Grow, Num;
    if SameState(Init(a), Init(b)) {
      assert Canon(Init(a))[1] == Canon(Init(b))[1];
      assert InitWord(a, 1) == Grow(a, Num(1)) && InitWord(b, 1) == Grow(b, Num(1));
      GrowInjective(a, Num(1));
      GrowInjective(b, Num(1));
    }
  }

  /** The fill, read backwards: word i gives word i - 1, by the inverse of the multiplier and with i
    * itself as the summand. */
  lemma InitUnwinds(seed: bv32, i: nat)
    requires 1 <= i < 624
    ensures Init(seed)[0] == seed
    ensures Ungrow(Init(seed)[i], Low(i as bv64)) == Init(seed)[i - 1]
  {
    hide Grow, Ungrow, Low;
    GrowInjective(InitWord(seed, i - 1), Num(i));
  }

  lemma GrowIs(x: bv32, i: bv32)
    ensures Grow(x, i) == 1812433253 * (x ^ (x >> 30)) + i
  {
  }

  lemma SmallNum(i: nat)
    requires i == 1 || i == 2
    ensures i == 1 ==> Num(i) == 1
    ensures i == 2 ==> Num(i) == 2
  {
  }

  /** The first words for the customary seed 5489, and for the seed that key seeding starts from. */
  lemma KnownFills()
    ensures Init(5489)[0] == 5489 && Init(5489)[1] == 1301868182 && Init(5489)[2] == 2938499221
    ensures Init(19650218)[0] == 19650218 && Init(19650218)[1] == 2194844435 && Init(19650218)[2] == 874550967
  {
    hide Grow, Num;
    SmallNum(1);
    SmallNum(2);
    GrowIs(5489, 1);
    GrowIs(1301868182, 2);
    GrowIs(19650218, 1);
    GrowIs(2194844435, 2);
  }

  // ---------- From a key: the first pass ----------

  const MAX_KEY: nat := 0x7fff_ffff

  /** A key: its length has to survive the conversion to the loop counter, an `int`. */
  type Key = k: seq<bv32> | 0 < |k| <= MAX_KEY witness [0]

  /** The array before the first pass. */
  const KEY_BASE: Block := Init(19650218)

  function Mix1(x: bv32): bv32 {
    (x ^ (x >> 30)) * 1664525
  }

  function Mix2(x: bv32): bv32 {
    (x ^ (x >> 30)) * 1566083941
  }

  /** How often the first pass writes a word. */
  function Rounds(length: nat): nat {
    if length > N then length else N
  }

  /** The key's share in round t. */
  function Share(key: Key, t: nat): bv32 {
    Plus(key[t % |key|], Num(t % |key|))
  }

  /** The word written in round t of the first pass: it overwrites the word written N - 1 rounds
    * earlier and depends on the word written just before. */
  ghost function Tape(key: Key, t: nat): bv32
    decreases t, 1
  {
    Plus(Xor(Overwritten(key, t), Mix1(Preceding(key, t))), Share(key, t))
  }

  ghost function Overwritten(key: Key, t: nat): bv32
    decreases t, 0
  {
    if t < N - 1 then KEY_BASE[t + 1] else Tape(key, t - (N - 1))
  }

  ghost function Preceding(key: Key, t: nat): bv32
    decreases t, 0
  {
    if t == 0 then KEY_BASE[0] else Tape(key, t - 1)
  }

  /** Rounds that write, overwrite and follow the same words use the same share of the key. */
  lemma ShareFromTape(k: Key, k': Key, t: nat)
    requires |k| == |k'|
    requires Tape(k, t) == Tape(k', t)
    requires Overwritten(k, t) == Overwritten(k', t)
    requires Preceding(k, t) == Preceding(k', t)
    ensures k[t % |k|] == k'[t % |k|]
  {
    hide Plus, Minus, Xor, Mix1, Num, Overwritten, Preceding;
    SumCancels(Xor(Overwritten(k, t), Mix1(Preceding(k, t))), Share(k, t));
    SumCancels(Xor(Overwritten(k, t), Mix1(Preceding(k, t))), Share(k', t));
    SumCancels(k[t % |k|], Num(t % |k|));
    SumCancels(k'[t % |k|], Num(t % |k|));
  }

  /** Round t looks at no key word beyond t, as long as the key lasts. */
  lemma {:induction false} TapePrefix(k: Key, k': Key, t: nat)
    requires t < |k| && t < |k'|
    requires k[..t + 1] == k'[..t + 1]
    ensures Tape(k, t) == Tape(k', t)
    ensures Overwritten(k, t) == Overwritten(k', t)
    ensures Preceding(k, t) == Preceding(k', t)
    decreases t
  {
    hide Plus, Xor, Mix1, Num, Share;
    OwnShare(k, t);
    OwnShare(k', t);
    assert k[t] == k[..t + 1][t] && k'[t] == k'[..t + 1][t];
    if t > 0 {
      assert k[..t] == k[..t + 1][..t] && k'[..t] == k'[..t + 1][..t];
      TapePrefix(k, k', t - 1);
    }
    if t >= N - 1 {
      var u := t - (N - 1);
      assert k[..u + 1] == k[..t + 1][..u + 1] && k'[..u + 1] == k'[..t + 1][..u + 1];
      TapePrefix(k, k', u);
    }
  }

  lemma MixesInLiterals(x: bv32)
    ensures Mix1(x) == (x ^ (x >> 30)) * 1664525
    ensures Mix2(x) == (x ^ (x >> 30)) * 1566083941
  {
  }

  /** A round read backwards, on the words it is made of: taking the key word and its index off the
    * written word, and the mixed preceding word off the rest, leaves the overwritten word. */
  lemma RoundUnwinds(key: Key, t: nat)
    ensures Xor(Minus(Tape(key, t), Plus(key[t % |key|], Low((t % |key|) as bv64))), Mix1(Preceding(key, t)))
         == Overwritten(key, t)
    ensures Preceding(key, t) == if t == 0 then Init(19650218)[0] else Tape(key, t - 1)
    ensures Overwritten(key, t) == if t < 623 then Init(19650218)[t + 1] else Tape(key, t - 623)
  {
    hide Plus, Minus, Xor, Low, Init, Mix1;
    SumCancels(Xor(Overwritten(key, t), Mix1(Preceding(key, t))), Share(key, t));
    XorCancels(Overwritten(key, t), Mix1(Preceding(key, t)));
  }

  /** The first words written for the customary key 0x123, 0x234, 0x345, 0x456. */
  lemma KnownRounds(key: Key)
    requires key == [0x123, 0x234, 0x345, 0x456]
    ensures Tape(key, 0) == 0xff89_0ad4 && Tape(key, 1) == 0x9766_a291
  {
  }

  /** While the key lasts, round t uses word t. */
  lemma OwnShare(key: Key, t: nat)
    requires t < |key|
    ensures Share(key, t) == Plus(key[t], Num(t))
  {
    hide Plus, Num;
    SmallMod(t, |key|);
  }

  lemma SmallMod(t: nat, n: nat)
    requires t < n
    ensures t % n == t
  {
  }

  // ---------- From a key: the second pass ----------

  /** N - 1 words, in the order in which a pass meets them. */
  type Lap = w: seq<bv32> | |w| == N - 1 witness seq(N - 1, _ => 0)

  /** The words the first pass wrote last, oldest first. */
  ghost function FirstWindow(key: Key): Lap {
    seq(N - 1, v requires 0 <= v < N - 1 => Tape(key, Rounds(|key|) - (N - 1) + v))
  }

  /** Where a pass that starts at slot a + 1 writes in its round v: slots 1 to N - 1 in a circle. */
  function Slot(a: nat, v: nat): (i: nat)
    requires a < N - 1 && v < N - 1
    ensures 1 <= i < N
  {
    if a + v < N - 1 then a + v + 1 else a + v + 1 - (N - 1)
  }

  /** The word written in round v of a second pass that starts at slot a + 1 with the words w. */
  function Second(w: Lap, a: nat, v: nat): bv32
    requires a < N - 1 && v < N - 1
    decreases v
  {
    Minus(Xor(w[v], Mix2(if v == 0 then w[N - 2] else Second(w, a, v - 1))), Num(Slot(a, v)))
  }

  function SecondPass(w: Lap, a: nat): Lap
    requires a < N - 1
  {
    seq(N - 1, v requires 0 <= v < N - 1 => Second(w, a, v))
  }

  /** The word that the second pass turned into z[v], given the word written before it. */
  function Recover(z: Lap, a: nat, v: nat, before: bv32): bv32
    requires a < N - 1 && v < N - 1
  {
    Xor(Plus(z[v], Num(Slot(a, v))), Mix2(before))
  }

  /** The words before a second pass that wrote z: all but the first are recovered from their
    * neighbours, the first from the recovered last one. */
  function UndoSecondPass(z: Lap, a: nat): Lap
    requires a < N - 1
  {
    var rest := seq(N - 2, v requires 0 <= v < N - 2 => Recover(z, a, v + 1, z[v]));
    [Recover(z, a, 0, rest[N - 3])] + rest
  }

  lemma RecoverInverts(c: bv32, m: bv32, n: bv32)
    ensures Xor(Plus(Minus(Xor(c, m), n), n), m) == c
    ensures Minus(Xor(Xor(Plus(c, n), m), m), n) == c
  {
    hide Plus, Minus, Xor;
    SumCancels(Xor(c, m), n);
    XorCancels(c, m);
    SumCancels(c, n);
    DifferenceCancels(Xor(c, m), n);
    XorCancels(Plus(c, n), m);
  }

  lemma SecondPassInjective(w: Lap, a: nat)
    requires a < N - 1
    ensures UndoSecondPass(SecondPass(w, a), a) == w
  {
    hide Plus, Minus, Xor, Mix2, Num;
    var z := SecondPass(w, a);
    forall v | 1 <= v < N - 1
      ensures Recover(z, a, v, z[v - 1]) == w[v]
    {
      RecoverInverts(w[v], Mix2(z[v - 1]), Num(Slot(a, v)));
    }
    RecoverInverts(w[0], Mix2(w[N - 2]), Num(Slot(a, 0)));
  }

  lemma {:induction false} SecondPassRestores(z: Lap, a: nat, v: nat)
    requires a < N - 1 && v < N - 1
    ensures Second(UndoSecondPass(z, a), a, v) == z[v]
  {
    hide Plus, Minus, Xor, Mix2, Num;
    var w := UndoSecondPass(z, a);
    if v == 0 {
      RecoverInverts(z[0], Mix2(w[N - 2]), Num(Slot(a, 0)));
    } else {
      SecondPassRestores(z, a, v - 1);
      RecoverInverts(z[v], Mix2(z[v - 1]), Num(Slot(a, v)));
    }
  }

  // ---------- From a key: the whole array ----------

  const TOP: bv32 := 0x8000_0000

  /** The round that writes slot s. */
  function RoundOf(a: nat, s: nat): nat
    requires a < N - 1 && 1 <= s < N
  {
    if s - 1 >= a then s - 1 - a else s - 1 - a + (N - 1)
  }

  /** Each slot 1 to N - 1 is written in exactly one round of the second pass. */
  lemma SlotsOnce(a: nat, v: nat, s: nat)
    requires a < N - 1 && v < N - 1 && 1 <= s < N
    ensures 1 <= Slot(a, v) < N && RoundOf(a, s) < N - 1
    ensures Slot(a, v) == s <==> v == RoundOf(a, s)
  {
  }

  /** The slot before slot a + 1, in the circle. */
  function Start(length: nat): (a: nat)
    ensures a < N - 1
  {
    Rounds(length) % (N - 1)
  }

  /** The array that the second pass makes of the words `w`. */
  function Finish(w: Lap, length: nat): Block {
    var a := Start(length);
    var z := SecondPass(w, a);
    [TOP] + seq(N - 1, i requires 0 <= i < N - 1 => z[RoundOf(a, i + 1)])
  }

  /** The array from which key seeding reloads. */
  ghost function KeyArray(key: Key): Block {
    Finish(FirstWindow(key), |key|)
  }

  /** What the first pass must have left for the second one to make `target` of it. */
  function WindowFor(target: Block, length: nat): Lap {
    var a := Start(length);
    UndoSecondPass(seq(N - 1, v requires 0 <= v < N - 1 => target[Slot(a, v)]), a)
  }

  /** The second pass is a bijection between the words it starts from and the slots 1 to N - 1,
    * wherever it starts. */
  lemma FinishBijective(w: Lap, target: Block, length: nat)
    requires target[0] == TOP
    ensures Finish(w, length) == target <==> w == WindowFor(target, length)
  {
    hide Second, UndoSecondPass;
    var a := Start(length);
    var z := seq(N - 1, v requires 0 <= v < N - 1 => target[Slot(a, v)]);
    if Finish(w, length) == target {
      forall v | 0 <= v < N - 1
        ensures SecondPass(w, a)[v] == z[v]
      {
        SlotsOnce(a, v, Slot(a, v));
        assert Finish(w, length)[Slot(a, v)] == target[Slot(a, v)];
      }
      assert SecondPass(w, a) == z;
      SecondPassInjective(w, a);
    }
    if w == UndoSecondPass(z, a) {
      forall s | 1 <= s < N
        ensures Finish(w, length)[s] == target[s]
      {
        SlotsOnce(a, RoundOf(a, s), s);
        SecondPassRestores(z, a, RoundOf(a, s));
      }
      assert Finish(w, length) == target;
    }
  }

  /** Slots follow each other in a circle of 623. */
  lemma SlotIsModulo(a: nat, v: nat)
    requires a < 623 && v < 623
    ensures Slot(a, v) == (a + v) % 623 + 1
  {
  }

  /** A round of the second loop read backwards: it has taken its own slot number off. */
  lemma SecondUnwinds(w: Lap, a: nat, v: nat)
    requires a < 623 && v < 623
    ensures Xor(Plus(Second(w, a, v), Low(Slot(a, v) as bv64)),
                Mix2(if v == 0 then w[622] else Second(w, a, v - 1)))
         == w[v]
  {
    hide Plus, Minus, Xor, Low, Mix2, Slot;
    RecoverInverts(w[v], Mix2(if v == 0 then w[622] else Second(w, a, v - 1)), Num(Slot(a, v)));
  }

  /** Where everything stands after key seeding: word 0 is forced, the first loop has max(624, length)
    * rounds, and the second loop starts in the slot after the last one written. */
  lemma KeyArrayLayout(key: Key, v: nat)
    requires v < 623
    ensures var k := if |key| > 624 then |key| else 624;
            var a := k % 623;
            KeyArray(key)[0] == 0x8000_0000
            && FirstWindow(key)[v] == Tape(key, k - 623 + v)
            && KeyArray(key)[(a + v) % 623 + 1] == Second(FirstWindow(key), a, v)
  {
    hide Tape, Second;
    var a := Start(|key|);
    SlotsOnce(a, v, Slot(a, v));
    SlotIsModulo(a, v);
  }
}
