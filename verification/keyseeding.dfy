/** Which keys give which arrays: key seeding is injective for keys of up to 622 words, onto for
  * keys of 624 words and more, and neither at 623.
  */
module KeySeeding {
  import opened Words
  import opened Recurrence
  import opened Seeding
  import opened Generators

  /** Equal arrays mean that the first passes ended with the same words. */
  lemma SameArraySameWindow(k: Key, k': Key)
    requires |k| == |k'|
    ensures KeyArray(k) == KeyArray(k') <==> FirstWindow(k) == FirstWindow(k')
  {
    hide Finish, FirstWindow, WindowFor;
    FinishStartsWithTop(FirstWindow(k), |k|);
    FinishBijective(FirstWindow(k), KeyArray(k), |k|);
    FinishBijective(FirstWindow(k'), KeyArray(k), |k|);
  }

  lemma FinishStartsWithTop(w: Lap, length: nat)
    ensures Finish(w, length)[0] == TOP
  {
  }

  /** Where the last words of the first pass stand, for keys of up to 624 words. */
  lemma WindowTape(k: Key, t: nat)
    requires |k| <= N && 1 <= t < N
    ensures FirstWindow(k)[t - 1] == Tape(k, t)
  {
    assert Rounds(|k|) - (N - 1) + (t - 1) == t;
  }

  // ---------- Up to 622 words: injective ----------

  /** Rounds 1 to 622 already determine a key of up to 622 words. */
  lemma ShortKeyFromTape(k: Key, k': Key)
    requires |k| == |k'| <= N - 2
    requires forall t :: 1 <= t <= N - 2 ==> Tape(k, t) == Tape(k', t)
    ensures k == k'
  {
    hide Share, KEY_BASE;
    forall r | 0 <= r < |k|
      ensures k[r] == k'[r]
    {
      ShortKeyWord(k, k', r);
    }
  }

  /** The round that gives away word r: any round from 2 on that uses it; round 1 is good once
    * round 0 is known. */
  lemma ShortKeyWord(k: Key, k': Key, r: nat)
    requires |k| == |k'| <= N - 2
    requires r < |k|
    requires forall t :: 1 <= t <= N - 2 ==> Tape(k, t) == Tape(k', t)
    ensures k[r] == k'[r]
  {
    hide Plus, Xor, Mix1, Num, Share, KEY_BASE;
    if r >= 2 {
      SmallMod(r, |k|);
      ShareFromTape(k, k', r);
    } else if r == 0 {
      if |k| >= 2 {
        ShareFromTape(k, k', |k|);
      } else {
        ShareFromTape(k, k', 2);
      }
    } else if |k| + 1 <= N - 2 {
      OneMore(|k|);
      ShareFromTape(k, k', |k| + 1);
    } else {
      ShortKeyWord(k, k', 0);
      assert Tape(k, 0) == Tape(k', 0) by {
        hide *;
        FirstRound(k, k');
      }
      SmallMod(1, |k|);
      ShareFromTape(k, k', 1);
    }
  }

  lemma OneMore(n: nat)
    requires n >= 2
    ensures (n + 1) % n == 1
  {
  }

  lemma FirstRound(k: Key, k': Key)
    requires k[0] == k'[0]
    ensures Tape(k, 0) == Tape(k', 0)
  {
    hide Plus, Xor, Mix1, Num, KEY_BASE, Share;
    OwnShare(k, 0);
    OwnShare(k', 0);
  }

  /** Different keys of the same length up to 622 give different arrays. */
  lemma ShortKeysInjective(k: Key, k': Key)
    requires |k| == |k'| <= N - 2
    requires KeyArray(k) == KeyArray(k')
    ensures k == k'
  {
    hide Tape, KeyArray;
    SameArraySameWindow(k, k');
    forall t | 1 <= t <= N - 2
      ensures Tape(k, t) == Tape(k', t)
    {
      WindowTape(k, t);
      WindowTape(k', t);
    }
    ShortKeyFromTape(k, k');
  }

  // ---------- 623 words: a second key with the same array ----------

  lemma TopBitTwice(x: bv32)
    ensures Plus(Plus(x, TOP), TOP) == x
  {
    hide Plus;
    PlusIs(x, TOP);
    PlusIs(x + TOP, TOP);
  }

  lemma TopBitRaw(x: bv32, y: bv32)
    ensures (x + 0x8000_0000) ^ y == (x ^ y) + 0x8000_0000
  {
  }

  lemma TopBitXor(x: bv32, y: bv32)
    ensures Xor(Plus(x, TOP), y) == Plus(Xor(x, y), TOP)
  {
    hide Plus, Xor;
    PlusIs(x, TOP);
    XorIs(x, y);
    XorIs(x + TOP, y);
    PlusIs(x ^ y, TOP);
    TopBitRaw(x, y);
  }

  /** The top bit added to one summand is added to the sum. */
  lemma TopBitSum(x: bv32, y: bv32)
    ensures Plus(Plus(x, TOP), y) == Plus(Plus(x, y), TOP)
    ensures Plus(x, Plus(y, TOP)) == Plus(Plus(x, y), TOP)
  {
    hide Plus, TOP;
    PlusRegroup(x, TOP, y);
    PlusCommutes(TOP, y);
    PlusRegroup(x, y, TOP);
  }

  lemma TopBitMatters(x: bv32)
    ensures Plus(x, TOP) != x
  {
  }

  /** Rounds 0 and 623 both use word 0: a change of its top bit cancels out. */
  lemma TopBitCancels(y: bv32, d: bv32, k: bv32, n: bv32)
    ensures Plus(Xor(Plus(y, TOP), d), Plus(Plus(k, TOP), n)) == Plus(Xor(y, d), Plus(k, n))
  {
    hide Plus, Xor, TOP;
    var sum := Plus(Xor(y, d), Plus(k, n));
    TopBitXor(y, d);
    TopBitSum(k, n);
    TopBitSum(Xor(y, d), Plus(Plus(k, n), TOP));
    TopBitSum(Xor(y, d), Plus(k, n));
    TopBitTwice(sum);
  }

  /** The key with word 0's top bit flipped and word 1 chosen so that round 1 writes the same word. */
  ghost function Twin(k: Key): Key
    requires |k| == N - 1
  {
    var k1: Key := k[0 := Plus(k[0], TOP)];
    k1[1 := Minus(Minus(Tape(k, 1), Xor(Overwritten(k, 1), Mix1(Tape(k1, 0)))), Num(1))]
  }

  lemma TwinFirstRounds(k: Key)
    requires |k| == N - 1
    ensures Tape(Twin(k), 0) == Plus(Tape(k, 0), TOP)
    ensures Tape(Twin(k), 1) == Tape(k, 1)
  {
    hide Plus, Minus, Xor, Mix1, Num, KEY_BASE, TOP, Share;
    var k1: Key := k[0 := Plus(k[0], TOP)];
    var t := Twin(k);
    OwnShare(k, 0);
    OwnShare(k1, 0);
    OwnShare(k, 1);
    OwnShare(t, 1);
    TopBitSum(k[0], Num(0));
    TopBitSum(Xor(KEY_BASE[1], Mix1(KEY_BASE[0])), Plus(k[0], Num(0)));
    FirstRound(k1, t);
    var rest := Xor(Overwritten(k, 1), Mix1(Tape(k1, 0)));
    DifferenceCancels(Minus(Tape(k, 1), rest), Num(1));
    DifferenceCancels(Tape(k, 1), rest);
  }

  lemma {:induction false} TwinMiddleRounds(k: Key, t: nat)
    requires |k| == N - 1
    requires 1 <= t < N - 1
    ensures Tape(Twin(k), t) == Tape(k, t)
  {
    hide Plus, Minus, Xor, Mix1, Num, KEY_BASE, TOP, Share;
    TwinFirstRounds(k);
    if t > 1 {
      TwinMiddleRounds(k, t - 1);
      OwnShare(k, t);
      OwnShare(Twin(k), t);
    }
  }

  lemma TwinLastRound(k: Key)
    requires |k| == N - 1
    ensures Tape(Twin(k), N - 1) == Tape(k, N - 1)
  {
    hide Plus, Minus, Xor, Mix1, Num, KEY_BASE, TOP, Share;
    TwinFirstRounds(k);
    TwinMiddleRounds(k, N - 2);
    FirstAndLast(k);
    FirstAndLast(Twin(k));
    OwnShare(k, 0);
    OwnShare(Twin(k), 0);
    TopBitCancels(Tape(k, 0), Mix1(Tape(k, N - 2)), k[0], Num(0));
  }

  lemma TwinDiffers(k: Key)
    requires |k| == N - 1
    ensures |Twin(k)| == |k| && Twin(k) != k
  {
    hide Plus, Minus, Xor, Mix1, Num, KEY_BASE, TOP, Tape, Overwritten;
    TopBitMatters(k[0]);
    assert Twin(k)[0] != k[0];
  }

  /** Every key of 623 words has a different twin that gives the same array. */
  lemma TwinCollides(k: Key)
    requires |k| == N - 1
    ensures |Twin(k)| == |k| && Twin(k) != k && KeyArray(Twin(k)) == KeyArray(k)
  {
    hide Twin, Tape, FirstWindow, Finish;
    var k' := Twin(k);
    TwinDiffers(k);
    forall v | 0 <= v < N - 1
      ensures FirstWindow(k')[v] == FirstWindow(k)[v]
    {
      WindowTape(k, v + 1);
      WindowTape(k', v + 1);
      if v + 1 < N - 1 {
        TwinMiddleRounds(k, v + 1);
      } else {
        TwinLastRound(k);
      }
    }
    SameArraySameWindow(k, k');
  }

  // ---------- Below 624 words: not onto ----------

  function LowBit(x: bv32): bv32 {
    x & 1
  }

  lemma LowBitRaw(c: bv32, s: bv32, d: bv32)
    ensures LowBit(((c + s) ^ d) + s) == LowBit(c ^ d)
  {
  }

  lemma LowBitOfLastRound(c: bv32, s: bv32, d: bv32)
    ensures LowBit(Plus(Xor(Plus(c, s), d), s)) == LowBit(Xor(c, d))
  {
    hide LowBit, Plus, Xor;
    LowBitRaw(c, s, d);
    PlusIs(c, s);
    XorIs(c + s, d);
    PlusIs((c + s) ^ d, s);
    XorIs(c, d);
  }

  lemma SuccessorDiffers(x: bv32)
    ensures LowBit(Plus(x, 1)) != LowBit(x)
  {
    assert LowBit(x + 1) != LowBit(x);
  }

  /** With 623 words, the lowest bit that round 623 writes depends on round 622 alone. */
  lemma LastRoundParity(k: Key, k': Key)
    requires |k| == |k'| == N - 1
    requires Tape(k, N - 2) == Tape(k', N - 2)
    ensures LowBit(Tape(k, N - 1)) == LowBit(Tape(k', N - 1))
  {
    hide Plus, Xor, Mix1, Num, KEY_BASE, LowBit, Share;
    var c := Xor(KEY_BASE[1], Mix1(KEY_BASE[0]));
    var d := Mix1(Tape(k, N - 2));
    FirstAndLast(k);
    FirstAndLast(k');
    LowBitOfLastRound(c, Share(k, 0), d);
    LowBitOfLastRound(c, Share(k', 0), d);
  }

  lemma FirstAndLast(k: Key)
    requires |k| == N - 1
    ensures Tape(k, 0) == Plus(Xor(KEY_BASE[1], Mix1(KEY_BASE[0])), Share(k, 0))
    ensures Tape(k, N - 1) == Plus(Xor(Tape(k, 0), Mix1(Tape(k, N - 2))), Share(k, 0))
  {
    hide Plus, Xor, Mix1, Num, KEY_BASE;
    assert (N - 1) % |k| == 0 % |k|;
  }

  /** An array that no key of the same length as `k` gives: that of `k`, had its last round of the
    * first pass written one more. */
  ghost function Missed(k: Key): Block {
    var w := FirstWindow(k);
    Finish(w[N - 2 := Plus(w[N - 2], 1)], |k|)
  }

  lemma MissedByAll(k: Key, k': Key)
    requires |k| == |k'| < N
    ensures Missed(k)[0] == TOP
    ensures KeyArray(k') != Missed(k)
  {
    hide Tape, FirstWindow, Finish, WindowFor, LowBit, Plus;
    var w := FirstWindow(k);
    var w' := w[N - 2 := Plus(w[N - 2], 1)];
    SuccessorDiffers(w[N - 2]);
    FinishStartsWithTop(w', |k|);
    FinishBijective(w', Missed(k), |k|);
    FinishBijective(FirstWindow(k'), Missed(k), |k|);
    if FirstWindow(k') == w' {
      forall t | 1 <= t <= N - 2
        ensures Tape(k', t) == Tape(k, t)
      {
        WindowTape(k, t);
        WindowTape(k', t);
      }
      WindowTape(k, N - 1);
      WindowTape(k', N - 1);
      if |k| == N - 1 {
        LastRoundParity(k, k');
      } else {
        ShortKeyFromTape(k, k');
      }
      assert false;
    }
  }

  // ---------- From 624 words on: one key for every prefix and every array ----------

  /** The word that makes the next round write z. */
  ghost function WordFor(k: Key, z: bv32): bv32 {
    var t := |k|;
    Minus(Minus(z, Xor(Overwritten(k, t), Mix1(Preceding(k, t)))), Num(t))
  }

  lemma AppendedRound(k: Key, z: bv32)
    requires |k| < MAX_KEY
    ensures Tape(k + [WordFor(k, z)], |k|) == z
  {
    hide Plus, Minus, Xor, Mix1, Num, KEY_BASE, Overwritten, Preceding, Share;
    var t := |k|;
    var k': Key := k + [WordFor(k, z)];
    RoundBefore(k, k');
    OwnShare(k', t);
    var rest := Xor(Overwritten(k, t), Mix1(Preceding(k, t)));
    DifferenceCancels(Minus(z, rest), Num(t));
    DifferenceCancels(z, rest);
  }

  /** A longer key writes and meets the same words in its round |k|. */
  lemma RoundBefore(k: Key, k': Key)
    requires k <= k' && |k| < |k'|
    ensures Overwritten(k', |k|) == Overwritten(k, |k|)
    ensures Preceding(k', |k|) == Preceding(k, |k|)
  {
    hide Tape, KEY_BASE;
    var t := |k|;
    TapePrefix(k, k', t - 1);
    if t >= N - 1 {
      TapePrefix(k, k', t - (N - 1));
    }
  }

  /** `prefix` continued by n words that make its further rounds write w[0], ..., w[n - 1]. */
  ghost function Extend(prefix: Key, w: Lap, n: nat): (k: Key)
    requires n < N && |prefix| + n <= MAX_KEY
    ensures |k| == |prefix| + n && prefix <= k
  {
    if n == 0 then prefix else
    var k := Extend(prefix, w, n - 1);
    k + [WordFor(k, w[n - 1])]
  }

  lemma {:induction false} ExtendWrites(prefix: Key, w: Lap, n: nat, v: nat)
    requires v < n < N && |prefix| + n <= MAX_KEY
    ensures Tape(Extend(prefix, w, n), |prefix| + v) == w[v]
  {
    hide Tape, WordFor;
    var k := Extend(prefix, w, n - 1);
    if v == n - 1 {
      AppendedRound(k, w[v]);
    } else {
      ExtendWrites(prefix, w, n - 1, v);
      TapePrefix(k, Extend(prefix, w, n), |prefix| + v);
    }
  }

  lemma {:induction false} ExtendUnique(prefix: Key, w: Lap, n: nat, k: Key)
    requires n < N && |prefix| + n <= |k|
    requires prefix <= k
    requires forall v :: 0 <= v < n ==> Tape(k, |prefix| + v) == w[v]
    ensures k[..|prefix| + n] == Extend(prefix, w, n)
  {
    hide Tape, WordFor, Overwritten, Preceding;
    if n > 0 {
      ExtendUnique(prefix, w, n - 1, k);
      var t := |prefix| + n - 1;
      var k': Key := k[..t + 1];
      var e := Extend(prefix, w, n);
      TapePrefix(k, k', t);
      ExtendWrites(prefix, w, n, n - 1);
      RoundBefore(Extend(prefix, w, n - 1), k');
      RoundBefore(Extend(prefix, w, n - 1), e);
      ShareFromTape(k', e, t);
      assert t % |k'| == t by { SmallMod(t, |k'|); }
      assert k' == k[..t] + [k[t]];
      assert e == e[..t] + [e[t]];
    }
  }

  /** The one key with this prefix that gives this array. */
  ghost function Complete(prefix: Key, target: Block): Key
    requires |prefix| + N - 1 <= MAX_KEY
  {
    Extend(prefix, WindowFor(target, |prefix| + N - 1), N - 1)
  }

  /** A key of at least 624 words: the first words are free, the last 623 words then produce any
    * array, each in exactly one way. */
  lemma LongKeyFibre(prefix: Key, target: Block, k: Key)
    requires |k| == |prefix| + N - 1
    requires target[0] == TOP
    ensures prefix <= k && KeyArray(k) == target <==> k == Complete(prefix, target)
  {
    hide Tape, Extend, WindowFor, Finish;
    var w := WindowFor(target, |k|);
    FinishBijective(FirstWindow(k), target, |k|);
    forall v | 0 <= v < N - 1
      ensures FirstWindow(k)[v] == Tape(k, |prefix| + v)
    {
      assert Rounds(|k|) - (N - 1) + v == |prefix| + v;
    }
    if prefix <= k && KeyArray(k) == target {
      ExtendUnique(prefix, w, N - 1, k);
      assert k[..|prefix| + (N - 1)] == k;
    }
    if k == Complete(prefix, target) {
      forall v | 0 <= v < N - 1
        ensures FirstWindow(k)[v] == w[v]
      {
        ExtendWrites(prefix, w, N - 1, v);
      }
      assert FirstWindow(k) == w;
    }
  }

  // ---------- The three cases together ----------

  ghost predicate InjectiveAt(length: nat) {
    forall k: Key, k': Key :: |k| == |k'| == length && KeyArray(k) == KeyArray(k') ==> k == k'
  }

  /** Every array with the forced first word is the array of some key of this length. */
  ghost predicate OntoAt(length: nat) {
    forall target: Block :: target[0] == TOP ==> exists k: Key :: |k| == length && KeyArray(k) == target
  }

  function Repeated(x: bv32, length: nat): (k: seq<bv32>)
    ensures |k| == length
  {
    seq(length, _ => x)
  }

  lemma InjectiveExactly(length: nat)
    requires 0 < length <= MAX_KEY
    ensures InjectiveAt(length) <==> length <= N - 2
  {
    hide KeyArray, Twin, Complete;
    if length <= N - 2 {
      forall k: Key, k': Key | |k| == |k'| == length && KeyArray(k) == KeyArray(k')
        ensures k == k'
      {
        ShortKeysInjective(k, k');
      }
    } else if length == N - 1 {
      var k: Key := Repeated(0, length);
      TwinCollides(k);
    } else {
      var p: Key := Repeated(0, length - (N - 1));
      var p': Key := Repeated(1, length - (N - 1));
      var target: Block := ZERO[0 := TOP];
      var k := Complete(p, target);
      var k' := Complete(p', target);
      assert |k| == |k'| == length by { CompleteLength(p, target); CompleteLength(p', target); }
      LongKeyFibre(p, target, k);
      LongKeyFibre(p', target, k');
      assert k[0] == p[0] && k'[0] == p'[0];
    }
  }

  lemma CompleteLength(prefix: Key, target: Block)
    requires |prefix| + N - 1 <= MAX_KEY
    ensures |Complete(prefix, target)| == |prefix| + N - 1
  {
    hide Extend;
  }

  lemma OntoExactly(length: nat)
    requires 0 < length <= MAX_KEY
    ensures OntoAt(length) <==> length >= N
  {
    hide KeyArray, Missed, Complete;
    if length < N {
      var k: Key := Repeated(0, length);
      MissedByAll(k, k);
      forall k': Key | |k'| == length
        ensures KeyArray(k') != Missed(k)
      {
        MissedByAll(k, k');
      }
    } else {
      var p: Key := Repeated(0, length - (N - 1));
      forall target: Block | target[0] == TOP
        ensures exists k: Key :: |k| == length && KeyArray(k) == target
      {
        CompleteLength(p, target);
        LongKeyFibre(p, target, Complete(p, target));
      }
    }
  }

  // ---------- Which states key seeding can start from ----------

  /** The effective state `w` is where some key of this length starts its generator. */
  ghost predicate Startable(w: Block, length: nat) {
    exists k: Key :: |k| == length && SameState(Window(KeyArray(k), N), w)
  }

  lemma ArrayHasTop(k: Key)
    ensures KeyArray(k)[0] == TOP
    ensures HiBit(KeyArray(k)[0]) == TOP
  {
    hide FirstWindow;
    FinishStartsWithTop(FirstWindow(k), |k|);
  }

  lemma TopBitWords(x: bv32)
    requires HiBit(x) == TOP
    ensures HiBit(x) == HiBit(TOP)
  {
  }

  /** Seeding starts from exactly one half of the effective states, those whose predecessor array
    * has the top bit of its first word set; a key of 624 words or more reaches all of that half. */
  lemma StartableExactly(w: Block, length: nat)
    requires N <= length <= MAX_KEY
    ensures Startable(w, length) <==> HiBit(Back(w, N)[0]) == TOP
  {
    hide KeyArray, Back, Window, Complete, Step;
    var b := Back(w, N);
    if Startable(w, length) {
      StartHasTop(w, length);
    }
    if HiBit(b[0]) == TOP {
      var target: Block := b[0 := TOP];
      TopBitWords(b[0]);
      assert Canon(target) == Canon(b);
      TransitionBijective(w, N, target);
      OntoExactly(length);
      var k: Key :| |k| == length && KeyArray(k) == target;
      assert Startable(w, length);
    }
  }

  /** Over all lengths together: the same half of the effective states. */
  lemma StartableAtAllExactly(w: Block)
    ensures (exists length: nat :: 0 < length <= MAX_KEY && Startable(w, length)) <==> HiBit(Back(w, N)[0]) == TOP
  {
    hide KeyArray, Back, Window, Step, Startable;
    StartableExactly(w, N);
    forall length: nat | 0 < length <= MAX_KEY && Startable(w, length)
      ensures HiBit(Back(w, N)[0]) == TOP
    {
      StartHasTop(w, length);
    }
  }

  lemma StartHasTop(w: Block, length: nat)
    requires Startable(w, length)
    ensures HiBit(Back(w, N)[0]) == TOP
  {
    hide KeyArray, Back, Window, Step;
    var k: Key :| |k| == length && SameState(Window(KeyArray(k), N), w);
    TransitionBijective(w, N, KeyArray(k));
    ArrayHasTop(k);
    SameStateSlots(KeyArray(k), Back(w, N));
  }

  /** No key of any length starts from a state whose predecessor has that bit clear, although such
    * a state need not be the all-zero one. */
  lemma UnreachableState(length: nat)
    requires 0 < length <= MAX_KEY
    ensures var s: Block := ZERO[1 := 1];
            !SameState(Window(s, N), ZERO) && !Startable(Window(s, N), length)
  {
    hide KeyArray, Window, Step;
    var s: Block := ZERO[1 := 1];
    ZeroIsolated(s, N);
    assert Canon(s)[1] != Canon(ZERO)[1];
    forall k: Key | |k| == length
      ensures !SameState(Window(KeyArray(k), N), Window(s, N))
    {
      TransitionInjective(KeyArray(k), s, N);
      ArrayHasTop(k);
      assert Canon(KeyArray(k))[0] == TOP;
      assert Canon(s)[0] == 0;
    }
  }

  // ---------- The all-zero state ----------

  /** However long a run from a one-word seeding is, the all-zero state is not reached. */
  lemma WordSeedingNeverZero(seed: bv32, n: nat)
    ensures Run(Seeded(Init(seed)), n).1.Valid()
    ensures !SameState(Run(Seeded(Init(seed)), n).1.words, ZERO)
  {
    hide Init, Run, Canon;
    InitNonzero(seed);
    RunNeverZero(Init(seed), n);
  }

  /** ... nor in a run from a key seeding. */
  lemma KeySeedingNeverZero(k: Key, n: nat)
    ensures Run(Seeded(KeyArray(k)), n).1.Valid()
    ensures !SameState(Run(Seeded(KeyArray(k)), n).1.words, ZERO)
  {
    hide KeyArray, Run;
    ArrayHasTop(k);
    assert Canon(KeyArray(k))[0] != Canon(ZERO)[0];
    RunNeverZero(KeyArray(k), n);
  }

  // ---------- What the outputs tell about the seed ----------

  /** Two seed words whose generators agree on any N consecutive outputs are equal. */
  lemma SeedFromOutputs(a: bv32, b: bv32, t: nat)
    requires forall j :: t <= j < t + N ==> Stream(Seeded(Init(a)), j) == Stream(Seeded(Init(b)), j)
    ensures a == b
  {
    hide Init, Stream, Canon;
    SeedStateFromOutputs(Init(a), Init(b), t);
    InitInjective(a, b);
  }

  /** Two keys of the same length up to 622 whose generators agree on any N consecutive outputs are
    * equal. */
  lemma KeyFromOutputs(k: Key, k': Key, t: nat)
    requires |k| == |k'| <= N - 2
    requires forall j :: t <= j < t + N ==> Stream(Seeded(KeyArray(k)), j) == Stream(Seeded(KeyArray(k')), j)
    ensures k == k'
  {
    hide KeyArray, Stream, Canon;
    SeedStateFromOutputs(KeyArray(k), KeyArray(k'), t);
    ArrayHasTop(k);
    ArrayHasTop(k');
    SameStateSlots(KeyArray(k), KeyArray(k'));
    assert KeyArray(k) == KeyArray(k');
    ShortKeysInjective(k, k');
  }
}
