/** Draws from a range by rejection, and draws of 53 bits from two words. */
module Draws {
  import opened Words
  import opened CWords
  import opened Generators

  // ---------- The mask ----------

  /** One of the five steps. */
  function Smeared(x: bv32, k: bv6): bv32
    requires k < 32
  {
    x | (x >> k)
  }

  /** All bits from the highest set bit of n down. */
  function Smear(n: bv32): bv32 {
    Smeared(Smeared(Smeared(Smeared(Smeared(n, 1), 2), 4), 8), 16)
  }

  /** The form 2^b - 1. */
  predicate IsMask(m: bv32) {
    m & (m + 1) == 0
  }

  /** A step, as an equation between words. */
  predicate SmearStep(x: bv32, k: bv6, y: bv32)
    requires k < 32
  {
    y == x | (x >> k)
  }

  predicate Steps(n: bv32, a: bv32, b: bv32, c: bv32, d: bv32, u: bv32) {
    SmearStep(n, 1, a) && SmearStep(a, 2, b) && SmearStep(b, 4, c) && SmearStep(c, 8, d) && SmearStep(d, 16, u)
  }

  lemma SmearedIs(x: bv32, k: bv6)
    requires k < 32
    ensures SmearStep(x, k, Smeared(x, k))
  {
    assert SmearStep(x, k, x | (x >> k));
  }

  lemma StepsMask(n: bv32, a: bv32, b: bv32, c: bv32, d: bv32, u: bv32)
    requires Steps(n, a, b, c, d, u)
    ensures IsMask(u)
  {
  }

  lemma StepsAtMost(n: bv32, a: bv32, b: bv32, c: bv32, d: bv32, u: bv32)
    requires Steps(n, a, b, c, d, u)
    ensures AtMost(n, u)
  {
  }

  lemma StepsTight(n: bv32, a: bv32, b: bv32, c: bv32, d: bv32, u: bv32)
    requires Steps(n, a, b, c, d, u)
    ensures TightFor(n, u)
  {
  }

  predicate AtMost(x: bv32, y: bv32) {
    x <= y
  }

  /** Half of `u` is not enough for n. */
  predicate TightFor(n: bv32, u: bv32) {
    n == 0 || (u >> 1) < n
  }

  lemma SmearedBelow(x: bv32, k: bv6, m: bv32)
    requires k < 32 && IsMask(m) && AtMost(x, m)
    ensures AtMost(Smeared(x, k), m)
  {
    assert AtMost(x | (x >> k), m);
  }

  /** The mask is the least number 2^b - 1 that is not below n, and less than twice n. */
  lemma SmearLeast(n: bv32, m: bv32)
    ensures IsMask(Smear(n)) && AtMost(n, Smear(n)) && TightFor(n, Smear(n))
    ensures IsMask(m) && AtMost(n, m) ==> AtMost(Smear(n), m)
  {
    hide Smeared, IsMask, AtMost, TightFor, SmearStep;
    var a := Smeared(n, 1);
    var b := Smeared(a, 2);
    var c := Smeared(b, 4);
    var d := Smeared(c, 8);
    var u := Smeared(d, 16);
    SmearedIs(n, 1);
    SmearedIs(a, 2);
    SmearedIs(b, 4);
    SmearedIs(c, 8);
    SmearedIs(d, 16);
    StepsMask(n, a, b, c, d, u);
    StepsAtMost(n, a, b, c, d, u);
    StepsTight(n, a, b, c, d, u);
    if IsMask(m) && AtMost(n, m) {
      SmearedBelow(n, 1, m);
      SmearedBelow(a, 2, m);
      SmearedBelow(b, 4, m);
      SmearedBelow(c, 8, m);
      SmearedBelow(d, 16, m);
    }
  }

  /** The same in plain terms: the form 2^b - 1, not below n, and halved below n unless n is zero. */
  lemma SmearInLiterals(n: bv32)
    ensures Smear(n) & (Smear(n) + 1) == 0
    ensures n <= Smear(n)
    ensures n != 0 ==> Smear(n) >> 1 < n
  {
    SmearLeast(n, 0);
    hide Smear;
  }

  // ---------- Every value is equally likely ----------

  /** Word w, masked, is v. */
  predicate Yields(w: bv32, used: bv32, v: bv32) {
    w & used == v
  }

  /** Exchanges the words that yield v with those that yield v'. */
  function Exchange(w: bv32, v: bv32, v': bv32): bv32 {
    w ^ (v ^ v')
  }

  lemma BelowMask(v: bv32, n: bv32, m: bv32)
    requires v <= n && AtMost(n, m) && IsMask(m)
    ensures Yields(v, m, v)
  {
  }

  lemma ExchangeOneWay(w: bv32, used: bv32, v: bv32, v': bv32)
    requires Yields(v, used, v) && Yields(v', used, v') && Yields(w, used, v)
    ensures Yields(Exchange(w, v, v'), used, v')
  {
    ExchangeRaw(w, used, v, v');
    assert Yields(w ^ (v ^ v'), used, v');
  }

  lemma ExchangeRaw(w: bv32, used: bv32, v: bv32, v': bv32)
    requires v & used == v && v' & used == v' && w & used == v
    ensures (w ^ (v ^ v')) & used == v'
  {
  }

  lemma ExchangeTwice(w: bv32, v: bv32, v': bv32)
    ensures Exchange(Exchange(w, v, v'), v', v) == w
  {
    assert Exchange(w ^ (v ^ v'), v', v) == w;
  }

  /** Any two values up to n are masked out of equally many words: `Exchange` maps the words that
    * yield v one to one onto the words that yield v'. */
  lemma EquallyLikely(n: bv32, v: bv32, v': bv32, w: bv32)
    requires v <= n && v' <= n
    ensures Yields(w, Smear(n), v) <==> Yields(Exchange(w, v, v'), Smear(n), v')
    ensures Exchange(Exchange(w, v, v'), v', v) == w
  {
    hide Smear, Yields, Exchange, IsMask, AtMost, TightFor;
    var used := Smear(n);
    SmearLeast(n, 0);
    BelowMask(v, n, used);
    BelowMask(v', n, used);
    ExchangeTwice(w, v, v');
    if Yields(w, used, v) {
      ExchangeOneWay(w, used, v, v');
    }
    if Yields(Exchange(w, v, v'), used, v') {
      ExchangeOneWay(Exchange(w, v, v'), used, v', v);
    }
  }

  // ---------- Rejection ----------

  /** The t-th output of the future, masked. */
  ghost function Masked(g: Generator, n: bv32, t: nat): bv32
    requires g.Valid()
  {
    And32(Stream(g, t), Smear(n))
  }

  ghost predicate Accepts(g: Generator, n: bv32, t: nat)
    requires g.Valid()
  {
    !Greater32(Masked(g, n, t), n)
  }

  /** A draw masks the output. */
  lemma MaskedInLiterals(g: Generator, n: bv32, t: nat)
    requires g.Valid()
    ensures Masked(g, n, t) == Stream(g, t) & Smear(n)
  {
    hide Stream, Smear;
  }

  lemma AcceptedInRange(g: Generator, n: bv32, t: nat)
    requires g.Valid()
    ensures Accepts(g, n, t) <==> Masked(g, n, t) <= n
  {
    hide And32, Stream, Smear;
  }

  /** The plain fact about an accepted output, as the machine word that is returned. */
  lemma ResultInRange(g: Generator, n: bv32, t: nat, r: bv64)
    requires g.Valid() && Accepts(g, n, t) && r == Wide(Masked(g, n, t))
    ensures Low(r) <= n
  {
    hide Wide, Low, Masked, Accepts;
    AcceptedInRange(g, n, t);
    LowWide(Masked(g, n, t));
  }

  lemma AndBelow(x: bv32, n: bv32)
    ensures !Greater32(And32(x, n), n)
  {
    assert !Greater32(x & n, n);
  }

  lemma SmearedMask(n: bv32, k: bv6)
    requires k < 32 && IsMask(n)
    ensures Smeared(n, k) == n
  {
  }

  /** A number of the form 2^b - 1 is its own mask. */
  lemma SmearOfMask(n: bv32)
    requires IsMask(n)
    ensures Smear(n) == n
  {
    hide Smeared, IsMask;
    SmearedMask(n, 1);
    SmearedMask(n, 2);
    SmearedMask(n, 4);
    SmearedMask(n, 8);
    SmearedMask(n, 16);
  }

  /** For n = 2^b - 1, zero included, every output is accepted. */
  lemma MaskAcceptsAll(g: Generator, n: bv32, t: nat)
    requires g.Valid() && IsMask(n)
    ensures Accepts(g, n, t)
  {
    hide And32, Greater32, Stream, Smear, IsMask;
    SmearOfMask(n);
    AndBelow(Stream(g, t), n);
  }

  // ---------- 53 bits from two words ----------

  /** The integer that `rand53` scales: the upper 27 bits of one word, then the upper 26 of the next. */
  function Numerator(w1: bv32, w2: bv32): nat {
    Upper(w1, 5) * 0x400_0000 + Upper(w2, 6)
  }

  function Upper(w: bv32, k: bv6): nat
    requires k < 32
  {
    (w >> k) as nat
  }

  function Packed(w1: bv32, w2: bv32): bv53 {
    (((w1 >> 5) as bv53) << 26) | ((w2 >> 6) as bv53)
  }

  lemma PackedRaw(w1: bv32, w2: bv32)
    ensures ((((w1 >> 5) as bv53) << 26) | ((w2 >> 6) as bv53)) as nat
         == 67108864 * ((w1 >> 5) as nat) + (w2 >> 6) as nat
  {
  }

  lemma PackedIs(w1: bv32, w2: bv32)
    ensures Packed(w1, w2) == (((w1 >> 5) as bv53) << 26) | ((w2 >> 6) as bv53)
  {
  }

  function Value(k: bv53): nat {
    k as nat
  }

  lemma UpperIs(w: bv32)
    ensures Upper(w, 5) == (w >> 5) as nat
    ensures Upper(w, 6) == (w >> 6) as nat
  {
  }

  lemma NumeratorIsPacked(w1: bv32, w2: bv32)
    ensures Numerator(w1, w2) == Value(Packed(w1, w2))
  {
    hide Packed, Upper;
    PackedRaw(w1, w2);
    PackedIs(w1, w2);
    UpperIs(w1);
    UpperIs(w2);
  }

  /** The discarded bits. */
  function Lower5(w: bv32): bv5 {
    (w & 31) as bv5
  }

  function Lower6(w: bv32): bv6 {
    (w & 63) as bv6
  }

  /** The two words that give the integer k, with the discarded bits e and f. */
  function FirstWord(k: bv53, e: bv5): bv32 {
    (((k >> 26) as bv32) << 5) | (e as bv32)
  }

  function SecondWord(k: bv53, f: bv6): bv32 {
    (((k & 0x3ff_ffff) as bv32) << 6) | (f as bv32)
  }

  lemma FirstRaw(w1: bv32, w2: bv32)
    ensures FirstWord((((w1 >> 5) as bv53) << 26) | ((w2 >> 6) as bv53), (w1 & 31) as bv5) == w1
  {
  }

  lemma SecondRaw(w1: bv32, w2: bv32)
    ensures SecondWord((((w1 >> 5) as bv53) << 26) | ((w2 >> 6) as bv53), (w2 & 63) as bv6) == w2
  {
  }

  lemma LowerAre(w: bv32)
    ensures Lower5(w) == (w & 31) as bv5
    ensures Lower6(w) == (w & 63) as bv6
  {
  }

  lemma WordsFromPacked(w1: bv32, w2: bv32)
    ensures FirstWord(Packed(w1, w2), Lower5(w1)) == w1
    ensures SecondWord(Packed(w1, w2), Lower6(w2)) == w2
  {
    hide Packed, FirstWord, SecondWord, Lower5, Lower6;
    FirstRaw(w1, w2);
    SecondRaw(w1, w2);
    LowerAre(w1);
    LowerAre(w2);
    PackedIs(w1, w2);
  }

  lemma PackedFromRaw(k: bv53, e: bv5, f: bv6)
    ensures Packed((((k >> 26) as bv32) << 5) | (e as bv32), (((k & 0x3ff_ffff) as bv32) << 6) | (f as bv32)) == k
  {
  }

  lemma Lower5Raw(k: bv53, e: bv5)
    ensures Lower5((((k >> 26) as bv32) << 5) | (e as bv32)) == e
  {
  }

  lemma Lower6Raw(k: bv53, f: bv6)
    ensures Lower6((((k & 0x3ff_ffff) as bv32) << 6) | (f as bv32)) == f
  {
  }

  lemma WordsAre(k: bv53, e: bv5, f: bv6)
    ensures FirstWord(k, e) == (((k >> 26) as bv32) << 5) | (e as bv32)
    ensures SecondWord(k, f) == (((k & 0x3ff_ffff) as bv32) << 6) | (f as bv32)
  {
  }

  lemma PackedFromWords(k: bv53, e: bv5, f: bv6)
    ensures Packed(FirstWord(k, e), SecondWord(k, f)) == k
    ensures Lower5(FirstWord(k, e)) == e
    ensures Lower6(SecondWord(k, f)) == f
  {
    hide Packed, FirstWord, SecondWord, Lower5, Lower6;
    WordsAre(k, e, f);
    PackedFromRaw(k, e, f);
    Lower5Raw(k, e);
    Lower6Raw(k, f);
  }

  lemma SameInteger(x: bv53, y: bv53)
    requires Value(x) == Value(y)
    ensures x == y
  {
    assert x == (x as nat) as bv53;
    assert y == (y as nat) as bv53;
  }

  lemma ValueInRange(k: bv53)
    ensures Value(k) < 0x20_0000_0000_0000
  {
  }

  // A word as a number, from the bits kept and the bits discarded.

  function Joined5(x: bv27, e: bv5): bv32 {
    ((x as bv32) << 5) | (e as bv32)
  }

  function Joined6(x: bv26, e: bv6): bv32 {
    ((x as bv32) << 6) | (e as bv32)
  }

  function Number(w: bv32): nat {
    w as nat
  }

  lemma SplitRaw(w: bv32)
    ensures Joined5((w >> 5) as bv27, (w & 31) as bv5) == w
    ensures Joined6((w >> 6) as bv26, (w & 63) as bv6) == w
  {
  }

  lemma JoinedRaw5(x: bv27, e: bv5)
    ensures (((x as bv32) << 5) | (e as bv32)) as nat == 32 * (x as nat) + e as nat
    ensures e as nat < 32
  {
  }

  lemma JoinedRaw6(x: bv26, e: bv6)
    ensures (((x as bv32) << 6) | (e as bv32)) as nat == 64 * (x as nat) + e as nat
    ensures e as nat < 64
  {
  }

  lemma JoinedQuotient(x: bv27, e: bv5, y: bv26, f: bv6)
    ensures Number(Joined5(x, e)) / 32 == x as nat
    ensures Number(Joined6(y, f)) / 64 == y as nat
  {
    JoinedRaw5(x, e);
    JoinedRaw6(y, f);
  }

  lemma UpperRaw(w: bv32)
    ensures ((w >> 5) as bv27) as nat == Upper(w, 5)
    ensures ((w >> 6) as bv26) as nat == Upper(w, 6)
  {
    UpperIs(w);
    hide Upper;
  }

  lemma NumberIs(w: bv32)
    ensures Number(w) == w as nat
  {
  }

  /** The integer that `rand53` scales, in the values of the two words. */
  lemma NumeratorInLiterals(w1: bv32, w2: bv32)
    ensures Numerator(w1, w2) == (w1 as nat / 32) * 67108864 + w2 as nat / 64
  {
    hide Upper, Joined5, Joined6, Number;
    SplitRaw(w1);
    SplitRaw(w2);
    JoinedQuotient((w1 >> 5) as bv27, (w1 & 31) as bv5, (w2 >> 6) as bv26, (w2 & 63) as bv6);
    UpperRaw(w1);
    UpperRaw(w2);
    NumberIs(w1);
    NumberIs(w2);
  }

  /** In exact arithmetic the scaled numerator lies in [0, 1). */
  lemma ScaledInUnit(w1: bv32, w2: bv32)
    ensures 0.0 <= Numerator(w1, w2) as real / 9007199254740992.0 < 1.0
  {
    hide Numerator, Packed, Value;
    NumeratorIsPacked(w1, w2);
    ValueInRange(Packed(w1, w2));
  }

  function OfValue(n: nat): bv53
    requires n < 0x20_0000_0000_0000
  {
    n as bv53
  }

  lemma ValueModulo(n: nat)
    requires n < 0x20_0000_0000_0000
    ensures Value(OfValue(n)) == n % 0x20_0000_0000_0000
  {
  }

  /** `Value` takes every integer below 2^53. */
  lemma EveryInteger(n: nat)
    requires n < 0x20_0000_0000_0000
    ensures Value(OfValue(n)) == n
  {
    hide Value, OfValue;
    ValueModulo(n);
  }

  /** Every integer below 2^53, and no other, comes from exactly one pair of words for each choice of
    * the eleven discarded bits, so from 2^11 pairs. */
  lemma PairsPerInteger(n: nat, e: bv5, f: bv6, w1: bv32, w2: bv32)
    ensures Numerator(w1, w2) < 0x20_0000_0000_0000
    ensures n < 0x20_0000_0000_0000 ==>
              (Numerator(w1, w2) == n && Lower5(w1) == e && Lower6(w2) == f
               <==> w1 == FirstWord(OfValue(n), e) && w2 == SecondWord(OfValue(n), f))
  {
    hide Packed, FirstWord, SecondWord, Lower5, Lower6, Numerator, Value, OfValue;
    NumeratorIsPacked(w1, w2);
    ValueInRange(Packed(w1, w2));
    WordsFromPacked(w1, w2);
    if n < 0x20_0000_0000_0000 {
      var k := OfValue(n);
      EveryInteger(n);
      PackedFromWords(k, e, f);
      if Value(Packed(w1, w2)) == Value(k) {
        SameInteger(Packed(w1, w2), k);
      }
    }
  }
}
