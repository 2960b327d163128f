/** The fingerprint hash: a rotation and an exclusive or for every word merged. */
module Hasher {
  import opened Words

  // ---------- Rotation ----------

  /** The top bit, as a number. */
  function Carry(v: bv32): bv32 {
    (v & 0x8000_0000) >> 31
  }

  function ShiftIn(v: bv32, carry: bv32): bv32 {
    (v << 1) | carry
  }

  /** Rotation left by one bit. */
  function Rot1(v: bv32): bv32 {
    ShiftIn(v, Carry(v))
  }

  lemma Rot1Is(v: bv32)
    ensures Rot1(v) == (v << 1) | ((v & 0x8000_0000) >> 31)
  {
    assert ShiftIn(v, (v & 0x8000_0000) >> 31) == (v << 1) | ((v & 0x8000_0000) >> 31);
  }

  /** n rotations by one bit. */
  function Rot(v: bv32, n: nat): bv32 {
    if n == 0 then v else Rot1(Rot(v, n - 1))
  }

  lemma Rot1Raw(v: bv32, w: bv32)
    ensures ((v ^ w) << 1) | (((v ^ w) & 0x8000_0000) >> 31)
         == ((v << 1) | ((v & 0x8000_0000) >> 31)) ^ ((w << 1) | ((w & 0x8000_0000) >> 31))
  {
  }

  lemma Rot1Linear(v: bv32, w: bv32)
    ensures Rot1(Xor(v, w)) == Xor(Rot1(v), Rot1(w))
  {
    hide Rot1, Xor;
    XorIs(v, w);
    Rot1Is(v ^ w);
    Rot1Is(v);
    Rot1Is(w);
    Rot1Raw(v, w);
    XorIs((v << 1) | ((v & 0x8000_0000) >> 31), (w << 1) | ((w & 0x8000_0000) >> 31));
  }

  lemma {:induction false} RotLinear(v: bv32, w: bv32, n: nat)
    ensures Rot(Xor(v, w), n) == Xor(Rot(v, n), Rot(w, n))
  {
    hide Rot1, Xor;
    if n > 0 {
      RotLinear(v, w, n - 1);
      Rot1Linear(Rot(v, n - 1), Rot(w, n - 1));
    }
  }

  lemma {:induction false} RotAdds(v: bv32, m: nat, n: nat)
    ensures Rot(Rot(v, m), n) == Rot(v, m + n)
  {
    hide Rot1;
    if n > 0 {
      RotAdds(v, m, n - 1);
    }
  }

  // A rotation by k bits in one step, from the bits that move up and the bits that come in below.

  function Up(v: bv32, k: bv6): bv32
    requires k <= 32
  {
    v << k
  }

  function Down(v: bv32, k: bv6): bv32
    requires k <= 32
  {
    v >> (32 - k)
  }

  function Either(x: bv32, y: bv32): bv32 {
    x | y
  }

  function Rotated(v: bv32, k: bv6): bv32
    requires k <= 32
  {
    Either(Up(v, k), Down(v, k))
  }

  /** Both parts of a word, turned by one bit; `y` has its top bit clear. */
  function TurnedDown(x: bv32, y: bv32): bv32 {
    (y << 1) | (x >> 31)
  }

  predicate TopClear(y: bv32) {
    y & 0x8000_0000 == 0
  }

  lemma UpTurns(v: bv32, k: bv6)
    requires k < 32
    ensures Up(Up(v, k), 1) == Up(v, k + 1)
  {
    assert Up(v << k, 1) == Up(v, k + 1);
  }

  lemma DownTurns(v: bv32, k: bv6)
    requires k < 32
    ensures TurnedDown(Up(v, k), Down(v, k)) == Down(v, k + 1)
  {
    assert TurnedDown(v << k, v >> (32 - k)) == Down(v, k + 1);
  }

  lemma DownIsClear(v: bv32, k: bv6)
    requires k < 32
    ensures TopClear(Down(v, k))
  {
    assert TopClear(v >> (32 - k));
  }

  lemma TurnedRaw(x: bv32, y: bv32)
    requires TopClear(y)
    ensures ((x | y) << 1) | (((x | y) & 0x8000_0000) >> 31) == Either(x << 1, (y << 1) | (x >> 31))
  {
  }

  lemma EitherIs(x: bv32, y: bv32)
    ensures Either(x, y) == x | y
  {
  }

  lemma UpIs(x: bv32)
    ensures Up(x, 1) == x << 1
  {
  }

  lemma TurnedDownIs(x: bv32, y: bv32)
    ensures TurnedDown(x, y) == (y << 1) | (x >> 31)
  {
  }

  lemma Rot1OfParts(x: bv32, y: bv32)
    requires TopClear(y)
    ensures Rot1(Either(x, y)) == Either(Up(x, 1), TurnedDown(x, y))
  {
    hide Rot1, Either, Up, TurnedDown, TopClear;
    EitherIs(x, y);
    UpIs(x);
    TurnedDownIs(x, y);
    Rot1Is(x | y);
    TurnedRaw(x, y);
  }

  lemma RotatedOnce(v: bv32, k: bv6)
    requires k < 32
    ensures Rot1(Rotated(v, k)) == Rotated(v, k + 1)
  {
    hide Rot1, Either, Up, Down, TurnedDown, TopClear;
    DownIsClear(v, k);
    Rot1OfParts(Up(v, k), Down(v, k));
    UpTurns(v, k);
    DownTurns(v, k);
  }

  lemma NoRotation(v: bv32)
    ensures Rotated(v, 0) == v && Rotated(v, 32) == v
  {
  }

  lemma Predecessor(k: bv6)
    ensures k == 0 ==> k as nat == 0
    ensures k > 0 ==> k as nat > 0 && (k - 1) as nat == k as nat - 1
  {
  }

  /** One-bit rotations add up to a true rotation. */
  lemma {:induction false} RotIsRotated(v: bv32, k: bv6)
    requires k <= 32
    ensures Rot(v, k as nat) == Rotated(v, k)
    decreases k as nat
  {
    hide Rot1, Rotated;
    Predecessor(k);
    if k == 0 {
      NoRotation(v);
    } else {
      RotIsRotated(v, k - 1);
      RotatedOnce(v, k - 1);
    }
  }

  /** Only the number of rotations modulo 32 matters. */
  lemma RotPeriod(v: bv32, n: nat)
    ensures Rot(v, n + 32) == Rot(v, n)
  {
    hide Rot, Rotated;
    RotIsRotated(v, 32);
    NoRotation(v);
    RotAdds(v, 32, n);
  }

  lemma RotatedIs(v: bv32, k: bv6)
    requires k <= 32
    ensures Rotated(v, k) == (v << k) | (v >> (32 - k))
  {
    assert Either(v << k, v >> (32 - k)) == (v << k) | (v >> (32 - k));
  }

  /** Any number of one-bit rotations is one rotation by that number modulo 32. */
  lemma {:induction false} RotIsRotation(v: bv32, n: nat, k: bv6)
    requires k < 32 && k as nat == n % 32
    ensures Rot(v, n) == (v << k) | (v >> (32 - k))
    decreases n
  {
    hide Rot, Rotated;
    RotatedIs(v, k);
    if n < 32 {
      RotIsRotated(v, k);
    } else {
      RotIsRotation(v, n - 32, k);
      RotPeriod(v, n - 32);
    }
  }

  function Unrot1(v: bv32): bv32 {
    (v >> 1) | ((v & 1) << 31)
  }

  lemma Rot1Injective(v: bv32, w: bv32)
    requires Rot1(v) == Rot1(w)
    ensures v == w
  {
    Unrot1Rot1(v);
    Unrot1Rot1(w);
    hide Rot1, Unrot1;
  }

  lemma Unrot1Raw(v: bv32)
    ensures Unrot1((v << 1) | ((v & 0x8000_0000) >> 31)) == v
  {
  }

  lemma Unrot1Rot1(v: bv32)
    ensures Unrot1(Rot1(v)) == v
  {
    hide Rot1, Unrot1;
    Rot1Is(v);
    Unrot1Raw(v);
  }

  lemma {:induction false} RotInjective(v: bv32, w: bv32, n: nat)
    requires Rot(v, n) == Rot(w, n)
    ensures v == w
  {
    hide Rot1;
    if n > 0 {
      Rot1Injective(Rot(v, n - 1), Rot(w, n - 1));
      RotInjective(v, w, n - 1);
    }
  }

  // ---------- Merging words ----------

  /** The value after one merge. */
  function Merged(v: bv32, w: bv32): bv32 {
    Xor(Rot1(v), w)
  }

  /** The value after merging `words` one after the other. */
  function Hash(v: bv32, words: seq<bv32>): bv32 {
    if words == [] then v else Merged(Hash(v, words[..|words| - 1]), words[|words| - 1])
  }

  /** The exclusive or of all words, each rotated by the number of words after it. */
  function Mixture(words: seq<bv32>): bv32 {
    if words == [] then 0 else Xor(Rot(words[0], |words| - 1), Mixture(words[1..]))
  }

  lemma {:induction false} MixtureSnoc(words: seq<bv32>, w: bv32)
    ensures Mixture(words + [w]) == Xor(Rot1(Mixture(words)), w)
  {
    hide Rot1, Xor;
    var all := words + [w];
    if words == [] {
      assert all[1..] == [];
      ZeroFacts(w);
    } else {
      assert all[1..] == words[1..] + [w];
      MixtureSnoc(words[1..], w);
      Rot1Linear(Rot(words[0], |words| - 1), Mixture(words[1..]));
      XorAssociates(Rot(words[0], |words|), Rot1(Mixture(words[1..])), w);
    }
  }

  lemma ZeroFacts(w: bv32)
    ensures Xor(w, 0) == w && Xor(0, w) == w
    ensures Rot1(0) == 0
  {
  }

  /** The closed form: the start value rotated once per word, and the mixture of the words. */
  lemma {:induction false} HashClosedForm(v: bv32, words: seq<bv32>)
    ensures Hash(v, words) == Xor(Rot(v, |words|), Mixture(words))
  {
    hide Rot1, Xor;
    if words == [] {
      ZeroFacts(v);
    } else {
      var init := words[..|words| - 1];
      var w := words[|words| - 1];
      HashClosedForm(v, init);
      assert words == init + [w];
      MixtureSnoc(init, w);
      Rot1Linear(Rot(v, |init|), Mixture(init));
      XorAssociates(Rot(v, |words|), Rot1(Mixture(init)), w);
    }
  }

  /** Hashing a concatenation is hashing its parts one after the other. */
  lemma {:induction false} HashConcat(v: bv32, a: seq<bv32>, b: seq<bv32>)
    ensures Hash(v, a + b) == Hash(Hash(v, a), b)
  {
    hide Merged;
    if b == [] {
      assert a + b == a;
    } else {
      var c := a + b;
      assert c[..|c| - 1] == a + b[..|b| - 1];
      HashConcat(v, a, b[..|b| - 1]);
    }
  }

  /** A change of the value is never lost by later merges. */
  lemma {:induction false} HashInjective(v: bv32, v': bv32, words: seq<bv32>)
    ensures Hash(v, words) == Hash(v', words) <==> v == v'
  {
    hide Rot, Xor, Hash, Mixture;
    HashClosedForm(v, words);
    HashClosedForm(v', words);
    XorCancels(Rot(v, |words|), Mixture(words));
    XorCancels(Rot(v', |words|), Mixture(words));
    if Rot(v, |words|) == Rot(v', |words|) {
      RotInjective(v, v', |words|);
    }
  }

  /** Two sequences that differ in exactly one word have different hashes. */
  lemma OneWordMatters(v: bv32, words: seq<bv32>, i: nat, w: bv32)
    requires i < |words| && words[i] != w
    ensures Hash(v, words[i := w]) != Hash(v, words)
  {
    hide Rot1, Xor, Merged;
    var changed := words[i := w];
    var head, tail := words[..i], words[i + 1..];
    assert words == head + [words[i]] + tail && changed == head + [w] + tail;
    HashConcat(v, head + [words[i]], tail);
    HashConcat(v, head + [w], tail);
    HashInjective(Hash(v, head + [words[i]]), Hash(v, head + [w]), tail);
    LastWordMatters(v, head, words[i], w);
  }

  lemma LastWordMatters(v: bv32, head: seq<bv32>, w: bv32, w': bv32)
    requires w != w'
    ensures Hash(v, head + [w]) != Hash(v, head + [w'])
  {
    hide Rot1, Xor;
    assert (head + [w])[..|head|] == head && (head + [w'])[..|head|] == head;
    XorCancels(Rot1(Hash(v, head)), w);
    XorCancels(Rot1(Hash(v, head)), w');
  }

  lemma {:induction false} MixtureLinear(a: seq<bv32>, b: seq<bv32>)
    requires |a| == |b|
    ensures Xor(Mixture(a), Mixture(b)) == Mixture(seq(|a|, i requires 0 <= i < |a| => Xor(a[i], b[i])))
  {
    hide Xor, Rot1;
    var c := seq(|a|, i requires 0 <= i < |a| => Xor(a[i], b[i]));
    if a == [] {
      ZeroFacts(0);
    } else {
      MixtureLinear(a[1..], b[1..]);
      assert c[1..] == seq(|a[1..]|, i requires 0 <= i < |a[1..]| => Xor(a[1..][i], b[1..][i]));
      RotLinear(a[0], b[0], |a| - 1);
      XorRegroup(Rot(a[0], |a| - 1), Mixture(a[1..]), Rot(b[0], |a| - 1), Mixture(b[1..]));
    }
  }

  /** Exactly when two sequences of the same length collide. */
  lemma CollisionExactly(v: bv32, a: seq<bv32>, b: seq<bv32>)
    requires |a| == |b|
    ensures Hash(v, a) == Hash(v, b) <==> Mixture(seq(|a|, i requires 0 <= i < |a| => Xor(a[i], b[i]))) == 0
  {
    hide Xor, Rot, Hash, Mixture;
    HashClosedForm(v, a);
    HashClosedForm(v, b);
    MixtureLinear(a, b);
    SameXor(Rot(v, |a|), Mixture(a), Mixture(b));
  }

  lemma SameXor(r: bv32, x: bv32, y: bv32)
    ensures Xor(r, x) == Xor(r, y) <==> Xor(x, y) == 0
  {
    XorCancels(r, x);
    XorCancels(r, y);
    XorSelf(x);
    XorCancels(x, y);
    ZeroFacts(x);
    hide Xor;
  }

  /** Two changes cancel out exactly when the second one is the first one, rotated by the distance
    * between them. */
  lemma TwoChangesCancelExactly(v: bv32, head: seq<bv32>, a: bv32, a': bv32, mid: seq<bv32>, b: bv32, b': bv32,
                                tail: seq<bv32>)
    ensures Hash(v, head + [a] + mid + [b] + tail) == Hash(v, head + [a'] + mid + [b'] + tail)
            <==> Rot(Xor(a, a'), |mid| + 1) == Xor(b, b')
  {
    hide Rot1, Rot, Xor, Hash, Merged;
    var u, u' := Hash(v, head + [a] + mid), Hash(v, head + [a'] + mid);
    HashConcat(v, head + [a] + mid + [b], tail);
    HashConcat(v, head + [a'] + mid + [b'], tail);
    HashInjective(Hash(v, head + [a] + mid + [b]), Hash(v, head + [a'] + mid + [b']), tail);
    HashConcat(v, head + [a] + mid, [b]);
    HashConcat(v, head + [a'] + mid, [b']);
    HashOne(u, b);
    HashOne(u', b');
    ChangeMoves(v, head, a, a', mid);
    SameSums(Rot1(u), b, Rot1(u'), b');
    Rot1Linear(u, u');
    assert Rot1(Rot(Xor(a, a'), |mid|)) == Rot(Xor(a, a'), |mid| + 1) by { RotNext(Xor(a, a'), |mid|); }
  }

  lemma RotNext(v: bv32, n: nat)
    ensures Rot(v, n + 1) == Rot1(Rot(v, n))
  {
    hide Rot1;
  }

  /** A change is rotated once by every later merge. */
  lemma ChangeMoves(v: bv32, head: seq<bv32>, a: bv32, a': bv32, mid: seq<bv32>)
    ensures Xor(Hash(v, head + [a] + mid), Hash(v, head + [a'] + mid)) == Rot(Xor(a, a'), |mid|)
  {
    hide Rot1, Rot, Xor, Hash, Merged, Mixture;
    var p := Hash(v, head);
    HashConcat(v, head + [a], mid);
    HashConcat(v, head + [a'], mid);
    HashConcat(v, head, [a]);
    HashConcat(v, head, [a']);
    HashOne(p, a);
    HashOne(p, a');
    var u, u' := Xor(Rot1(p), a), Xor(Rot1(p), a');
    HashClosedForm(u, mid);
    HashClosedForm(u', mid);
    CommonPart(Rot(u, |mid|), Rot(u', |mid|), Mixture(mid));
    RotLinear(u, u', |mid|);
    XorCommutes(Rot1(p), a);
    XorCommutes(Rot1(p), a');
    CommonPart(a, a', Rot1(p));
  }

  lemma CommonPart(x: bv32, y: bv32, z: bv32)
    ensures Xor(Xor(x, z), Xor(y, z)) == Xor(x, y)
  {
    hide Xor;
    XorRegroup(x, z, y, z);
    XorSelf(z);
    XorSelf(Xor(x, y));
  }

  lemma SameSums(x: bv32, b: bv32, y: bv32, b': bv32)
    ensures Xor(x, b) == Xor(y, b') <==> Xor(x, y) == Xor(b, b')
  {
    hide Xor;
    XorRegroup(x, b, y, b');
    EqualByXor(Xor(x, b), Xor(y, b'));
    EqualByXor(Xor(x, y), Xor(b, b'));
  }

  lemma EqualByXor(x: bv32, y: bv32)
    ensures Xor(x, y) == 0 <==> x == y
  {
    hide Xor;
    XorSelf(x);
    XorCancels(x, y);
    ZeroFacts(y);
  }

  // ---------- Values of the integer types, on either platform ----------

  /** An argument of `add`; longs as the platform holds them. */
  datatype Item =
    | Narrow(w: bv32)        // char, short, int and their unsigned kinds, converted to uint32
    | LongLong(d: bv64)
    | Long(bits: bv64)       // on ILP32 only the lower 32 bits exist
    | UnsignedLong(bits: bv64)

  function SignExtended(x: bv32): bv64 {
    if x & 0x8000_0000 == 0 then x as bv64 else (x as bv64) | 0xffff_ffff_0000_0000
  }

  lemma SignExtendedIs(x: bv32)
    ensures SignExtended(x) == if x & 0x8000_0000 == 0 then x as bv64 else (x as bv64) | 0xffff_ffff_0000_0000
  {
  }

  lemma SignRaw(x: bv32)
    ensures x & 0x8000_0000 == 0 <==> x < 0x8000_0000
    ensures x >= 0x8000_0000 ==> ((x as bv64) | 0xffff_ffff_0000_0000) + ((0 - x) as bv64) == 0
  {
  }

  /** A long and its extension have the same signed value: nothing changes from 0 to 2^31 - 1, and
    * otherwise the extension is minus the number that the long is minus. */
  lemma ExtensionKeepsSigned(x: bv32)
    ensures if x < 0x8000_0000 then SignExtended(x) == x as bv64 else SignExtended(x) + ((0 - x) as bv64) == 0
  {
    SignExtendedIs(x);
    SignRaw(x);
    hide SignExtended;
  }

  function High(x: bv64): bv32 {
    (x >> 32) as bv32
  }

  /** The 64-bit value that `add` makes of a long or an unsigned long. */
  function Widened(p: Platform, item: Item): bv64
    requires item.Long? || item.UnsignedLong?
  {
    if p.LP64? then item.bits
    else if item.Long? then SignExtended(Low(item.bits))
    else Wide(Low(item.bits))
  }

  /** The words that one `add` merges: the lower half of a 64-bit value first. */
  function WordsOf(p: Platform, item: Item): seq<bv32> {
    match item
    case Narrow(w) => [w]
    case LongLong(d) => [Low(d), High(d)]
    case Long(_) => var x := Widened(p, item); [Low(x), High(x)]
    case UnsignedLong(_) => var x := Widened(p, item); [Low(x), High(x)]
  }

  function AllWords(p: Platform, items: seq<Item>): seq<bv32> {
    if items == [] then [] else AllWords(p, items[..|items| - 1]) + WordsOf(p, items[|items| - 1])
  }

  /** The value is from -2^31 to 2^31 - 1, as a signed one. */
  predicate SignedLong(b: bv64) {
    b < 0x8000_0000 || b >= 0xffff_ffff_8000_0000
  }

  predicate BelowTwo32(b: bv64) {
    b < 0x1_0000_0000
  }

  /** The value is one that a 32-bit long can have: from -2^31 to 2^31 - 1 for a long, below 2^32 for an
    * unsigned long. */
  predicate Fits(item: Item) {
    (item.Long? ==> SignedLong(item.bits)) && (item.UnsignedLong? ==> BelowTwo32(item.bits))
  }

  /** The platforms widen a long to the same value exactly when it fits. */
  lemma WidenedAlike(item: Item)
    requires item.Long? || item.UnsignedLong?
    ensures Widened(ILP32, item) == Widened(LP64, item) <==> Fits(item)
  {
    hide SignExtended, Low, Wide, Extends, SignedLong, BelowTwo32;
    var b := item.bits;
    LowIs(b);
    ExtendsIs(b, Low(b));
    ExtendsLow(b);
    MaskIsLow(b);
    MaskedIs(b);
  }

  predicate Extends(b: bv64, x: bv32) {
    b == if x & 0x8000_0000 == 0 then x as bv64 else (x as bv64) | 0xffff_ffff_0000_0000
  }

  lemma SignedRaw(b: bv64)
    ensures b == (if ((b & 0xffff_ffff) as bv32) & 0x8000_0000 == 0 then ((b & 0xffff_ffff) as bv32) as bv64
                  else (((b & 0xffff_ffff) as bv32) as bv64) | 0xffff_ffff_0000_0000)
            <==> b < 0x8000_0000 || b >= 0xffff_ffff_8000_0000
  {
  }

  lemma ExtendsLow(b: bv64)
    ensures Extends(b, (b & 0xffff_ffff) as bv32) <==> SignedLong(b)
  {
    SignedRaw(b);
    assert Extends(b, (b & 0xffff_ffff) as bv32)
        <==> b == (if ((b & 0xffff_ffff) as bv32) & 0x8000_0000 == 0 then ((b & 0xffff_ffff) as bv32) as bv64
                   else (((b & 0xffff_ffff) as bv32) as bv64) | 0xffff_ffff_0000_0000);
    hide Extends;
  }

  lemma ExtendsIs(b: bv64, x: bv32)
    ensures Extends(b, x) <==> b == SignExtended(x)
  {
  }

  lemma LowIs(b: bv64)
    ensures Low(b) == (b & 0xffff_ffff) as bv32
  {
  }

  lemma MaskedIs(b: bv64)
    ensures b & 0xffff_ffff == b <==> BelowTwo32(b)
  {
  }

  /** The order of the merges: a 64-bit value is its lower half, then its upper half. */
  lemma WordsInLiterals(p: Platform, w: bv32, d: bv64)
    ensures WordsOf(p, Narrow(w)) == [w]
    ensures WordsOf(p, LongLong(d)) == [(d & 0xffff_ffff) as bv32, (d >> 32) as bv32]
    ensures WordsOf(LP64, Long(d)) == WordsOf(LP64, UnsignedLong(d)) == WordsOf(p, LongLong(d))
    ensures WordsOf(ILP32, UnsignedLong(d)) == [(d & 0xffff_ffff) as bv32, 0]
    ensures WordsOf(ILP32, Long(d))
         == [(d & 0xffff_ffff) as bv32, if (d & 0xffff_ffff) as bv32 < 0x8000_0000 then 0 else 0xffff_ffff]
  {
    hide Low, High, Wide, SignExtended;
    HalvesAre(d);
    ExtensionsKeepLow(Low(d));
    ExtensionsHigh(Low(d));
  }

  lemma ExtensionsHigh(x: bv32)
    ensures High(SignExtended(x)) == if x < 0x8000_0000 then 0 else 0xffff_ffff
    ensures High(Wide(x)) == 0
  {
    assert High(if x & 0x8000_0000 == 0 then x as bv64 else (x as bv64) | 0xffff_ffff_0000_0000)
        == if x < 0x8000_0000 then 0 else 0xffff_ffff;
    assert High(x as bv64) == 0;
  }

  /** Programs that stay within 32-bit longs have the same fingerprint on both platforms. */
  lemma {:induction false} FingerprintPortable(items: seq<Item>, v: bv32)
    requires forall k :: 0 <= k < |items| ==> Fits(items[k])
    ensures Hash(v, AllWords(ILP32, items)) == Hash(v, AllWords(LP64, items))
  {
    hide Hash, AllWords, Fits;
    SameWords(items);
  }

  lemma {:induction false} SameWords(items: seq<Item>)
    requires forall k :: 0 <= k < |items| ==> Fits(items[k])
    ensures AllWords(ILP32, items) == AllWords(LP64, items)
  {
    hide Low, High, Widened, Fits;
    if items != [] {
      SameWords(items[..|items| - 1]);
      var item := items[|items| - 1];
      if item.Long? || item.UnsignedLong? {
        WidenedAlike(item);
      }
    }
  }

  lemma {:induction false} AllWordsConcat(p: Platform, a: seq<Item>, b: seq<Item>)
    ensures AllWords(p, a + b) == AllWords(p, a) + AllWords(p, b)
  {
    hide WordsOf;
    if b == [] {
      assert a + b == a;
    } else {
      var c := a + b;
      assert c[..|c| - 1] == a + b[..|b| - 1];
      AllWordsConcat(p, a, b[..|b| - 1]);
    }
  }

  function Rejoined(high: bv32, low: bv32): bv64 {
    ((high as bv64) << 32) | (low as bv64)
  }

  lemma RejoinedRaw(x: bv64)
    ensures Rejoined((x >> 32) as bv32, (x & 0xffff_ffff) as bv32) == x
  {
  }

  lemma HalvesAre(x: bv64)
    ensures High(x) == (x >> 32) as bv32
    ensures Low(x) == (x & 0xffff_ffff) as bv32
  {
  }

  lemma HalvesDetermine(x: bv64, y: bv64)
    requires Low(x) == Low(y) && High(x) == High(y)
    ensures x == y
  {
    hide Low, High, Rejoined;
    HalvesAre(x);
    HalvesAre(y);
    RejoinedRaw(x);
    RejoinedRaw(y);
  }

  lemma ExtensionsKeepLow(x: bv32)
    ensures Low(SignExtended(x)) == x
    ensures Low(Wide(x)) == x
  {
    LowWide(x);
    assert Low(if x & 0x8000_0000 == 0 then x as bv64 else (x as bv64) | 0xffff_ffff_0000_0000) == x;
  }

  /** The two platforms merge the same lower half; the upper half is the same exactly when the value
    * fits. */
  lemma WordsAgreeExactly(item: Item)
    requires item.Long? || item.UnsignedLong?
    ensures WordsOf(ILP32, item)[0] == WordsOf(LP64, item)[0]
    ensures WordsOf(ILP32, item)[1] == WordsOf(LP64, item)[1] <==> Fits(item)
  {
    hide Low, High, Wide, SignExtended, Fits;
    ExtensionsKeepLow(Low(item.bits));
    WidenedAlike(item);
    if WordsOf(ILP32, item)[1] == WordsOf(LP64, item)[1] {
      HalvesDetermine(Widened(ILP32, item), item.bits);
    }
  }

  /** A single value that does not fit always shows: the condition is exact for such runs, if ILP32
    * keeps the lower half of the value. */
  lemma UnfitItemShows(before: seq<Item>, item: Item, after: seq<Item>, v: bv32)
    requires forall k :: 0 <= k < |before| ==> Fits(before[k])
    requires forall k :: 0 <= k < |after| ==> Fits(after[k])
    ensures Hash(v, AllWords(ILP32, before + [item] + after)) == Hash(v, AllWords(LP64, before + [item] + after))
            <==> Fits(item)
  {
    hide Hash, Fits, WordsOf, AllWords;
    AllWordsAround(ILP32, before, item, after);
    AllWordsAround(LP64, before, item, after);
    SameWords(before);
    SameWords(after);
    if item.Long? || item.UnsignedLong? {
      WordsAgreeExactly(item);
      TwoWords(item);
      SecondOfTwo(v, AllWords(LP64, before), WordsOf(ILP32, item), WordsOf(LP64, item), AllWords(LP64, after));
    } else {
      NoLong(item);
    }
  }

  lemma AllWordsAround(p: Platform, before: seq<Item>, item: Item, after: seq<Item>)
    ensures AllWords(p, before + [item] + after) == AllWords(p, before) + WordsOf(p, item) + AllWords(p, after)
  {
    hide WordsOf;
    AllWordsConcat(p, before + [item], after);
    assert (before + [item])[..|before|] == before;
  }

  lemma SecondOfTwo(v: bv32, head: seq<bv32>, x: seq<bv32>, y: seq<bv32>, tail: seq<bv32>)
    requires |x| == |y| == 2 && x[0] == y[0]
    ensures Hash(v, head + x + tail) == Hash(v, head + y + tail) <==> x[1] == y[1]
  {
    hide Hash;
    var a := head + x + tail;
    var b := head + y + tail;
    assert a[|head| + 1 := y[1]] == b;
    if x[1] == y[1] {
      assert x == y;
    } else {
      OneWordMatters(v, a, |head| + 1, y[1]);
    }
  }

  lemma TwoWords(item: Item)
    requires item.Long? || item.UnsignedLong?
    ensures |WordsOf(ILP32, item)| == 2 && |WordsOf(LP64, item)| == 2
  {
  }

  lemma NoLong(item: Item)
    requires !item.Long? && !item.UnsignedLong?
    ensures Fits(item) && WordsOf(ILP32, item) == WordsOf(LP64, item)
  {
  }

  /** One merge in literals. */
  lemma MergeInLiterals(v: bv32, x: bv32)
    ensures Hash(v, [x]) == ((v << 1) | (v >> 31)) ^ x
  {
    hide Hash, Rot1, Xor;
    HashOne(v, x);
    Rot1Is(v);
    CarryRaw(v);
    XorIs((v << 1) | (v >> 31), x);
  }

  lemma CarryRaw(v: bv32)
    ensures ((v & 0x8000_0000) >> 31) == (v >> 31)
  {
  }

  // ---------- The object ----------

  class Fingerprint {
    var value: bv32

    constructor ()
      ensures value == 0
    {
      value := 0;
    }

    method Reset()
      modifies this
      ensures value == 0
    {
      value := 0;
    }

    method Merge(x: bv32)
      modifies this
      ensures value == Hash(old(value), [x])
    {
      hide Carry, ShiftIn, Xor;
      HashOne(value, x);
      var carry := Carry(value);
      value := Xor(ShiftIn(value, carry), x);
    }

    /** A 64-bit value: its lower half, then its upper half. */
    method Merge2(x: bv64)
      modifies this
      ensures value == Hash(old(value), [Low(x), High(x)])
    {
      hide Low, High, Hash;
      HashConcat(value, [Low(x)], [High(x)]);
      assert [Low(x)] + [High(x)] == [Low(x), High(x)];
      Merge(Low(x));
      Merge(High(x));
    }

    /** The integer overloads of `add`. */
    method Add(p: Platform, item: Item)
      modifies this
      ensures value == Hash(old(value), WordsOf(p, item))
    {
      hide Low, High, Hash, Wide, SignExtended;
      match item
      case Narrow(w) => Merge(w);
      case LongLong(d) => Merge2(d);
      case Long(_) => Merge2(Widened(p, item));
      case UnsignedLong(_) => Merge2(Widened(p, item));
    }
  }

  lemma HashOne(v: bv32, x: bv32)
    ensures Hash(v, [x]) == Xor(Rot1(v), x)
  {
    hide Rot1, Xor;
    assert [x][..0] == [];
  }
}
