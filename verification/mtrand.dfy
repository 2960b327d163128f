/** The class `MTRand` as it runs: an array of `unsigned long` overwritten in place, a cursor and a
  * counter.  Every method is tied to the 32-bit state machine of module Generators; no contract
  * depends on the platform, so 32-bit and 64-bit runs agree. */
module MersenneTwister {
  import opened Words
  import opened CWords
  import opened Recurrence
  import opened Tempering
  import opened Generators
  import opened Seeding
  import opened Machine
  import opened Draws

  // ---------- What the loops have done so far ----------

  /** What cell k holds after p rounds of `reload`. */
  ghost function Cell(s: Block, p: nat, k: nat): bv32
    requires k < N
  {
    if k < p then X(s, N + k) else s[k]
  }

  ghost function Cells(s: Block, p: nat): Block {
    seq(N, k requires 0 <= k < N => Cell(s, p, k))
  }

  /** Round p writes the next term, although two of the cells it reads may be new already. */
  lemma ReloadRound(platform: Platform, s: Block, p: nat)
    requires p < N
    ensures var m := if p + M < N then p + M else p + M - N;
            var next := if p + 1 < N then p + 1 else 0;
            var c := Cells(s, p);
            Twist(platform, Wide(c[m]), Wide(c[p]), Wide(c[next])) == Wide(X(s, N + p))
            && Cells(s, p + 1) == c[p := X(s, N + p)]
  {
    hide Twist, Wide, Next;
    var m := if p + M < N then p + M else p + M - N;
    var next := if p + 1 < N then p + 1 else 0;
    assert X(s, p + M) == Cell(s, p, m) && X(s, p + 1) == Cell(s, p, next) && X(s, p) == Cell(s, p, p);
    TwistIsNext(platform, X(s, p + M), X(s, p), X(s, p + 1));
  }

  lemma ReloadEnds(s: Block)
    ensures Cells(s, 0) == s
    ensures Cells(s, N) == Window(s, N)
  {
  }

  /** The place in a circle of n places after t steps. */
  function Turn(t: nat, n: nat): (r: nat)
    requires n > 0
    ensures r < n
  {
    t % n
  }

  /** Round t of the first pass writes slot s; slot 0 repeats slot N - 1. */
  predicate Writes(t: nat, s: nat) {
    s == Turn(t, N - 1) + 1 || (s == 0 && Turn(t, N - 1) + 1 == N - 1)
  }

  /** What slot s holds after t rounds of the first pass. */
  ghost function Latest(key: Key, t: nat, s: nat): bv32
    requires s < N
  {
    if t == 0 then KEY_BASE[s]
    else if Writes(t - 1, s) then Tape(key, t - 1)
    else Latest(key, t - 1, s)
  }

  /** A slot keeps its word until the pass comes round again. */
  lemma {:induction false} LatestIsTape(key: Key, t: nat, u: nat)
    requires u < t <= u + (N - 1)
    ensures Latest(key, t, Turn(u, N - 1) + 1) == Tape(key, u)
    decreases t
  {
    hide Tape, KEY_BASE;
    if t > u + 1 {
      assert (t - 1) % (N - 1) != u % (N - 1);
      LatestIsTape(key, t - 1, u);
    }
  }

  lemma {:induction false} LatestIsBase(key: Key, t: nat, s: nat)
    requires 1 <= s < N && t < s
    ensures Latest(key, t, s) == KEY_BASE[s]
  {
    hide Tape, KEY_BASE;
    if t > 0 {
      assert (t - 1) % (N - 1) == t - 1;
      LatestIsBase(key, t - 1, s);
    }
  }

  /** Round t overwrites what the recurrence says it does. */
  lemma LatestIsOverwritten(key: Key, t: nat)
    ensures Latest(key, t, Turn(t, N - 1) + 1) == Overwritten(key, t)
  {
    hide Tape, KEY_BASE, Latest;
    if t < N - 1 {
      assert t % (N - 1) == t;
      LatestIsBase(key, t, t + 1);
    } else {
      assert (t - (N - 1)) % (N - 1) == t % (N - 1);
      LatestIsTape(key, t, t - (N - 1));
    }
  }

  /** ... and finds the word it depends on in the slot before. */
  lemma LatestIsPreceding(key: Key, t: nat)
    ensures Latest(key, t, Turn(t, N - 1)) == Preceding(key, t)
  {
    hide Tape, KEY_BASE;
  }

  /** The whole array after t rounds of the first pass. */
  ghost function Stage(key: Key, t: nat): Block {
    seq(N, s requires 0 <= s < N => Latest(key, t, s))
  }

  lemma StageAtStart(key: Key)
    ensures Stage(key, 0) == KEY_BASE
  {
    hide Tape;
  }

  /** What the writes of round t make of the array. */
  lemma StageRound(key: Key, t: nat)
    ensures var i := Turn(t, N - 1) + 1;
            var put := Stage(key, t)[i := Tape(key, t)];
            Stage(key, t + 1) == (if i == N - 1 then put[0 := Tape(key, t)] else put)
            && Stage(key, t)[i] == Overwritten(key, t)
            && Stage(key, t)[i - 1] == Preceding(key, t)
  {
    hide Tape, KEY_BASE, Overwritten, Preceding;
    var i := Turn(t, N - 1) + 1;
    LatestIsOverwritten(key, t);
    LatestIsPreceding(key, t);
    var put := Stage(key, t)[i := Tape(key, t)];
    var all := if i == N - 1 then put[0 := Tape(key, t)] else put;
    forall s | 0 <= s < N
      ensures Stage(key, t + 1)[s] == all[s]
    {
    }
  }

  /** On the caller's array: round r of the first pass uses the low half of word r and adds r, for every
    * word, and some round writes every slot from 1 on. */
  lemma FirstPassCovers(a: seq<bv64>, r: nat, s: nat)
    requires 0 < |a| <= MAX_KEY && r < |a| && 1 <= s < N
    ensures r < Rounds(|a|) && Share(KeyOf(a), r) == Plus((a[r] & 0xffff_ffff) as bv32, Low(r as bv64))
    ensures var key := KeyOf(a);
            exists t :: 0 <= t < Rounds(|a|) && Writes(t, s) && Stage(key, t + 1)[s] == Tape(key, t)
  {
    hide Share, Plus, Low, Tape, KEY_BASE;
    var key := KeyOf(a);
    KeyOfWords(a, r);
    OwnShare(key, r);
    assert Writes(s - 1, s) by { SmallMod(s - 1, N - 1); }
    assert Stage(key, (s - 1) + 1)[s] == Tape(key, s - 1);
  }

  lemma TapeRound(key: Key, t: nat)
    ensures Tape(key, t)
         == Plus(Xor(Overwritten(key, t), Mix1(Preceding(key, t))), Plus(key[Turn(t, |key|)], Num(Turn(t, |key|))))
  {
    hide Plus, Xor, Mix1, Num, KEY_BASE;
  }

  /** After the first pass the slots, read from the cursor on, are its last N - 1 words. */
  lemma LatestIsWindow(key: Key, s: nat)
    requires 1 <= s < N
    ensures Latest(key, Rounds(|key|), s) == FirstWindow(key)[RoundOf(Start(|key|), s)]
  {
    hide Tape, KEY_BASE, Latest;
    var k := Rounds(|key|);
    var u := k - (N - 1) + RoundOf(Start(|key|), s);
    assert u % (N - 1) == s - 1 by {
      var q := k / (N - 1);
      assert u == (q - 1) * (N - 1) + (s - 1) || u == q * (N - 1) + (s - 1);
    }
    LatestIsTape(key, k, u);
  }

  /** The first round of the second pass depends on the last word of the first pass. */
  lemma LatestAtCursor(key: Key)
    ensures Latest(key, Rounds(|key|), Start(|key|)) == FirstWindow(key)[N - 2]
  {
    hide Tape, KEY_BASE, Latest;
    LatestIsPreceding(key, Rounds(|key|));
  }

  /** What slot s holds after v rounds of the second pass, if slot 0 held `zeroth` before it. */
  function Midway(w: Lap, a: nat, v: nat, zeroth: bv32, s: nat): bv32
    requires a < N - 1 && v < N && s < N
  {
    var round := RoundOf(a, if s == 0 then N - 1 else s);
    if round < v then Second(w, a, round) else if s == 0 then zeroth else w[round]
  }

  function Middle(w: Lap, a: nat, v: nat, zeroth: bv32): Block
    requires a < N - 1 && v < N
  {
    seq(N, s requires 0 <= s < N => Midway(w, a, v, zeroth, s))
  }

  lemma MidwayStep(w: Lap, a: nat, v: nat, zeroth: bv32, s: nat)
    requires a < N - 1 && v < N - 1 && s < N
    ensures var i := Slot(a, v);
            Midway(w, a, v + 1, zeroth, s)
            == if s == i || (s == 0 && i == N - 1) then Second(w, a, v) else Midway(w, a, v, zeroth, s)
  {
    hide Second;
    SlotsOnce(a, v, if s == 0 then N - 1 else s);
  }

  /** What the writes of round v of the second pass make of the array. */
  lemma MiddleRound(w: Lap, a: nat, v: nat, zeroth: bv32)
    requires a < N - 1 && v < N - 1
    requires a == 0 ==> zeroth == w[N - 2]
    ensures var i := Slot(a, v);
            var before := Middle(w, a, v, zeroth);
            1 <= i < N
            && Second(w, a, v) == Minus(Xor(before[i], Mix2(before[i - 1])), Num(i))
            && var put := before[i := Second(w, a, v)];
               Middle(w, a, v + 1, zeroth) == if i == N - 1 then put[0 := Second(w, a, v)] else put
  {
    hide Minus, Xor, Mix2, Num;
    var i := Slot(a, v);
    SlotsOnce(a, v, i);
    var put := Middle(w, a, v, zeroth)[i := Second(w, a, v)];
    var all := if i == N - 1 then put[0 := Second(w, a, v)] else put;
    forall s | 0 <= s < N
      ensures Middle(w, a, v + 1, zeroth)[s] == all[s]
    {
      hide Second, Midway, Slot;
      MidwayStep(w, a, v, zeroth, s);
    }
  }

  /** Once its first word is set, the array is the one that key seeding is said to make. */
  lemma MiddleEnds(key: Key, zeroth: bv32)
    ensures Middle(FirstWindow(key), Start(|key|), N - 1, zeroth)[0 := TOP] == KeyArray(key)
  {
    hide Second, FirstWindow, Start;
  }

  /** The second pass starts from what the first one has left. */
  lemma PassesMeet(key: Key)
    ensures var zeroth := Latest(key, Rounds(|key|), 0);
            Stage(key, Rounds(|key|)) == Middle(FirstWindow(key), Start(|key|), 0, zeroth)
            && (Start(|key|) == 0 ==> zeroth == FirstWindow(key)[N - 2])
  {
    hide Latest, FirstWindow, Second, Start, Rounds;
    LatestAtCursor(key);
    forall s | 1 <= s < N
      ensures Stage(key, Rounds(|key|))[s]
           == Middle(FirstWindow(key), Start(|key|), 0, Latest(key, Rounds(|key|), 0))[s]
    {
      LatestIsWindow(key, s);
    }
  }

  /** The key in an array of machine words: the bits above the lower 32 are dropped. */
  function KeyOf(a: seq<bv64>): Key
    requires 0 < |a| <= MAX_KEY
  {
    seq(|a|, i requires 0 <= i < |a| => Low(a[i]))
  }

  /** Word r of the key is the lower half of word r of the caller's array. */
  lemma KeyOfWords(a: seq<bv64>, r: nat)
    requires 0 < |a| <= MAX_KEY && r < |a|
    ensures |KeyOf(a)| == |a| && KeyOf(a)[r] == (a[r] & 0xffff_ffff) as bv32
  {
  }

  class MTRand {
    const platform: Platform
    const state: array<bv64>
    var pNext: nat
    var left: nat
    /** The 32-bit words that the array stores. */
    ghost var words: Block

    ghost predicate Holds()
      reads this, state
    {
      state.Length == N && forall i :: 0 <= i < N ==> state[i] == Wide(words[i])
    }

    ghost predicate Valid()
      reads this, state
    {
      Holds() && left <= N && pNext == N - left
    }

    ghost function View(): Generator
      reads this, state
      requires Valid()
    {
      Generator(words, left)
    }

    constructor FromWord(p: Platform, oneSeed: bv64)
      ensures Valid() && fresh(state) && platform == p
      ensures View() == Seeded(Init(Low(oneSeed)))
    {
      platform := p;
      state := new bv64[N];
      new;
      SeedWord(oneSeed);
    }

    constructor FromKey(p: Platform, bigSeed: array<bv64>, seedLength: nat)
      requires 0 < seedLength <= bigSeed.Length && seedLength <= MAX_KEY
      ensures Valid() && fresh(state) && platform == p
      ensures View() == Seeded(KeyArray(KeyOf(bigSeed[..seedLength])))
    {
      platform := p;
      state := new bv64[N];
      new;
      SeedKey(bigSeed, seedLength);
    }

    method SeedWord(oneSeed: bv64)
      requires state.Length == N
      modifies this, state
      ensures Valid()
      ensures View() == Seeded(Init(Low(oneSeed)))
    {
      Initialize(oneSeed);
      Reload();
    }

    method SeedKey(bigSeed: array<bv64>, seedLength: nat)
      requires state.Length == N && bigSeed != state
      requires 0 < seedLength <= bigSeed.Length && seedLength <= MAX_KEY
      modifies this, state
      ensures Valid()
      ensures View() == Seeded(KeyArray(KeyOf(bigSeed[..seedLength])))
    {
      hide Latest, FirstWindow, Second, Init, Wide, Stage, Middle, KeyArray, Start;
      ghost var key := KeyOf(bigSeed[..seedLength]);
      SeedOfKeys();
      Initialize(19650218);
      var i := FirstPass(bigSeed, seedLength, key);
      PassesMeet(key);
      ghost var zeroth := Latest(key, Rounds(seedLength), 0);
      SecondPass(FirstWindow(key), i, zeroth);
      state[0] := 0x8000_0000;
      words := words[0 := TOP];
      assert state[0] == Wide(TOP) by { WideIs(TOP); }
      MiddleEnds(key, zeroth);
      Reload();
    }

    /** What both loops of key seeding do with a new word: store it, move on, and when the end is
      * reached repeat the last word in slot 0 and go back to slot 1. */
    method Store(i: nat, word: bv64, ghost w: bv32) returns (next: nat)
      requires Holds() && 1 <= i < N && word == Wide(w)
      modifies state, `words
      ensures Holds()
      ensures next == if i == N - 1 then 1 else i + 1
      ensures var put := old(words)[i := w]; words == if i == N - 1 then put[0 := w] else put
    {
      hide Wide;
      state[i] := word;
      words := words[i := w];
      next := i + 1;
      if next >= N {
        state[0] := state[N - 1];
        words := words[0 := words[N - 1]];
        next := 1;
      }
    }

    /** The first loop of key seeding: max(N, seedLength) rounds over the slots and over the key. */
    method FirstPass(bigSeed: array<bv64>, seedLength: nat, ghost key: Key) returns (i: nat)
      requires Holds() && bigSeed != state
      requires 0 < seedLength <= bigSeed.Length && seedLength <= MAX_KEY
      requires key == KeyOf(bigSeed[..seedLength])
      requires words == KEY_BASE
      modifies state, `words
      ensures i == Start(seedLength) + 1
      ensures Holds() && words == Stage(key, Rounds(seedLength))
    {
      hide Tape, FirstPassWord, Wide, Low, Plus, Xor, Mix1, Num, KEY_BASE, Preceding, Overwritten, Stage, Turn;
      i := 1;
      var j := 0;
      var k := if N > seedLength then N else seedLength;
      ghost var t: nat := 0;
      NextModulo(0, N - 1);
      NextModulo(0, seedLength);
      StageAtStart(key);
      while k != 0
        invariant t + k == Rounds(seedLength) && 0 <= k
        invariant i == Turn(t, N - 1) + 1 && j == Turn(t, seedLength)
        invariant Holds() && words == Stage(key, t)
        invariant forall m :: 0 <= m < seedLength ==> Low(bigSeed[m]) == key[m]
        decreases k
      {
        StageRound(key, t);
        TapeRound(key, t);
        FirstPassWide(platform, words[i], words[i - 1], bigSeed[j], j);
        var word := FirstPassWord(platform, state[i], state[i - 1], bigSeed[j], j);
        i := Store(i, word, Tape(key, t));
        j := j + 1;
        NextModulo(t, N - 1);
        NextModulo(t, seedLength);
        if j >= seedLength {
          j := 0;
        }
        t := t + 1;
        k := k - 1;
      }
      StartIsTurn(seedLength);
    }

    /** The second loop of key seeding: once over the slots, from wherever the first one stopped. */
    method SecondPass(ghost w: Lap, start: nat, ghost zeroth: bv32)
      requires Holds()
      requires 1 <= start < N
      requires start == 1 ==> zeroth == w[N - 2]
      requires words == Middle(w, start - 1, 0, zeroth)
      modifies state, `words
      ensures Holds() && words == Middle(w, start - 1, N - 1, zeroth)
    {
      hide SecondPassWord, Second, Wide, Minus, Xor, Mix2, Num, Middle;
      ghost var a := start - 1;
      var i := start;
      var k := N - 1;
      ghost var v: nat := 0;
      while k != 0
        invariant v + k == N - 1 && 0 <= k
        invariant 1 <= i < N && (v < N - 1 ==> i == Slot(a, v))
        invariant Holds() && words == Middle(w, a, v, zeroth)
        decreases k
      {
        MiddleRound(w, a, v, zeroth);
        SecondPassWide(platform, words[i], words[i - 1], i);
        var word := SecondPassWord(platform, state[i], state[i - 1], i);
        i := Store(i, word, Second(w, a, v));
        v := v + 1;
        k := k - 1;
      }
    }

    method Initialize(seed: bv64)
      requires state.Length == N
      modifies state, `words
      ensures Holds() && words == Init(Low(seed))
    {
      hide GrowWord, Wide, Low, Grow, Num;
      ghost var filled := Init(Low(seed));
      var s, r, i := 0, 0, 1;
      AndMask(seed);
      state[s] := And(seed, MASK);
      s := s + 1;
      while i < N
        invariant 1 <= i <= N && s == i && r == i - 1
        invariant forall k :: 0 <= k < i ==> state[k] == Wide(filled[k])
      {
        GrowWide(platform, filled[r], i);
        state[s] := GrowWord(platform, state[r], i);
        s := s + 1;
        r := r + 1;
        i := i + 1;
      }
      words := filled;
    }

    /** Replaces the array by its next N terms, in place: from round N - M on it reads words it has
      * already written, and the last round reads the new first word. */
    method Reload()
      requires Holds()
      modifies this, state
      ensures Valid()
      ensures words == Window(old(words), N) && left == N
    {
      hide Twist, Wide, X, Window, Cells;
      ghost var before := words;
      ReloadEnds(before);
      var p := 0;
      var i := N - M;
      while i != 0
        invariant 0 <= i && p + i == N - M
        invariant Holds() && words == Cells(before, p)
      {
        i := i - 1;
        ReloadRound(platform, before, p);
        state[p] := Twist(platform, state[p + M], state[p], state[p + 1]);
        words := words[p := X(before, N + p)];
        p := p + 1;
      }
      i := M - 1;
      while i != 0
        invariant 0 <= i && p + i == N - 1 && N - M <= p
        invariant Holds() && words == Cells(before, p)
      {
        ReloadRound(platform, before, p);
        state[p] := Twist(platform, state[p + M - N], state[p], state[p + 1]);
        words := words[p := X(before, N + p)];
        p := p + 1;
        i := i - 1;
      }
      ReloadRound(platform, before, p);
      state[p] := Twist(platform, state[p + M - N], state[p], state[0]);
      words := words[p := X(before, N + p)];
      left, pNext := N, 0;
    }

    /** The next output. */
    method RandInt() returns (r: bv64)
      requires Valid()
      modifies this, state
      ensures Valid()
      ensures r == Wide(Draw(old(View())).0)
      ensures View() == Draw(old(View())).1
    {
      hide TemperWord, Temper, Wide, X;
      if left == 0 {
        Reload();
      }
      left := left - 1;
      TemperWide(platform, words[pNext]);
      r := TemperWord(platform, state[pNext]);
      pNext := pNext + 1;
    }

    /** The loop of `RandIntUpTo`.  It ends because an acceptable output lies ahead. */
    method FirstAccepted(n: bv64) returns (r: bv64, ghost draws: nat)
      requires Valid()
      requires n == Wide(Low(n))
      requires exists t: nat :: Accepts(View(), Low(n), t)
      modifies this, state
      ensures Valid()
      ensures draws > 0 && View() == Run(old(View()), draws).1
      ensures Accepts(old(View()), Low(n), draws - 1)
      ensures forall t :: 0 <= t < draws - 1 ==> !Accepts(old(View()), Low(n), t)
      ensures r == Wide(Masked(old(View()), Low(n), draws - 1))
    {
      hide And, SmearWord, Smear, Wide, Low, Draw, Stream, Run, Greater, Masked, Accepts;
      ghost var g := View();
      ghost var bound := Low(n);
      ghost var found: nat :| Accepts(g, bound, found);
      var used := SmearWord(n);
      SmearWide(bound);
      RunOfNone(g);
      draws := 0;
      r := n;
      var done := false;
      while !done
        invariant Valid() && View() == Run(g, draws).1
        invariant forall t :: 0 <= t < draws - 1 ==> !Accepts(g, bound, t)
        invariant !done && draws > 0 ==> !Accepts(g, bound, draws - 1)
        invariant done ==> draws > 0 && Accepts(g, bound, draws - 1) && r == Wide(Masked(g, bound, draws - 1))
        invariant !done ==> draws <= found
        decreases if done then 0 else found + 1 - draws
      {
        RunThenDraw(g, draws);
        var i := RandInt();
        RejectionTest(g, bound, draws);
        r := And(i, used);
        done := !Greater(r, n);
        draws := draws + 1;
      }
    }

    /** A number in [0, n]: the first output whose masked value is at most n; `draws` counts the
      * outputs used up. */
    method RandIntUpTo(n: bv64) returns (r: bv64, ghost draws: nat)
      requires Valid()
      requires n == Wide(Low(n))
      requires exists t: nat :: Accepts(View(), Low(n), t)
      modifies this, state
      ensures Valid()
      ensures draws > 0 && View() == Run(old(View()), draws).1
      ensures Accepts(old(View()), Low(n), draws - 1)
      ensures forall t :: 0 <= t < draws - 1 ==> !Accepts(old(View()), Low(n), t)
      ensures r == Wide(Masked(old(View()), Low(n), draws - 1))
      ensures Low(r) <= Low(n)
    {
      hide Wide, Low, Run, Masked, Accepts;
      ghost var g := View();
      r, draws := FirstAccepted(n);
      ResultInRange(g, Low(n), draws - 1, r);
    }

    /** A multiple of 2^-53, in exact arithmetic. */
    method Rand53() returns (x: real)
      requires Valid()
      modifies this, state
      ensures Valid() && View() == Run(old(View()), 2).1
      ensures x == Numerator(Stream(old(View()), 0), Stream(old(View()), 1)) as real / 9007199254740992.0
      ensures 0.0 <= x < 1.0
    {
      hide Shr, Wide, Draw, Stream, Numerator, Run;
      ghost var g := View();
      RunOfNone(g);
      RunThenDraw(g, 0);
      RunThenDraw(g, 1);
      var first := RandInt();
      var a := Shr(first, 5);
      var second := RandInt();
      var b := Shr(second, 6);
      UpperBits(Stream(g, 0), Stream(g, 1));
      ScaledInUnit(Stream(g, 0), Stream(g, 1));
      x := ((a as nat) as real * 67108864.0 + (b as nat) as real) * (1.0 / 9007199254740992.0);
    }

    method Save(saveArray: array<bv64>)
      requires Valid()
      requires saveArray.Length == N + 1 && saveArray != state
      modifies saveArray
      ensures saveArray[..] == SaveImage(View())
    {
      hide Wide, CountToWord;
      var s, sa, i := 0, 0, N;
      while i != 0
        invariant 0 <= i && s + i == N && sa == s
        invariant forall k :: 0 <= k < s ==> saveArray[k] == state[k]
        invariant forall k :: 0 <= k < N ==> state[k] == Wide(words[k])
      {
        i := i - 1;
        saveArray[sa] := state[s];
        sa, s := sa + 1, s + 1;
      }
      saveArray[sa] := CountToWord(left);
    }

    /** Takes over the array and the position from such an array. */
    method Load(loadArray: array<bv64>)
      requires state.Length == N && loadArray != state
      requires Loadable(loadArray[..])
      modifies this, state
      ensures Valid()
      ensures View() == LoadImage(loadArray[..])
    {
      hide Wide, WordToCount, Low;
      var s, la, i := 0, 0, N;
      while i != 0
        invariant 0 <= i && s + i == N && la == s
        invariant forall k :: 0 <= k < s ==> state[k] == loadArray[k]
      {
        i := i - 1;
        state[s] := loadArray[la];
        la, s := la + 1, s + 1;
      }
      left := WordToCount(loadArray[la]);
      pNext := N - left;
      words := LoadImage(loadArray[..]).words;
    }
  }

  lemma RunOfNone(g: Generator)
    requires g.Valid()
    ensures Run(g, 0).1 == g
  {
  }

  lemma SeedOfKeys()
    ensures KEY_BASE == Init(Low(19650218))
  {
    assert Low(19650218) == 19650218;
    hide Init;
  }

  lemma StartIsTurn(length: nat)
    ensures Start(length) == Turn(Rounds(length), N - 1)
  {
  }

  /** Counting round a circle of n places. */
  lemma NextModulo(t: nat, n: nat)
    requires n > 0
    ensures Turn(t + 1, n) == if Turn(t, n) + 1 == n then 0 else Turn(t, n) + 1
    ensures Turn(0, n) == 0
  {
    var d := (t + 1) / n - t / n;
    var rest := 1 + t % n - (t + 1) % n;
    Distribute((t + 1) / n, t / n, n);
    Multiple(d, n, rest);
  }

  lemma Distribute(x: int, y: int, n: int)
    ensures (x - y) * n == x * n - y * n
  {
  }

  lemma Multiple(d: int, n: int, rest: int)
    requires d * n == rest && -n < rest <= n && n > 0
    ensures rest == 0 || rest == n
  {
    Monotone(d, n);
  }

  lemma Monotone(d: int, n: int)
    requires n > 0
    ensures d > 1 ==> d * n >= 2 * n
    ensures d < 0 ==> d * n <= -n
  {
  }
}
