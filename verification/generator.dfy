/** The generator as a state machine on (state array, outputs left), and what its runs produce. */
module Generators {
  import opened Words
  import opened Recurrence
  import opened Tempering

  /** `left` words of `words` are still to be handed out; the cursor stands at N - left. */
  datatype Generator = Generator(words: Block, left: nat) {
    predicate Valid() {
      left <= N
    }
  }

  /** The generator after seeding has filled `s` and reloaded. */
  ghost function Seeded(s: Block): Generator {
    Generator(Window(s, N), N)
  }

  /** One draw: an exhausted array is first replaced by its next N terms. */
  ghost function Draw(g: Generator): (bv32, Generator)
    requires g.Valid()
  {
    var h := if g.left == 0 then Generator(Window(g.words, N), N) else g;
    (Temper(h.words[N - h.left]), h.(left := h.left - 1))
  }

  /** n draws in a row. */
  ghost function Run(g: Generator, n: nat): (seq<bv32>, Generator)
    requires g.Valid()
    decreases n
  {
    if n == 0 then ([], g) else
    var (w, h) := Draw(g);
    var (ws, k) := Run(h, n - 1);
    ([w] + ws, k)
  }

  /** Output t of the future of `g`, read off the infinite recurrence. */
  ghost function Stream(g: Generator, t: nat): bv32
    requires g.Valid()
  {
    Temper(X(g.words, N - g.left + t))
  }

  // ---------- Whole runs refine the recurrence ----------

  lemma StreamAfterReload(s: Block, t: nat)
    ensures Stream(Generator(Window(s, N), N), t) == Stream(Generator(s, 0), t)
  {
    WindowX(s, N, t);
  }

  /** A draw hands out the first element of the future and leaves the rest of it. */
  lemma DrawTakesHead(g: Generator)
    requires g.Valid()
    ensures Draw(g).1.Valid()
    ensures Draw(g).0 == Stream(g, 0)
    ensures forall t: nat :: Stream(Draw(g).1, t) == Stream(g, t + 1)
  {
    if g.left == 0 {
      StreamAfterReload(g.words, 0);
      forall t: nat
        ensures Stream(Draw(g).1, t) == Stream(g, t + 1)
      {
        StreamAfterReload(g.words, t + 1);
      }
    }
  }

  /** Any number of draws, across any number of reloads, yields the tempered recurrence in order. */
  lemma {:induction false} RunIsStream(g: Generator, n: nat)
    requires g.Valid()
    ensures Run(g, n).1.Valid()
    ensures |Run(g, n).0| == n
    ensures forall t :: 0 <= t < n ==> Run(g, n).0[t] == Stream(g, t)
    ensures forall t: nat :: Stream(Run(g, n).1, t) == Stream(g, n + t)
    decreases n
  {
    hide X, Temper, Stream, Draw;
    if n > 0 {
      var h := Draw(g).1;
      DrawTakesHead(g);
      RunIsStream(h, n - 1);
      forall t | 0 <= t < n
        ensures Run(g, n).0[t] == Stream(g, t)
      {
        assert t > 0 ==> Run(g, n).0[t] == Run(h, n - 1).0[t - 1];
      }
      forall t: nat
        ensures Stream(Run(g, n).1, t) == Stream(g, n + t)
      {
        assert Stream(Run(h, n - 1).1, t) == Stream(h, n - 1 + t);
      }
    }
  }

  /** One more draw at the end of a run. */
  lemma {:induction false} RunThenDraw(g: Generator, n: nat)
    requires g.Valid()
    ensures Run(g, n).1.Valid() && Run(g, n + 1).1.Valid()
    ensures Draw(Run(g, n).1).0 == Stream(g, n)
    ensures Draw(Run(g, n).1).1 == Run(g, n + 1).1
    decreases n
  {
    hide X, Temper, Stream, Draw;
    RunIsStream(g, n);
    RunIsStream(g, n + 1);
    DrawTakesHead(Run(g, n).1);
    DrawTakesHead(g);
    if n > 0 {
      RunThenDraw(Draw(g).1, n - 1);
    }
  }

  /** From a seeding on, output t is the tempered term N + t of the recurrence. */
  lemma SeededRun(s: Block, n: nat)
    ensures |Run(Seeded(s), n).0| == n
    ensures forall t :: 0 <= t < n ==> Run(Seeded(s), n).0[t] == Temper(X(s, N + t))
  {
    RunIsStream(Seeded(s), n);
    forall t | 0 <= t < n
      ensures Run(Seeded(s), n).0[t] == Temper(X(s, N + t))
    {
      WindowX(s, N, t);
      assert Run(Seeded(s), n).0[t] == Stream(Seeded(s), t);
    }
  }

  /** Where a run leaves the array: a whole number of blocks further, and the cursor inside it. */
  lemma {:induction false} RunPosition(g: Generator, n: nat) returns (blocks: nat)
    requires g.Valid()
    ensures Run(g, n).1.words == Window(g.words, N * blocks)
    ensures N * blocks + (N - Run(g, n).1.left) == (N - g.left) + n
    decreases n
  {
    WindowStep(g.words, 0);
    if n == 0 {
      blocks := 0;
    } else {
      DrawTakesHead(g);
      blocks := RunPosition(Draw(g).1, n - 1);
      if g.left == 0 {
        WindowWindow(g.words, N, N * blocks);
        blocks := blocks + 1;
      }
    }
  }

  // ---------- What a seeded generator never becomes ----------

  /** The array came out of a reload. */
  ghost predicate Reloaded(g: Generator) {
    g.Valid() && exists s: Block :: g.words == Window(s, N)
  }

  /** No run from a nonzero effective state reaches the all-zero one. */
  lemma RunNeverZero(s: Block, n: nat)
    requires !SameState(s, ZERO)
    ensures Reloaded(Run(Seeded(s), n).1)
    ensures !SameState(Run(Seeded(s), n).1.words, ZERO)
  {
    RunIsStream(Seeded(s), n);
    var b := RunPosition(Seeded(s), n);
    WindowWindow(s, N, N * b);
    WindowWindow(s, N * b, N);
    ZeroIsolated(s, N + N * b);
    assert Run(Seeded(s), n).1.words == Window(Window(s, N * b), N);
  }

  // ---------- Outputs determine the state ----------

  /** The recurrence restarted at the cursor. */
  ghost function Ahead(g: Generator): Block
    requires g.Valid()
  {
    Window(g.words, N - g.left)
  }

  lemma StreamAhead(g: Generator, t: nat)
    requires g.Valid()
    ensures Stream(g, t) == Temper(X(Ahead(g), t))
  {
    hide X, Temper;
    WindowX(g.words, N - g.left, t);
  }

  /** For a reloaded array there is a block one place before the cursor. */
  lemma Behind(g: Generator) returns (b: Block)
    requires Reloaded(g)
    ensures Step(b) == Ahead(g)
    ensures forall j: nat :: X(b, j + 1) == X(Ahead(g), j)
  {
    hide X, Step, Window;
    var s: Block :| g.words == Window(s, N);
    var p := N - g.left;
    b := Window(s, N + p - 1);
    WindowWindow(s, N, p);
    WindowStep(s, N + p - 1);
    forall j: nat
      ensures X(b, j + 1) == X(Ahead(g), j)
    {
      WindowX(s, N + p - 1, j + 1);
      WindowX(s, N + p, j);
    }
  }

  /** Two generators that agree on any N consecutive outputs agree on all of them, past and future. */
  lemma OutputsDetermineStream(g: Generator, h: Generator, t: nat, u: nat)
    requires Reloaded(g) && Reloaded(h)
    requires forall j :: t <= j < t + N ==> Stream(g, j) == Stream(h, j)
    ensures SameState(Ahead(g), Ahead(h))
    ensures Stream(g, u) == Stream(h, u)
  {
    var a, b := Ahead(g), Ahead(h);
    forall i | 0 <= i < N
      ensures Window(a, t)[i] == Window(b, t)[i]
    {
      StreamAhead(g, t + i);
      StreamAhead(h, t + i);
      assert Stream(g, t + i) == Stream(h, t + i);
      TemperInjective(X(a, t + i), X(b, t + i));
    }
    assert Window(a, t) == Window(b, t);
    TransitionInjective(a, b, t);
    SameStateSameStream(g, h, u);
  }

  lemma SameStateSameStream(g: Generator, h: Generator, u: nat)
    requires Reloaded(g) && Reloaded(h)
    requires SameState(Ahead(g), Ahead(h))
    ensures Stream(g, u) == Stream(h, u)
  {
    var a := Behind(g);
    var b := Behind(h);
    WindowStep(a, 0);
    WindowStep(b, 0);
    TransitionInjective(a, b, 1);
    SameStateSameSequence(a, b, u + 1);
    StreamAhead(g, u);
    StreamAhead(h, u);
  }

  /** Two generators have the same future exactly when they are in the same effective state. */
  lemma SameFutureExactly(g: Generator, h: Generator)
    requires Reloaded(g) && Reloaded(h)
    ensures (forall u: nat :: Stream(g, u) == Stream(h, u)) <==> SameState(Ahead(g), Ahead(h))
  {
    hide X, Temper, Stream, Ahead, Canon;
    if SameState(Ahead(g), Ahead(h)) {
      forall u: nat
        ensures Stream(g, u) == Stream(h, u)
      {
        SameStateSameStream(g, h, u);
      }
    } else if forall u: nat :: Stream(g, u) == Stream(h, u) {
      OutputsDetermineStream(g, h, 0, 0);
      assert false;
    }
  }

  /** At a reload boundary N equal outputs mean equal arrays. */
  lemma OutputsDetermineArray(g: Generator, h: Generator)
    requires g.left == N && h.left == N
    requires forall i :: 0 <= i < N ==> Stream(g, i) == Stream(h, i)
    ensures g == h
  {
    forall i | 0 <= i < N
      ensures g.words[i] == h.words[i]
    {
      assert Stream(g, i) == Stream(h, i);
      TemperInjective(g.words[i], h.words[i]);
    }
    assert g.words == h.words;
  }

  // ---------- Prediction ----------

  /** Output t + N follows from outputs t, t + 1 and t + M, for every generator. */
  lemma OutputsPredict(g: Generator, t: nat)
    requires g.Valid()
    ensures Stream(g, t + N)
         == Temper(Next(Untemper(Stream(g, t + M)), Untemper(Stream(g, t)), Untemper(Stream(g, t + 1))))
  {
    hide Temper, Untemper, Next;
    var p := N - g.left + t;
    assert X(g.words, p + N) == Next(X(g.words, p + M), X(g.words, p), X(g.words, p + 1));
    hide X;
    TemperBijective(X(g.words, p + M));
    TemperBijective(X(g.words, p));
    TemperBijective(X(g.words, p + 1));
  }

  // ---------- Outputs of seeded generators ----------

  lemma SeededIsReloaded(s: Block)
    ensures Reloaded(Seeded(s))
    ensures Ahead(Seeded(s)) == Window(s, N)
  {
    WindowStep(Window(s, N), 0);
  }

  /** Agreement on any N consecutive outputs means that the arrays before the reload agree on the
    * effective bits. */
  lemma SeedStateFromOutputs(a: Block, b: Block, t: nat)
    requires forall j :: t <= j < t + N ==> Stream(Seeded(a), j) == Stream(Seeded(b), j)
    ensures SameState(a, b)
  {
    hide Window, Canon, Reloaded, Ahead, Stream;
    SeededIsReloaded(a);
    SeededIsReloaded(b);
    OutputsDetermineStream(Seeded(a), Seeded(b), t, 0);
    TransitionInjective(a, b, N);
  }

  lemma KnownTwists()
    ensures Next(3183906156, 5489, 1301868182) == 2601187879
    ensures Next(1728556020, 1301868182, 2938499221) == 3919438689
  {
  }

  /** The first two outputs of the published generator for its customary seed 5489, from the words of the
    * array that they depend on. */
  lemma KnownOutputs(s: Block)
    requires s[0] == 5489 && s[1] == 1301868182 && s[2] == 2938499221
    requires s[397] == 3183906156 && s[398] == 1728556020
    ensures Stream(Seeded(s), 0) == 3499211612
    ensures Stream(Seeded(s), 1) == 581869302
  {
    assert X(s, 624) == Next(s[397], s[0], s[1]) && X(s, 625) == Next(s[398], s[1], s[2]) by { hide Next; }
    KnownTwists();
    KnownTempers();
    hide X, Next, Temper;
    WindowX(s, N, 0);
    WindowX(s, N, 1);
  }

  lemma KnownTempers()
    ensures Temper(2601187879) == 3499211612
    ensures Temper(3919438689) == 581869302
  {
  }

  // ---------- Equidistribution in 623 dimensions ----------

  /** The effective state whose outputs t, t+1, ..., t+N-2 are `outs`, given one further bit. */
  ghost function StateFor(outs: seq<bv32>, top: bv32, t: nat): Block
    requires |outs| == N - 1
  {
    Back([top] + seq(N - 1, i requires 0 <= i < N - 1 => Untemper(outs[i])), N + t - 1)
  }

  /** Whatever 623 consecutive outputs one asks for, wherever in the stream, and whichever value
    * the one free bit has: exactly one effective state yields them. */
  lemma Equidistributed(outs: seq<bv32>, top: bv32, t: nat, s: Block)
    requires |outs| == N - 1
    requires HiBit(top) == top
    ensures SameState(s, StateFor(outs, top, t)) <==>
            HiBit(X(s, N + t - 1)) == top
            && forall j :: t <= j < t + N - 1 ==> Stream(Seeded(s), j) == outs[j - t]
  {
    hide Temper, Untemper, X, Back;
    var w := [top] + seq(N - 1, i requires 0 <= i < N - 1 => Untemper(outs[i]));
    var v := Window(s, N + t - 1);
    TransitionBijective(w, N + t - 1, s);
    SameStateSlots(v, w);
    forall i | 1 <= i < N
      ensures v[i] == w[i] <==> Stream(Seeded(s), t + i - 1) == outs[i - 1]
    {
      WindowX(s, N, t + i - 1);
      TemperBijective(outs[i - 1]);
      TemperBijective(v[i]);
    }
    if forall i :: 1 <= i < N ==> v[i] == w[i] {
      forall j | t <= j < t + N - 1
        ensures Stream(Seeded(s), j) == outs[j - t]
      {
        assert v[j - t + 1] == w[j - t + 1];
      }
    }
  }

  lemma SameStateSlots(a: Block, b: Block)
    ensures SameState(a, b) <==> HiBit(a[0]) == HiBit(b[0]) && forall i :: 1 <= i < N ==> a[i] == b[i]
  {
    if SameState(a, b) {
      assert Canon(a)[0] == Canon(b)[0];
      forall i | 1 <= i < N
        ensures a[i] == b[i]
      {
        assert Canon(a)[i] == Canon(b)[i];
      }
    }
    if HiBit(a[0]) == HiBit(b[0]) && forall i :: 1 <= i < N ==> a[i] == b[i] {
      assert Canon(a) == Canon(b);
    }
  }

  // ---------- Saving and loading ----------

  /** `left` as it is stored in the last word of a saved array, and read back. */
  function CountToWord(n: nat): bv64
    requires n <= N
  {
    n as bv64
  }

  function WordToCount(w: bv64): nat {
    w as nat
  }

  /** The N + 1 words that `save` writes. */
  function SaveImage(g: Generator): seq<bv64>
    requires g.Valid()
  {
    seq(N, i requires 0 <= i < N => Wide(g.words[i])) + [CountToWord(g.left)]
  }

  /** The generator that `load` makes of such an array. */
  function LoadImage(a: seq<bv64>): Generator
    requires |a| == N + 1
  {
    Generator(seq(N, i requires 0 <= i < N => Low(a[i])), WordToCount(a[N]))
  }

  /** The arrays that `load` is for: N words of 32 bits and a count of at most N. */
  predicate Loadable(a: seq<bv64>) {
    |a| == N + 1 && (forall i :: 0 <= i < N ==> a[i] == Wide(Low(a[i]))) && WordToCount(a[N]) <= N
  }

  /** The layout of a saved array: the words in order, then the number of words left. */
  lemma SaveLayout(g: Generator)
    requires g.Valid()
    ensures |SaveImage(g)| == 625
    ensures forall i :: 0 <= i < 624 ==> Low(SaveImage(g)[i]) == g.words[i]
    ensures SaveImage(g)[624] as nat == g.left
  {
    hide Wide, Low, CountToWord, WordToCount;
    forall i | 0 <= i < 624
      ensures Low(SaveImage(g)[i]) == g.words[i]
    {
      LowWide(g.words[i]);
    }
    CountSurvives(g.left);
    assert WordToCount(SaveImage(g)[624]) == g.left;
    CountIs(SaveImage(g)[624]);
  }

  lemma CountIs(w: bv64)
    ensures WordToCount(w) == w as nat
  {
  }

  lemma CountModulo(n: nat)
    requires n <= N
    ensures WordToCount(CountToWord(n)) == n % 0x1_0000_0000_0000_0000
  {
  }

  lemma CountSurvives(n: nat)
    requires n <= N
    ensures WordToCount(CountToWord(n)) == n
  {
    hide CountToWord, WordToCount;
    CountModulo(n);
  }

  /** Loading what was saved gives back the generator, whatever its position; so its future is the same. */
  lemma SaveLoadRoundTrip(g: Generator, n: nat)
    requires g.Valid()
    ensures Loadable(SaveImage(g))
    ensures LoadImage(SaveImage(g)) == g
    ensures Run(LoadImage(SaveImage(g)), n) == Run(g, n)
  {
    CountSurvives(g.left);
    var h := LoadImage(SaveImage(g));
    forall i | 0 <= i < N
      ensures h.words[i] == g.words[i]
    {
      LowWide(g.words[i]);
    }
    assert h.words == g.words;
  }
}
