/** Whole runs of the class: any number of draws, and the same run on both platforms. */
module Runs {
  import opened Words
  import opened Recurrence
  import opened Tempering
  import opened Generators
  import opened Seeding
  import opened MersenneTwister

  /** The next n outputs, in order. */
  method RandInts(m: MTRand, n: nat) returns (rs: seq<bv64>)
    requires m.Valid()
    modifies m, m.state
    ensures m.Valid() && m.View() == Run(old(m.View()), n).1
    ensures |rs| == n
    ensures forall t :: 0 <= t < n ==> rs[t] == Wide(Stream(old(m.View()), t))
  {
    hide Wide, Draw, Stream, Run;
    ghost var g := m.View();
    RunOfNone(g);
    rs := [];
    while |rs| < n
      invariant |rs| <= n
      invariant m.Valid() && m.View() == Run(g, |rs|).1
      invariant forall t :: 0 <= t < |rs| ==> rs[t] == Wide(Stream(g, t))
    {
      RunThenDraw(g, |rs|);
      var r := m.RandInt();
      rs := rs + [r];
    }
  }

  lemma SeededStream(s: Block, t: nat)
    ensures Stream(Seeded(s), t) == Temper(X(s, N + t))
  {
    hide X, Temper;
    WindowX(s, N, t);
  }

  /** The same seed word, on a 32-bit and on a 64-bit platform: the same outputs for ever. */
  method SameRunFromWord(oneSeed: bv64, n: nat) returns (narrow: seq<bv64>, wide: seq<bv64>)
    ensures narrow == wide && |wide| == n
    ensures forall t :: 0 <= t < n ==> wide[t] == Wide(Temper(X(Init(Low(oneSeed)), N + t)))
  {
    hide Wide, Low, Init, Temper, X, Stream, Run;
    var a := new MTRand.FromWord(ILP32, oneSeed);
    var b := new MTRand.FromWord(LP64, oneSeed);
    narrow := RandInts(a, n);
    wide := RandInts(b, n);
    forall t | 0 <= t < n
      ensures wide[t] == Wide(Temper(X(Init(Low(oneSeed)), N + t)))
    {
      SeededStream(Init(Low(oneSeed)), t);
    }
  }

  /** The same key, on a 32-bit and on a 64-bit platform: the same outputs for ever. */
  method SameRunFromKey(bigSeed: array<bv64>, seedLength: nat, n: nat) returns (narrow: seq<bv64>, wide: seq<bv64>)
    requires 0 < seedLength <= bigSeed.Length && seedLength <= MAX_KEY
    ensures narrow == wide && |wide| == n
    ensures forall t :: 0 <= t < n ==> wide[t] == Wide(Temper(X(KeyArray(KeyOf(bigSeed[..seedLength])), N + t)))
  {
    hide Wide, Temper, X, Stream, Run, KeyArray, KeyOf;
    var a := new MTRand.FromKey(ILP32, bigSeed, seedLength);
    var b := new MTRand.FromKey(LP64, bigSeed, seedLength);
    narrow := RandInts(a, n);
    wide := RandInts(b, n);
    forall t | 0 <= t < n
      ensures wide[t] == Wide(Temper(X(KeyArray(KeyOf(bigSeed[..seedLength])), N + t)))
    {
      SeededStream(KeyArray(KeyOf(bigSeed[..seedLength])), t);
    }
  }

  /** Saving one generator and loading another: the second one continues as the first one would. */
  method CopyBySaving(m: MTRand, q: MTRand, n: nat) returns (rs: seq<bv64>)
    requires m.Valid() && q.state.Length == N && m != q && m.state != q.state
    modifies q, q.state
    ensures m.Valid() && m.View() == old(m.View())
    ensures q.Valid() && q.View() == Run(m.View(), n).1
    ensures |rs| == n && forall t :: 0 <= t < n ==> rs[t] == Wide(Stream(m.View(), t))
  {
    hide Wide, Stream, Run, SaveImage, LoadImage, Loadable;
    var saved := new bv64[N + 1];
    m.Save(saved);
    SaveLoadRoundTrip(m.View(), 0);
    q.Load(saved);
    assert q.View() == m.View();
    rs := RandInts(q, n);
  }
}
