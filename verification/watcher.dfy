/** The watchers of containers without random access: `at(i)` keeps an iterator and its position
  * between calls.  The list, set and map watchers share this algorithm; the container, seen as the
  * sequence that an iteration visits, does not change between calls. */
module Watchers {

  /** An iterator: not yet set, or before element `pos`, or at the end. */
  datatype Iterator = Unset | Position(pos: nat)

  datatype Answer<T> = Element(value: T) | OutOfBounds

  datatype Cache = Cache(it: Iterator, itPos: int)

  function Min(a: int, b: int): int {
    if a < b then a else b
  }

  /** The iterator is where `itPos` says, or at the end; it is read only when it has been set. */
  predicate Consistent(c: Cache, size: nat) {
    (c.it.Unset? ==> c.itPos == -1)
    && (c.it.Position? ==> c.it.pos <= size)
    && (c.itPos >= 0 ==> c.it == Position(Min(c.itPos, size)))
  }

  /** Plain indexing. */
  function Indexed<T>(v: seq<T>, i: int): Answer<T>
    requires i >= 0
  {
    if i < |v| then Element(v[i]) else OutOfBounds
  }

  /** What one query does: the new cache, the answer and the number of iterator steps. */
  function Query<T>(c: Cache, v: seq<T>, i: int): (Cache, Answer<T>, nat)
    requires Consistent(c, |v|)
  {
    var (d, steps) :=
      if i == 0 then (Cache(Position(0), 0), 0)
      else if i == c.itPos + 1 && c.it.pos != |v| then (Cache(Position(c.it.pos + 1), c.itPos + 1), 1)
      else (Cache(Position(if i < 0 then 0 else Min(i, |v|)), i), if i < 0 then 0 else Min(i, |v|));
    (d, if d.it.pos == |v| then OutOfBounds else Element(v[d.it.pos]), steps)
  }

  /** A query for a position agrees with indexing, whatever was asked before. */
  lemma QueryAgrees<T>(c: Cache, v: seq<T>, i: int)
    requires Consistent(c, |v|)
    ensures Consistent(Query(c, v, i).0, |v|)
    ensures i >= 0 ==> Query(c, v, i).1 == Indexed(v, i) && Query(c, v, i).0.itPos == i
    ensures Query(c, v, i).2 <= |v|
  {
  }

  /** The answers and the steps of a series of queries. */
  function Queries<T>(c: Cache, v: seq<T>, asked: seq<int>): (seq<Answer<T>>, nat)
    requires Consistent(c, |v|)
    decreases |asked|
  {
    if asked == [] then ([], 0) else
    QueryAgrees(c, v, asked[0]);
    var (d, answer, steps) := Query(c, v, asked[0]);
    var (answers, more) := Queries(d, v, asked[1..]);
    ([answer] + answers, steps + more)
  }

  /** Any series of queries, in any order and with negative ones among them: every query for a
    * position gets the element at that position. */
  lemma {:induction false} QueriesAgree<T>(c: Cache, v: seq<T>, asked: seq<int>)
    requires Consistent(c, |v|)
    ensures |Queries(c, v, asked).0| == |asked|
    ensures forall k :: 0 <= k < |asked| && asked[k] >= 0 ==> Queries(c, v, asked).0[k] == Indexed(v, asked[k])
    decreases |asked|
  {
    if asked != [] {
      QueryAgrees(c, v, asked[0]);
      var d := Query(c, v, asked[0]).0;
      QueriesAgree(d, v, asked[1..]);
      forall k | 0 <= k < |asked| && asked[k] >= 0
        ensures Queries(c, v, asked).0[k] == Indexed(v, asked[k])
      {
        hide Query, Indexed;
        if k > 0 {
          assert asked[1..][k - 1] == asked[k];
        }
      }
    }
  }

  /** The positions from `first` to `size`, the last of which is out of bounds. */
  function Scan(first: nat, size: nat): seq<int>
    requires first <= size
  {
    seq(size - first + 1, k => first + k)
  }

  lemma {:induction false} RestOfScan<T>(c: Cache, v: seq<T>, first: nat)
    requires Consistent(c, |v|)
    requires 0 < first <= |v| && c.itPos == first - 1
    ensures Queries(c, v, Scan(first, |v|)).1 == |v| - first + 1
    decreases |v| - first
  {
    var asked := Scan(first, |v|);
    QueryAgrees(c, v, first);
    if first < |v| {
      assert asked[1..] == Scan(first + 1, |v|);
      RestOfScan(Query(c, v, first).0, v, first + 1);
    } else {
      assert asked[1..] == [];
    }
  }

  /** A forward scan over the container takes one iterator step per element, wherever the iterator
    * stood before. */
  lemma ScanCost<T>(c: Cache, v: seq<T>)
    requires Consistent(c, |v|)
    ensures Queries(c, v, Scan(0, |v|)).1 == |v|
  {
    var asked := Scan(0, |v|);
    QueryAgrees(c, v, 0);
    if v != [] {
      assert asked[1..] == Scan(1, |v|);
      RestOfScan(Query(c, v, 0).0, v, 1);
    } else {
      assert asked[1..] == [];
    }
  }

  class Watcher<T> {
    const v: seq<T>
    var it: Iterator
    var itPos: int
    /** Iterator steps so far. */
    ghost var steps: nat

    constructor (container: seq<T>)
      ensures v == container && Valid() && steps == 0
    {
      v := container;
      it := Unset;
      itPos := -1;
      steps := 0;
    }

    function State(): Cache
      reads this
    {
      Cache(it, itPos)
    }

    predicate Valid()
      reads this
    {
      Consistent(State(), |v|)
    }

    method At(i: int) returns (answer: Answer<T>)
      requires Valid()
      modifies this
      ensures Valid()
      ensures i >= 0 ==> answer == Indexed(v, i)
      ensures (State(), answer, steps - old(steps)) == Query(old(State()), v, i)
    {
      if i == 0 {
        it, itPos := Position(0), 0;
      } else if i == itPos + 1 && it != Position(|v|) {
        it, itPos := Position(it.pos + 1), itPos + 1;
        steps := steps + 1;
      } else {
        it := Position(0);
        var k := 0;
        while k < i && it != Position(|v|)
          invariant 0 <= k && it == Position(k) && k <= |v| && (i >= 0 ==> k <= i) && (i < 0 ==> k == 0)
          invariant steps == old(steps) + k
          decreases |v| - k
        {
          it := Position(it.pos + 1);
          steps := steps + 1;
          k := k + 1;
        }
        itPos := i;
      }
      if it == Position(|v|) {
        return OutOfBounds;
      }
      answer := Element(v[it.pos]);
    }
  }
}
