/** The order of the string pool: the first characters as plain `char`, then `strcmp`. */
module StringPool {

  /** A C string without its terminator. */
  type CString = s: seq<nat> | forall k :: 0 <= k < |s| ==> 0 < s[k] < 256 witness []

  /** The byte at position k; the terminator follows the last one. */
  function ByteAt(s: CString, k: nat): (b: nat)
    ensures b < 256
  {
    if k < |s| then s[k] else 0
  }

  /** A byte as a plain `char`, which is signed on some platforms. */
  function CharValue(signed: bool, b: nat): int
    requires b < 256
  {
    if signed && b >= 128 then b - 256 else b
  }

  /** `strcmp`: the difference of the first bytes that differ, taken as unsigned char (section 7.21.4
    * of ISO/IEC 9899:1999). */
  function Strcmp(a: CString, b: CString): int {
    if ByteAt(a, 0) != ByteAt(b, 0) then ByteAt(a, 0) - ByteAt(b, 0)
    else if a == [] then 0
    else Strcmp(a[1..], b[1..])
  }

  predicate Less(signed: bool, s1: CString, s2: CString) {
    var d0 := CharValue(signed, ByteAt(s1, 0)) - CharValue(signed, ByteAt(s2, 0));
    if d0 < 0 then true else if d0 > 0 then false else Strcmp(s1, s2) < 0
  }

  lemma {:induction false} StrcmpAntisymmetric(a: CString, b: CString)
    ensures Strcmp(a, b) == -Strcmp(b, a)
  {
    if ByteAt(a, 0) == ByteAt(b, 0) && a != [] {
      StrcmpAntisymmetric(a[1..], b[1..]);
    }
  }

  lemma {:induction false} StrcmpZero(a: CString, b: CString)
    ensures Strcmp(a, b) == 0 <==> a == b
  {
    if ByteAt(a, 0) == ByteAt(b, 0) && a != [] {
      StrcmpZero(a[1..], b[1..]);
      assert a == [a[0]] + a[1..] && b == [b[0]] + b[1..];
    }
  }

  lemma {:induction false} StrcmpTransitive(a: CString, b: CString, c: CString)
    requires Strcmp(a, b) < 0 && Strcmp(b, c) < 0
    ensures Strcmp(a, c) < 0
  {
    if ByteAt(a, 0) == ByteAt(b, 0) == ByteAt(c, 0) && a != [] {
      StrcmpTransitive(a[1..], b[1..], c[1..]);
    }
  }

  /** For either kind of plain `char` the comparator is a strict total order: of two strings exactly one
    * is less, or they are equal. */
  lemma StrictTotalOrder(signed: bool, a: CString, b: CString, c: CString)
    ensures !Less(signed, a, a)
    ensures Less(signed, a, b) ==> !Less(signed, b, a)
    ensures !Less(signed, a, b) && !Less(signed, b, a) <==> a == b
    ensures Less(signed, a, b) && Less(signed, b, c) ==> Less(signed, a, c)
  {
    StrcmpAntisymmetric(a, b);
    StrcmpZero(a, b);
    StrcmpZero(a, a);
    if Strcmp(a, b) < 0 && Strcmp(b, c) < 0 {
      StrcmpTransitive(a, b, c);
    }
  }

  /** The strings are alike before position k, the terminator included, and differ there. */
  predicate FirstDiffer(a: CString, b: CString, k: nat) {
    ByteAt(a, k) != ByteAt(b, k) && forall i :: 0 <= i < k ==> ByteAt(a, i) == ByteAt(b, i)
  }

  lemma {:induction false} StrcmpByDifference(a: CString, b: CString)
    ensures Strcmp(a, b) < 0 <==> exists k :: FirstDiffer(a, b, k) && ByteAt(a, k) < ByteAt(b, k)
  {
    if ByteAt(a, 0) != ByteAt(b, 0) {
      assert FirstDiffer(a, b, 0);
    } else if a != [] {
      var a', b' := a[1..], b[1..];
      StrcmpByDifference(a', b');
      forall k: nat
        ensures FirstDiffer(a', b', k) <==> FirstDiffer(a, b, k + 1)
        ensures ByteAt(a', k) == ByteAt(a, k + 1) && ByteAt(b', k) == ByteAt(b, k + 1)
      {
        Tails(a, b, k);
      }
      if k: nat :| FirstDiffer(a, b, k) && ByteAt(a, k) < ByteAt(b, k) {
        assert FirstDiffer(a', b', k - 1);
      }
    }
  }

  lemma Tails(a: CString, b: CString, k: nat)
    requires a != [] && b != [] && a[0] == b[0]
    ensures FirstDiffer(a[1..], b[1..], k) <==> FirstDiffer(a, b, k + 1)
    ensures ByteAt(a[1..], k) == ByteAt(a, k + 1) && ByteAt(b[1..], k) == ByteAt(b, k + 1)
  {
    forall i: nat
      ensures ByteAt(a[1..], i) == ByteAt(a, i + 1) && ByteAt(b[1..], i) == ByteAt(b, i + 1)
    {
    }
    if FirstDiffer(a[1..], b[1..], k) {
      forall i | 0 <= i < k + 1
        ensures ByteAt(a, i) == ByteAt(b, i)
      {
        if i > 0 {
          assert ByteAt(a[1..], i - 1) == ByteAt(b[1..], i - 1);
        }
      }
    }
  }

  /** The order by the first position where the strings differ: as plain `char` if it is the first of
    * all, and as unsigned bytes after it. */
  lemma LessByDifference(signed: bool, a: CString, b: CString)
    ensures Less(signed, a, b) <==>
            exists k :: FirstDiffer(a, b, k)
              && if k == 0 && signed then (ByteAt(a, 0) + 128) % 256 < (ByteAt(b, 0) + 128) % 256
                 else ByteAt(a, k) < ByteAt(b, k)
  {
    StrcmpByDifference(a, b);
    if ByteAt(a, 0) != ByteAt(b, 0) {
      assert FirstDiffer(a, b, 0);
    }
  }

  /** It differs from the order of `strcmp` exactly on strings whose first characters lie on different
    * sides of 128, and only where plain `char` is signed. */
  lemma AgreesWithStrcmpExactly(signed: bool, a: CString, b: CString)
    ensures (Less(signed, a, b) <==> Strcmp(a, b) < 0)
            <==> !signed || (ByteAt(a, 0) < 128 <==> ByteAt(b, 0) < 128)
  {
  }
}
