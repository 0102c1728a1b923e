/** `sorted(set(xs))` for strings: the strictly increasing sequence of the distinct
    elements, in Python's code-point order. */
module Sorting {
  import Strings

  /** `a < b` on Python strings. */
  predicate Less(a: string, b: string) {
    Strings.LessEq(a, b) && a != b
  }

  predicate StrictlySorted(s: seq<string>) {
    forall i, j :: 0 <= i < j < |s| ==> Less(s[i], s[j])
  }

  /** Inserts `x` at its place, unless it is already there. */
  function InsertUnique(x: string, s: seq<string>): (r: seq<string>)
    requires StrictlySorted(s)
    ensures StrictlySorted(r)
    ensures forall y :: y in r <==> y in s || y == x
  {
    if |s| == 0 then [x]
    else if x == s[0] then s
    else if Strings.LessEq(x, s[0]) then
      assert forall j :: 0 <= j < |s| ==> Less(x, s[j]) by {
        forall j | 0 <= j < |s| ensures Less(x, s[j]) {
          if j > 0 {
            Strings.LessEqTransitive(x, s[0], s[j]);
            if x == s[j] {
              Strings.LessEqAntisymmetric(s[0], s[j]);
            }
          }
        }
      }
      [x] + s
    else
      Strings.LessEqTotal(x, s[0]);
      var t := InsertUnique(x, s[1..]);
      var r := [s[0]] + t;
      assert forall j :: 0 <= j < |t| ==> Less(s[0], t[j]) by {
        forall j | 0 <= j < |t| ensures Less(s[0], t[j]) {
          assert t[j] in t;
          if t[j] != x {
            var k :| 0 <= k < |s[1..]| && s[1..][k] == t[j];
            assert s[k + 1] == t[j];
          }
        }
      }
      assert StrictlySorted(r) by {
        forall i, j | 0 <= i < j < |r| ensures Less(r[i], r[j]) {
          if i > 0 {
            assert r[i] == t[i - 1] && r[j] == t[j - 1];
          } else {
            assert r[j] == t[j - 1];
          }
        }
      }
      r
  }

  /** `sorted(set(s))` */
  function SortedSet(s: seq<string>): (r: seq<string>)
    ensures StrictlySorted(r)
    ensures forall y :: y in r <==> y in s
  {
    if |s| == 0 then [] else InsertUnique(s[0], SortedSet(s[1..]))
  }

  /** A strictly sorted sequence is determined by its elements: `SortedSet` is the only
      possible result of sorting a set. */
  lemma {:induction false} StrictlySortedUnique(a: seq<string>, b: seq<string>)
    requires StrictlySorted(a) && StrictlySorted(b)
    requires forall y :: y in a <==> y in b
    ensures a == b
  {
    SameElementsBothEmpty(a, b);
    if |a| > 0 {
      assert a[0] in b && b[0] in a;
      var i :| 0 <= i < |b| && b[i] == a[0];
      var j :| 0 <= j < |a| && a[j] == b[0];
      if a[0] != b[0] {
        assert i > 0 && j > 0;
        assert Less(b[0], b[i]) && Less(a[0], a[j]);
        Strings.LessEqAntisymmetric(a[0], b[0]);
        assert false;
      }
      assert forall y :: y in a[1..] <==> y in b[1..] by {
        forall y ensures y in a[1..] <==> y in b[1..] {
          if y in a[1..] {
            var k :| 0 <= k < |a[1..]| && a[1..][k] == y;
            assert a[k + 1] == y && Less(a[0], a[k + 1]);
            assert y in b;
            var m :| 0 <= m < |b| && b[m] == y;
            assert m != 0;
            assert b[1..][m - 1] == y;
          }
          if y in b[1..] {
            var k :| 0 <= k < |b[1..]| && b[1..][k] == y;
            assert b[k + 1] == y && Less(b[0], b[k + 1]);
            assert y in a;
            var m :| 0 <= m < |a| && a[m] == y;
            assert m != 0;
            assert a[1..][m - 1] == y;
          }
        }
      }
      assert StrictlySorted(a[1..]) by {
        forall p, q | 0 <= p < q < |a[1..]| ensures Less(a[1..][p], a[1..][q]) {
          assert a[1..][p] == a[p + 1] && a[1..][q] == a[q + 1];
        }
      }
      assert StrictlySorted(b[1..]) by {
        forall p, q | 0 <= p < q < |b[1..]| ensures Less(b[1..][p], b[1..][q]) {
          assert b[1..][p] == b[p + 1] && b[1..][q] == b[q + 1];
        }
      }
      StrictlySortedUnique(a[1..], b[1..]);
      assert a == [a[0]] + a[1..] && b == [b[0]] + b[1..];
    }
  }

  lemma SameElementsBothEmpty(a: seq<string>, b: seq<string>)
    requires forall y :: y in a <==> y in b
    ensures |a| == 0 <==> |b| == 0
  {
    if |a| > 0 {
      assert a[0] in b;
    }
    if |b| > 0 {
      assert b[0] in a;
    }
  }

  /** Sorting only sees the elements: lists with the same elements sort alike. */
  lemma SortedSetOfSameElements(s: seq<string>, t: seq<string>)
    requires forall y :: y in s <==> y in t
    ensures SortedSet(s) == SortedSet(t)
  {
    StrictlySortedUnique(SortedSet(s), SortedSet(t));
  }
}
