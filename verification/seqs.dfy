/** Generic sequence helpers: repetition, flattening, filtering and de-duplication. */
module Seqs {

  /** `itertools.repeat(x, n)`: `n` copies of `x`, none when `n <= 0`. */
  function Repeat<T>(x: T, n: int): (r: seq<T>)
    ensures |r| == if n <= 0 then 0 else n
    ensures forall i :: 0 <= i < |r| ==> r[i] == x
  {
    if n <= 0 then [] else [x] + Repeat(x, n - 1)
  }

  /** Concatenation of a sequence of sequences. */
  function Flatten<T>(xss: seq<seq<T>>): seq<T> {
    if |xss| == 0 then [] else xss[0] + Flatten(xss[1..])
  }

  function SumLengths<T>(xss: seq<seq<T>>): nat {
    if |xss| == 0 then 0 else |xss[0]| + SumLengths(xss[1..])
  }

  lemma {:induction false} FlattenLength<T>(xss: seq<seq<T>>)
    ensures |Flatten(xss)| == SumLengths(xss)
  {
    if |xss| > 0 {
      FlattenLength(xss[1..]);
    }
  }

  lemma {:induction false} FlattenAppend<T>(xss: seq<seq<T>>, yss: seq<seq<T>>)
    ensures Flatten(xss + yss) == Flatten(xss) + Flatten(yss)
  {
    if |xss| == 0 {
      assert xss + yss == yss;
    } else {
      assert (xss + yss)[1..] == xss[1..] + yss;
      FlattenAppend(xss[1..], yss);
    }
  }

  /** The elements of `s` satisfying `p`, in order. */
  function Filter<T(!new)>(p: T -> bool, s: seq<T>): (r: seq<T>)
    ensures |r| <= |s|
    ensures forall x :: x in r <==> x in s && p(x)
  {
    if |s| == 0 then []
    else if p(s[0]) then [s[0]] + Filter(p, s[1..])
    else Filter(p, s[1..])
  }

  lemma {:induction false} FilterAppend<T(!new)>(p: T -> bool, s: seq<T>, t: seq<T>)
    ensures Filter(p, s + t) == Filter(p, s) + Filter(p, t)
  {
    if |s| == 0 {
      assert s + t == t;
    } else {
      assert (s + t)[1..] == s[1..] + t;
      FilterAppend(p, s[1..], t);
    }
  }

  /** `[f(x) for x in s]`. */
  function Map<A, B>(f: A -> B, s: seq<A>): (r: seq<B>)
    ensures |r| == |s|
    ensures forall i :: 0 <= i < |s| ==> r[i] == f(s[i])
  {
    seq(|s|, i requires 0 <= i < |s| => f(s[i]))
  }

  /** A value is in the image exactly when some element maps to it. */
  lemma MapMembers<A, B>(f: A -> B, s: seq<A>)
    ensures forall y :: y in Map(f, s) <==> exists x :: x in s && y == f(x)
  {
    var r := Map(f, s);
    forall y | y in r ensures exists x :: x in s && y == f(x) {
      var i :| 0 <= i < |r| && r[i] == y;
      assert s[i] in s;
    }
    forall x | x in s ensures f(x) in r {
      var i :| 0 <= i < |s| && s[i] == x;
      assert r[i] == f(x);
    }
  }

  /** Every element satisfies `p`. */
  predicate All<T>(p: T -> bool, s: seq<T>) {
    forall i :: 0 <= i < |s| ==> p(s[i])
  }

  /** All elements satisfy `p` exactly when all but the last do and the last does too. */
  lemma AllSnoc<T>(p: T -> bool, s: seq<T>)
    requires |s| > 0
    ensures All(p, s) <==> All(p, s[..|s| - 1]) && p(s[|s| - 1])
  {
    var n := |s| - 1;
    assert forall i :: 0 <= i < n ==> s[..n][i] == s[i];
  }

  predicate IsPrefix<T(==)>(p: seq<T>, s: seq<T>) {
    |p| <= |s| && s[..|p|] == p
  }

  /** No element occurs twice. */
  predicate NoDup<T(==)>(s: seq<T>) {
    forall i, j :: 0 <= i < j < |s| ==> s[i] != s[j]
  }

  /** `if x not in acc: acc.append(x)` */
  function AppendUnique<T(==,!new)>(acc: seq<T>, x: T): (r: seq<T>)
    ensures NoDup(acc) ==> NoDup(r)
    ensures x in r
    ensures forall y :: y in r <==> y in acc || y == x
    ensures x in acc ==> r == acc
    ensures x !in acc ==> r == acc + [x]
  {
    if x in acc then acc else acc + [x]
  }

  /** The first-occurrence-ordered de-duplication of `s`: the reference the
      append-if-absent loops of the source are compared against. */
  function Dedup<T(==,!new)>(s: seq<T>): (r: seq<T>)
    ensures NoDup(r)
    ensures forall x :: x in r <==> x in s
  {
    if |s| == 0 then [] else AppendUnique(Dedup(s[..|s|-1]), s[|s|-1])
  }

  lemma DedupSnoc<T(!new)>(s: seq<T>, x: T)
    ensures Dedup(s + [x]) == AppendUnique(Dedup(s), x)
  {
    assert (s + [x])[..|s|] == s;
  }

  /** The de-duplication of a prefix of `s` is a prefix of the de-duplication of `s`. */
  lemma {:induction false} DedupIsPrefixClosed<T(!new)>(s: seq<T>, k: nat)
    requires k <= |s|
    ensures |Dedup(s[..k])| <= |Dedup(s)|
    ensures Dedup(s)[..|Dedup(s[..k])|] == Dedup(s[..k])
    decreases |s| - k
  {
    if k == |s| {
      assert s[..k] == s;
    } else {
      DedupIsPrefixClosed(s, k + 1);
      var p := Dedup(s[..k]);
      var q := Dedup(s[..k+1]);
      assert s[..k+1][..k] == s[..k];
      assert q == AppendUnique(p, s[k]);
      assert q[..|p|] == p;
      var d := Dedup(s);
      assert d[..|q|] == q;
      assert d[..|p|] == d[..|q|][..|p|];
    }
  }

  /** Keeping first occurrences preserves the order in which elements first appear:
      an element that first occurs earlier in `s` sits earlier in `Dedup(s)`. */
  lemma {:induction false} DedupKeepsFirstOccurrenceOrder<T(!new)>(s: seq<T>, i: nat, j: nat)
    requires i < j < |s|
    requires s[j] !in s[..j]
    ensures exists a, b :: 0 <= a < b < |Dedup(s)| && Dedup(s)[a] == s[i] && Dedup(s)[b] == s[j]
  {
    var t := s[..j];
    var d := Dedup(t);
    assert s[..j+1][..j] == t;
    assert s[i] in t by { assert t[i] == s[i]; }
    var a :| 0 <= a < |d| && d[a] == s[i];
    var full := d + [s[j]];
    assert Dedup(s[..j+1]) == full;
    DedupIsPrefixClosed(s, j + 1);
    var ds := Dedup(s);
    assert ds[..|full|] == full;
    assert ds[a] == full[a] && ds[|d|] == full[|d|];
  }
}
