/** Python `str` operations used by the modelled code, on `seq<char>`.

Case mapping and whitespace are the ASCII subsets of Python's Unicode tables.
 */
module Strings {

  predicate IsUpper(c: char) { 'A' <= c <= 'Z' }

  predicate IsLowerLetter(c: char) { 'a' <= c <= 'z' }

  function LowerChar(c: char): (r: char)
    ensures !IsUpper(r)
    ensures IsUpper(c) ==> r as int == c as int + 32
    ensures !IsUpper(c) ==> r == c
  {
    if IsUpper(c) then (c as int + 32) as char else c
  }

  /** `s.lower()` */
  function Lower(s: string): (r: string)
    ensures |r| == |s|
    ensures forall i :: 0 <= i < |s| ==> r[i] == LowerChar(s[i])
  {
    seq(|s|, i requires 0 <= i < |s| => LowerChar(s[i]))
  }

  lemma LowerAppend(a: string, b: string)
    ensures Lower(a + b) == Lower(a) + Lower(b)
  {
  }

  lemma LowerIdempotent(s: string)
    ensures Lower(Lower(s)) == Lower(s)
  {
  }

  /** Python's `str.isspace` restricted to ASCII: tab, newline, vertical tab,
      form feed, carriage return, the four information separators and space. */
  predicate IsSpace(c: char) {
    ('\t' <= c <= '\r') || ('\U{1c}' <= c <= '\U{1f}') || c == ' '
  }

  /** Index of the first non-space character, or `|s|`. */
  function LeadingSpaces(s: string): (n: nat)
    ensures n <= |s|
    ensures forall i :: 0 <= i < n ==> IsSpace(s[i])
    ensures n < |s| ==> !IsSpace(s[n])
  {
    if |s| == 0 || !IsSpace(s[0]) then 0 else 1 + LeadingSpaces(s[1..])
  }

  /** Length of `s` without its trailing spaces. */
  function TrimmedEnd(s: string): (n: nat)
    ensures n <= |s|
    ensures forall i :: n <= i < |s| ==> IsSpace(s[i])
    ensures n > 0 ==> !IsSpace(s[n - 1])
  {
    if |s| == 0 || !IsSpace(s[|s| - 1]) then |s| else TrimmedEnd(s[..|s| - 1])
  }

  /** `s.strip()`: the slice between the leading and the trailing whitespace. */
  function Strip(s: string): (r: string)
    ensures exists i, j ::
              && 0 <= i <= j <= |s| && r == s[i..j]
              && (forall k :: 0 <= k < i ==> IsSpace(s[k]))
              && (forall k :: j <= k < |s| ==> IsSpace(s[k]))
    ensures |r| > 0 ==> !IsSpace(r[0]) && !IsSpace(r[|r| - 1])
    ensures (forall k :: 0 <= k < |s| ==> !IsSpace(s[k])) ==> r == s
  {
    var i := LeadingSpaces(s);
    var j := TrimmedEnd(s);
    if i >= j then
      assert i == |s|;
      assert s[0..0] == "";
      ""
    else
      s[i..j]
  }

  predicate StartsWith(s: string, prefix: string) {
    |prefix| <= |s| && s[..|prefix|] == prefix
  }

  predicate EndsWith(s: string, suffix: string) {
    |suffix| <= |s| && s[|s| - |suffix|..] == suffix
  }

  /** `pat` occurs in `s` starting at index `i`. */
  predicate OccursAt(s: string, pat: string, i: int) {
    0 <= i && i + |pat| <= |s| && s[i..i + |pat|] == pat
  }

  /** `pat in s`, by scanning. */
  predicate Contains(s: string, pat: string)
    decreases |s|
  {
    StartsWith(s, pat) || (|s| > 0 && Contains(s[1..], pat))
  }

  lemma {:induction false} ContainsIffOccurs(s: string, pat: string)
    ensures Contains(s, pat) <==> exists i :: OccursAt(s, pat, i)
    decreases |s|
  {
    if StartsWith(s, pat) {
      assert OccursAt(s, pat, 0);
    } else if |s| > 0 {
      ContainsIffOccurs(s[1..], pat);
      if Contains(s[1..], pat) {
        var i :| OccursAt(s[1..], pat, i);
        assert s[1..][i..i + |pat|] == s[i + 1..i + 1 + |pat|];
        assert OccursAt(s, pat, i + 1);
      }
      if exists i :: OccursAt(s, pat, i) {
        var i :| OccursAt(s, pat, i);
        assert i != 0;
        assert s[1..][i - 1..i - 1 + |pat|] == s[i..i + |pat|];
        assert OccursAt(s[1..], pat, i - 1);
      }
    }
  }

  /** `s.split(sep)[0]`: the text before the first occurrence of `sep`, or all of `s`. */
  function BeforeFirst(s: string, sep: string): (r: string)
    requires |sep| > 0
    ensures StartsWith(s, r)
    ensures Contains(s, sep) ==> OccursAt(s, sep, |r|)
    ensures !Contains(s, sep) ==> r == s
    decreases |s|
  {
    if StartsWith(s, sep) then ""
    else if |s| == 0 then ""
    else
      var t := BeforeFirst(s[1..], sep);
      OccursShiftAll(s, sep);
      [s[0]] + t
  }

  /** No occurrence of `sep` starts inside the text before the first one. */
  lemma {:induction false} BeforeFirstIsFirst(s: string, sep: string)
    requires |sep| > 0
    ensures forall i :: 0 <= i < |BeforeFirst(s, sep)| ==> !OccursAt(s, sep, i)
    decreases |s|
  {
    if !StartsWith(s, sep) && |s| > 0 {
      BeforeFirstIsFirst(s[1..], sep);
      OccursShiftAll(s, sep);
      assert !OccursAt(s, sep, 0) by { if |sep| <= |s| { assert s[0..|sep|] == s[..|sep|]; } }
    }
  }

  /** An occurrence in the tail is an occurrence one place later in the whole. */
  lemma OccursShift(s: string, pat: string, i: int)
    requires |s| > 0 && 0 <= i
    ensures OccursAt(s[1..], pat, i) <==> OccursAt(s, pat, i + 1)
  {
    if i + 1 + |pat| <= |s| {
      assert s[1..][i..i + |pat|] == s[i + 1..i + 1 + |pat|];
    }
  }

  lemma OccursShiftAll(s: string, pat: string)
    requires |s| > 0
    ensures forall i :: 1 <= i ==> (OccursAt(s, pat, i) <==> OccursAt(s[1..], pat, i - 1))
  {
    forall i | 1 <= i ensures OccursAt(s, pat, i) <==> OccursAt(s[1..], pat, i - 1) {
      OccursShift(s, pat, i - 1);
    }
  }

  /** Text free of the separator's first character, followed by the separator, is what
      comes before the first separator. */
  lemma BeforeFirstAt(a: string, b: string, sep: string)
    requires |sep| > 0 && sep[0] !in a && StartsWith(b, sep)
    ensures BeforeFirst(a + b, sep) == a
  {
    var s := a + b;
    assert s[|a|..|a| + |sep|] == b[..|sep|];
    assert OccursAt(s, sep, |a|);
    ContainsIffOccurs(s, sep);
    forall i | 0 <= i < |a| ensures !OccursAt(s, sep, i) {
      assert s[i] == a[i];
      if i + |sep| <= |s| {
        assert s[i..i + |sep|][0] == s[i];
      }
    }
    var r := BeforeFirst(s, sep);
    BeforeFirstIsFirst(s, sep);
    assert |r| == |a|;
    assert r == s[..|a|];
  }

  /** The same, for a separator whose first character does not recur in it: such a
      separator cannot straddle the end of a text free of it. */
  lemma BeforeFirstAtFresh(a: string, b: string, sep: string)
    requires |sep| > 0 && sep[0] !in sep[1..] && !Contains(a, sep) && StartsWith(b, sep)
    ensures BeforeFirst(a + b, sep) == a
  {
    var s := a + b;
    assert s[|a|..|a| + |sep|] == b[..|sep|];
    assert OccursAt(s, sep, |a|);
    ContainsIffOccurs(s, sep);
    ContainsIffOccurs(a, sep);
    forall i | 0 <= i < |a| ensures !OccursAt(s, sep, i) {
      if i + |sep| <= |a| {
        assert a[i..i + |sep|] == s[i..i + |sep|];
        assert !OccursAt(a, sep, i);
      } else if i + |sep| <= |s| {
        var j := |a| - i;
        assert sep[1..][j - 1] == sep[j];
        assert s[i..i + |sep|][j] == s[|a|] == sep[0];
      }
    }
    var r := BeforeFirst(s, sep);
    BeforeFirstIsFirst(s, sep);
    assert |r| == |a|;
    assert r == s[..|a|];
  }

  /** `head + x + mid + y + tail`: a template with two slots, filled. */
  function Fill2(head: string, x: string, mid: string, y: string, tail: string): (r: string)
    ensures |r| == |head| + |x| + |mid| + |y| + |tail|
    ensures StartsWith(r, head)
    ensures OccursAt(r, x, |head|)
    ensures OccursAt(r, mid, |head| + |x|)
    ensures OccursAt(r, y, |head| + |x| + |mid|)
    ensures EndsWith(r, tail)
  {
    var r := head + x + mid + y + tail;
    assert r[..|head|] == head;
    assert r[|head|..|head| + |x|] == x;
    assert r[|head| + |x|..|head| + |x| + |mid|] == mid;
    assert r[|head| + |x| + |mid|..|head| + |x| + |mid| + |y|] == y;
    assert r[|r| - |tail|..] == tail;
    r
  }

  /** `s.split(sep)`: scans left to right; pieces are separated by non-overlapping
      occurrences of `sep`. */
  function Split(s: string, sep: string): (r: seq<string>)
    requires |sep| > 0
    ensures |r| >= 1
    ensures forall k :: 0 <= k < |r| ==> !Contains(r[k], sep)
    ensures !Contains(s, sep) ==> r == [s]
    decreases |s|
  {
    if !Contains(s, sep) then [s]
    else
      BeforeFirstHasNoSep(s, sep);
      [BeforeFirst(s, sep)] + Split(AfterFirst(s, sep), sep)
  }

  /** The text after the first occurrence of `sep`. */
  function AfterFirst(s: string, sep: string): (r: string)
    requires |sep| > 0 && Contains(s, sep)
    ensures |r| < |s|
  {
    var n := |BeforeFirst(s, sep)| + |sep|;
    s[n..]
  }

  lemma {:induction false} BeforeFirstHasNoSep(s: string, sep: string)
    requires |sep| > 0
    ensures !Contains(BeforeFirst(s, sep), sep)
  {
    var b := BeforeFirst(s, sep);
    BeforeFirstIsFirst(s, sep);
    ContainsIffOccurs(b, sep);
    if exists i :: OccursAt(b, sep, i) {
      var i :| OccursAt(b, sep, i);
      assert b == s[..|b|];
      assert s[i..i + |sep|] == b[i..i + |sep|];
      assert OccursAt(s, sep, i);
      assert false;
    }
  }

  /** `sep.join(parts)` */
  function Join(parts: seq<string>, sep: string): string {
    if |parts| == 0 then ""
    else if |parts| == 1 then parts[0]
    else parts[0] + sep + Join(parts[1..], sep)
  }

  /** Any two cut points split a string into three consecutive slices. */
  lemma ThreeSlices(s: string, i: int, j: int)
    requires 0 <= i <= j <= |s|
    ensures s == s[..i] + s[i..j] + s[j..]
  {
    assert s[..i] + s[i..j] == s[..j];
  }

  /** When `sep` occurs, the split is the text before it followed by the split of the
      text after it. */
  lemma SplitFirstPiece(s: string, sep: string)
    requires |sep| > 0 && Contains(s, sep)
    ensures |BeforeFirst(s, sep)| + |sep| <= |s|
    ensures s[|BeforeFirst(s, sep)|..|BeforeFirst(s, sep)| + |sep|] == sep
    ensures AfterFirst(s, sep) == s[|BeforeFirst(s, sep)| + |sep|..]
    ensures Split(s, sep) == [BeforeFirst(s, sep)] + Split(AfterFirst(s, sep), sep)
  {
    assert OccursAt(s, sep, |BeforeFirst(s, sep)|);
  }

  /** When `sep` occurs, `s` is the text before it, the separator, and the rest, and
      the split is the first piece followed by the split of the rest. */
  lemma SplitAtFirst(s: string, sep: string) returns (b: string, rest: string)
    requires |sep| > 0 && Contains(s, sep)
    ensures !Contains(b, sep)
    ensures s == b + sep + rest
    ensures Split(s, sep) == [b] + Split(rest, sep)
  {
    b := BeforeFirst(s, sep);
    BeforeFirstHasNoSep(s, sep);
    var k := |b| + |sep|;
    SplitFirstPiece(s, sep);
    rest := AfterFirst(s, sep);
    ThreeSlices(s, |b|, k);
    assert s[..|b|] == b;
  }

  /** Joining a piece in front of a non-empty list of pieces. */
  lemma JoinCons(x: string, parts: seq<string>, sep: string)
    requires |parts| > 0
    ensures Join([x] + parts, sep) == x + sep + Join(parts, sep)
  {
    assert ([x] + parts)[0] == x && ([x] + parts)[1..] == parts;
  }

  /** A join starts with its first piece. */
  lemma {:induction false} JoinStartsWithFirst(parts: seq<string>, sep: string)
    requires |parts| > 0
    ensures StartsWith(Join(parts, sep), parts[0])
  {
    if |parts| > 1 {
      var j := Join(parts, sep);
      assert j == parts[0] + sep + Join(parts[1..], sep);
      assert j[..|parts[0]|] == parts[0];
    }
  }

  /** Joining the pieces of a split with the separator gives back the string. */
  lemma {:induction false} JoinSplit(s: string, sep: string)
    requires |sep| > 0
    ensures Join(Split(s, sep), sep) == s
    decreases |s|
  {
    if Contains(s, sep) {
      var b, rest := SplitAtFirst(s, sep);
      JoinSplit(rest, sep);
      JoinCons(b, Split(rest, sep), sep);
    }
  }

  /** For a one-character pattern, containment is membership. */
  lemma ContainsCharIff(s: string, c: char)
    ensures Contains(s, [c]) <==> c in s
  {
    ContainsIffOccurs(s, [c]);
    if c in s {
      var i :| 0 <= i < |s| && s[i] == c;
      assert s[i..i + 1] == [c];
      assert OccursAt(s, [c], i);
    }
    if Contains(s, [c]) {
      var i :| OccursAt(s, [c], i);
      assert s[i] == s[i..i + 1][0];
    }
  }

  /** The text before the first `c` of `a + [c] + b` is `a` when `a` has no `c`. */
  lemma {:induction false} BeforeFirstOfJoined(a: string, b: string, c: char)
    requires c !in a
    ensures BeforeFirst(a + [c] + b, [c]) == a
    decreases |a|
  {
    var s := a + [c] + b;
    if |a| > 0 {
      assert !StartsWith(s, [c]) by { assert s[..1] == [a[0]]; }
      assert s[1..] == a[1..] + [c] + b;
      BeforeFirstOfJoined(a[1..], b, c);
      assert a == [a[0]] + a[1..];
    } else {
      assert s[..1] == [c];
    }
  }

  /** Splitting on a character inverts joining pieces that do not contain it. */
  lemma {:induction false} SplitJoinChar(parts: seq<string>, c: char)
    requires |parts| > 0
    requires forall k :: 0 <= k < |parts| ==> c !in parts[k]
    ensures Split(Join(parts, [c]), [c]) == parts
    decreases |parts|
  {
    if |parts| == 1 {
      ContainsCharIff(parts[0], c);
    } else {
      var a := parts[0];
      var rest := Join(parts[1..], [c]);
      var s := a + [c] + rest;
      assert Join(parts, [c]) == s;
      ContainsCharIff(s, c);
      assert s[|a|] == c;
      BeforeFirstOfJoined(a, rest, c);
      SplitFirstPiece(s, [c]);
      assert s[|a| + 1..] == rest;
      SplitJoinChar(parts[1..], c);
      assert parts == [a] + parts[1..];
    }
  }

  lemma {:induction false} JoinAppend(p: seq<string>, q: seq<string>, sep: string)
    requires |p| > 0 && |q| > 0
    ensures Join(p + q, sep) == Join(p, sep) + sep + Join(q, sep)
    decreases |p|
  {
    if |p| == 1 {
      assert (p + q)[0] == p[0] && (p + q)[1..] == q;
    } else {
      assert (p + q)[0] == p[0] && (p + q)[1..] == p[1..] + q;
      JoinAppend(p[1..], q, sep);
    }
  }

  /** No piece of a split on a character contains that character. */
  lemma SplitCharPiecesFree(s: string, c: char)
    ensures forall k :: 0 <= k < |Split(s, [c])| ==> c !in Split(s, [c])[k]
  {
    var p := Split(s, [c]);
    forall k | 0 <= k < |p| ensures c !in p[k] {
      ContainsCharIff(p[k], c);
    }
  }

  /** Splitting on a character distributes over a concatenation at that character. */
  lemma SplitCharConcat(a: string, b: string, c: char)
    ensures Split(a + [c] + b, [c]) == Split(a, [c]) + Split(b, [c])
  {
    var pa, pb := Split(a, [c]), Split(b, [c]);
    var p := pa + pb;
    JoinSplit(a, [c]);
    JoinSplit(b, [c]);
    JoinAppend(pa, pb, [c]);
    assert Join(p, [c]) == a + [c] + b;
    SplitCharPiecesFree(a, c);
    SplitCharPiecesFree(b, c);
    assert forall k :: 0 <= k < |p| ==> c !in p[k] by {
      forall k | 0 <= k < |p| ensures c !in p[k] {
        if k < |pa| {
          assert p[k] == pa[k];
        } else {
          assert p[k] == pb[k - |pa|];
        }
      }
    }
    SplitJoinChar(p, c);
  }

  /** Pieces joined after a separator are split back after the text's own pieces. */
  lemma SplitAfterJoin(a: string, parts: seq<string>, c: char)
    requires |parts| > 0
    requires forall k :: 0 <= k < |parts| ==> c !in parts[k]
    ensures Split(a + [c] + Join(parts, [c]), [c]) == Split(a, [c]) + parts
  {
    SplitCharConcat(a, Join(parts, [c]), c);
    SplitJoinChar(parts, c);
  }

  /** `s.split(sep)[-1]`: the text after the last separator found by the scan. */
  function AfterLast(s: string, sep: string): (r: string)
    requires |sep| > 0
    ensures !Contains(r, sep)
    ensures EndsWith(s, r)
    ensures !Contains(s, sep) ==> r == s
    ensures Contains(s, sep) ==> EndsWith(s, sep + r)
  {
    var p := Split(s, sep);
    var r := p[|p| - 1];
    LastPieceIsSuffix(s, sep);
    if s == r then
      assert s[|s| - |r|..] == r;
      r
    else
      EndsWithShorter(s, sep, r);
      r
  }

  /** The last piece of a split is the whole text or ends it right after a separator. */
  lemma {:induction false} LastPieceIsSuffix(s: string, sep: string)
    requires |sep| > 0
    ensures var p := Split(s, sep); s == p[|p| - 1] || EndsWith(s, sep + p[|p| - 1])
    decreases |s|, 1
  {
    if Contains(s, sep) {
      var last := LastPieceAfterFirst(s, sep);
    } else {
      assert Split(s, sep) == [s];
    }
  }

  lemma {:induction false} LastPieceAfterFirst(s: string, sep: string) returns (last: string)
    requires |sep| > 0 && Contains(s, sep)
    ensures last == Split(s, sep)[|Split(s, sep)| - 1]
    ensures EndsWith(s, sep + last)
    decreases |s|, 0
  {
    var b, rest := SplitAtFirst(s, sep);
    last := LastPieceOf(rest, sep);
    EndsWithAfter(s, b, sep, rest, last);
    LastOfCons(b, Split(rest, sep));
  }

  /** `LastPieceIsSuffix`, naming the last piece. */
  lemma {:induction false} LastPieceOf(s: string, sep: string) returns (last: string)
    requires |sep| > 0
    ensures last == Split(s, sep)[|Split(s, sep)| - 1]
    ensures s == last || EndsWith(s, sep + last)
    decreases |s|, 2
  {
    LastPieceIsSuffix(s, sep);
    last := Split(s, sep)[|Split(s, sep)| - 1];
  }

  /** What ends with `sep + r` ends with `r`. */
  lemma EndsWithShorter(s: string, sep: string, r: string)
    requires EndsWith(s, sep + r)
    ensures EndsWith(s, r)
  {
    assert s[|s| - |r|..] == (sep + r)[|sep|..];
  }

  /** A separator then the rest ends the whole, and so does whatever ends the rest
      right after a separator. */
  lemma EndsWithAfter(s: string, b: string, sep: string, rest: string, r: string)
    requires s == b + sep + rest
    requires rest == r || EndsWith(rest, sep + r)
    ensures EndsWith(s, sep + r)
  {
    if rest == r {
      assert s[|s| - |sep + r|..] == sep + rest;
    } else {
      assert s[|s| - |sep + r|..] == rest[|rest| - |sep + r|..];
    }
  }

  lemma LastOfCons(x: string, p: seq<string>)
    requires |p| > 0
    ensures ([x] + p)[|[x] + p| - 1] == p[|p| - 1]
  {
  }

  /** `s.replace(pat, rep)`: Python replaces the non-overlapping occurrences found
      by a left-to-right scan, which is splitting on `pat` and joining with `rep`. */
  function Replace(s: string, pat: string, rep: string): (r: string)
    requires |pat| > 0
    ensures !Contains(s, pat) ==> r == s
  {
    Join(Split(s, pat), rep)
  }

  /** Replacing a character by a character acts position by position. */
  lemma {:induction false} ReplaceCharPointwise(s: string, a: char, b: char)
    ensures |Replace(s, [a], [b])| == |s|
    ensures forall i :: 0 <= i < |s| ==>
      Replace(s, [a], [b])[i] == if s[i] == a then b else s[i]
    decreases |s|
  {
    if !Contains(s, [a]) {
      ContainsCharIff(s, a);
    } else {
      var pre, rest := SplitAtFirst(s, [a]);
      ReplaceCharPointwise(rest, a, b);
      JoinCons(pre, Split(rest, [a]), [b]);
      ContainsCharIff(pre, a);
      ReplacePointwiseJoin(pre, rest, a, b, Replace(rest, [a], [b]));
    }
  }

  /** The pointwise replacement of `pre + [a] + rest`, from that of `rest`. */
  lemma ReplacePointwiseJoin(pre: string, rest: string, a: char, b: char, t: string)
    requires a !in pre
    requires |t| == |rest| && forall i :: 0 <= i < |rest| ==> t[i] == if rest[i] == a then b else rest[i]
    ensures var s, u := pre + [a] + rest, pre + [b] + t;
      |u| == |s| && forall i :: 0 <= i < |s| ==> u[i] == if s[i] == a then b else s[i]
  {
    var s, u := pre + [a] + rest, pre + [b] + t;
    forall i | 0 <= i < |s| ensures u[i] == if s[i] == a then b else s[i] {
      if i < |pre| {
        assert s[i] == pre[i] && u[i] == pre[i];
      } else if i > |pre| {
        assert s[i] == rest[i - |pre| - 1] && u[i] == t[i - |pre| - 1];
      }
    }
  }

  /** Removing a character keeps exactly the other characters, in order. */
  lemma {:induction false} RemoveCharKeepsOthers(s: string, a: char)
    ensures Replace(s, [a], "") == RemoveChar(s, a)
    decreases |s|
  {
    if !Contains(s, [a]) {
      RemoveCharAbsent(s, a);
    } else {
      var pre, rest := SplitAtFirst(s, [a]);
      RemoveCharKeepsOthers(rest, a);
      JoinCons(pre, Split(rest, [a]), "");
      RemoveCharAround(pre, rest, a);
    }
  }

  /** Removing `a` from `pre + [a] + rest`, where `pre` has no `a`. */
  lemma RemoveCharAround(pre: string, rest: string, a: char)
    requires !Contains(pre, [a])
    ensures RemoveChar(pre + [a] + rest, a) == pre + "" + RemoveChar(rest, a)
  {
    RemoveCharAbsent(pre, a);
    RemoveCharAppend(pre, [a], a);
    RemoveCharAppend(pre + [a], rest, a);
    assert RemoveChar([a], a) == "";
  }

  /** The characters of `s` other than `a`. */
  function RemoveChar(s: string, a: char): (r: string)
    ensures a !in r
    ensures |r| <= |s|
    ensures forall c :: c in r ==> c in s
  {
    if |s| == 0 then ""
    else if s[0] == a then RemoveChar(s[1..], a)
    else [s[0]] + RemoveChar(s[1..], a)
  }

  lemma {:induction false} RemoveCharAppend(s: string, t: string, a: char)
    ensures RemoveChar(s + t, a) == RemoveChar(s, a) + RemoveChar(t, a)
  {
    if |s| == 0 {
      assert s + t == t;
    } else {
      assert (s + t)[1..] == s[1..] + t;
      RemoveCharAppend(s[1..], t, a);
    }
  }

  lemma {:induction false} RemoveCharAbsent(s: string, a: char)
    requires !Contains(s, [a])
    ensures RemoveChar(s, a) == s
  {
    if |s| > 0 {
      assert s[0] != a by { assert !StartsWith(s, [a]); }
      assert !Contains(s[1..], [a]);
      RemoveCharAbsent(s[1..], a);
    }
  }

  /** `n` spaces. */
  function Spaces(n: int): (r: string)
    ensures |r| == if n <= 0 then 0 else n
    ensures forall i :: 0 <= i < |r| ==> r[i] == ' '
  {
    if n <= 0 then "" else " " + Spaces(n - 1)
  }

  /** `s.ljust(width)`: pad on the right with spaces, never truncate. */
  function Ljust(s: string, width: int): (r: string)
    ensures |r| == if |s| >= width then |s| else width
    ensures r[..|s|] == s
    ensures forall i :: |s| <= i < |r| ==> r[i] == ' '
  {
    s + Spaces(width - |s|)
  }

  /** Python's `nfilter` on strings: drop the empty ones. */
  function NonEmpty(parts: seq<string>): (r: seq<string>)
    ensures |r| <= |parts|
    ensures forall x :: x in r <==> x in parts && x != ""
  {
    if |parts| == 0 then []
    else if parts[0] == "" then NonEmpty(parts[1..])
    else [parts[0]] + NonEmpty(parts[1..])
  }

  /** `[c.strip() for c in nfilter(s.split(','))]`: the comma-separated list idiom of
      the command line options; pieces empty before stripping are dropped, the rest
      are stripped (and may become empty). */
  function CommaList(s: string): (r: seq<string>)
    ensures |r| <= |Split(s, ",")|
    ensures forall x :: x in r <==> exists p :: p in Split(s, ",") && p != "" && x == Strip(p)
  {
    var parts := Split(s, ",");
    var kept := NonEmpty(parts);
    var r := seq(|kept|, i requires 0 <= i < |kept| => Strip(kept[i]));
    forall x | x in r ensures exists p :: p in parts && p != "" && x == Strip(p) {
      var i :| 0 <= i < |r| && r[i] == x;
      assert kept[i] in kept;
    }
    forall p | p in parts && p != "" ensures Strip(p) in r {
      assert p in kept;
      var i :| 0 <= i < |kept| && kept[i] == p;
      assert r[i] == Strip(p);
    }
    r
  }

  /** Code-point lexicographic order, as Python compares strings. */
  predicate LessEq(a: string, b: string)
    decreases |a|
  {
    if |a| == 0 then true
    else if |b| == 0 then false
    else if a[0] != b[0] then a[0] < b[0]
    else LessEq(a[1..], b[1..])
  }

  lemma {:induction false} LessEqTotal(a: string, b: string)
    ensures LessEq(a, b) || LessEq(b, a)
    decreases |a|
  {
    if |a| > 0 && |b| > 0 && a[0] == b[0] {
      LessEqTotal(a[1..], b[1..]);
    }
  }

  lemma {:induction false} LessEqAntisymmetric(a: string, b: string)
    requires LessEq(a, b) && LessEq(b, a)
    ensures a == b
    decreases |a|
  {
    if |a| > 0 && |b| > 0 {
      LessEqAntisymmetric(a[1..], b[1..]);
      assert a == [a[0]] + a[1..];
      assert b == [b[0]] + b[1..];
    }
  }

  lemma {:induction false} LessEqTransitive(a: string, b: string, c: string)
    requires LessEq(a, b) && LessEq(b, c)
    ensures LessEq(a, c)
    decreases |a|
  {
    if |a| > 0 && |b| > 0 && |c| > 0 && a[0] == b[0] && b[0] == c[0] {
      LessEqTransitive(a[1..], b[1..], c[1..]);
    }
  }
}
