/** Sequence operations that mirror JavaScript array idioms
    (`reverse`, `new Set(..)` iteration order, `flat`, `filter`). */
module Sequences {

  ghost predicate Distinct<T>(s: seq<T>) {
    forall i, j :: 0 <= i < j < |s| ==> s[i] != s[j]
  }

  /** `a` occurs strictly before `b` in `s`. */
  ghost predicate Before<T>(s: seq<T>, a: T, b: T) {
    exists i, j :: 0 <= i < j < |s| && s[i] == a && s[j] == b
  }

  /** `a` can be obtained from `b` by deleting elements. */
  predicate IsSubsequence<T(==)>(a: seq<T>, b: seq<T>)
    decreases |b|
  {
    if |a| == 0 then true
    else if |b| == 0 then false
    else if a[0] == b[0] then IsSubsequence(a[1..], b[1..])
    else IsSubsequence(a, b[1..])
  }

  function Reverse<T>(s: seq<T>): (r: seq<T>)
    ensures |r| == |s|
    ensures forall i :: 0 <= i < |s| ==> r[i] == s[|s| - 1 - i]
  {
    if |s| == 0 then [] else [s[|s| - 1]] + Reverse(s[..|s| - 1])
  }

  /** Iteration order of `new Set(s)`: each element at its first occurrence. */
  function KeepFirst<T(==,!new)>(s: seq<T>): (r: seq<T>)
    ensures forall x :: x in r <==> x in s
    ensures Distinct(r)
  {
    if |s| == 0 then []
    else
      var p := KeepFirst(s[..|s| - 1]);
      if s[|s| - 1] in p then p else p + [s[|s| - 1]]
  }

  /** Reference definition: each element kept at its LAST occurrence. */
  function KeepLast<T(==,!new)>(s: seq<T>): (r: seq<T>)
    ensures forall x :: x in r <==> x in s
    ensures Distinct(r)
  {
    if |s| == 0 then []
    else if s[0] in s[1..] then KeepLast(s[1..])
    else [s[0]] + KeepLast(s[1..])
  }

  /** `Array.prototype.flat()` on an array of arrays. */
  function Flatten<T>(rows: seq<seq<T>>): seq<T> {
    if |rows| == 0 then [] else Flatten(rows[..|rows| - 1]) + rows[|rows| - 1]
  }

  /** `Array.prototype.filter`. */
  function Filter<T>(s: seq<T>, p: T -> bool): (r: seq<T>)
    ensures forall i :: 0 <= i < |r| ==> r[i] in s && p(r[i])
    ensures forall i :: 0 <= i < |s| && p(s[i]) ==> s[i] in r
    ensures IsSubsequence(r, s)
  {
    if |s| == 0 then []
    else
      var rest := Filter(s[1..], p);
      SubsequenceCons(s[0], rest, s[1..]);
      SubsequenceSkip(s[0], rest, s[1..]);
      assert [s[0]] + s[1..] == s;
      if p(s[0]) then [s[0]] + rest else rest
  }

  lemma {:induction false} SubsequenceCons<T>(x: T, a: seq<T>, b: seq<T>)
    requires IsSubsequence(a, b)
    ensures IsSubsequence([x] + a, [x] + b)
  {
    assert ([x] + a)[1..] == a;
    assert ([x] + b)[1..] == b;
  }

  /** Prepending an element to the larger sequence keeps the relation. */
  lemma {:induction false} SubsequenceSkip<T>(x: T, a: seq<T>, b: seq<T>)
    requires IsSubsequence(a, b)
    ensures IsSubsequence(a, [x] + b)
    decreases |b|, 1
  {
    assert ([x] + b)[1..] == b;
    if |a| > 0 && a[0] == x {
      SubsequenceSuffix(a, b);
    }
  }

  /** Dropping the head of a subsequence keeps it a subsequence. */
  lemma {:induction false} SubsequenceSuffix<T>(a: seq<T>, b: seq<T>)
    requires |a| > 0 && IsSubsequence(a, b)
    ensures IsSubsequence(a[1..], b)
    decreases |b|, 0
  {
    assert [b[0]] + b[1..] == b;
    if a[0] == b[0] {
      SubsequenceSkip(b[0], a[1..], b[1..]);
    } else {
      SubsequenceSuffix(a, b[1..]);
      SubsequenceSkip(b[0], a[1..], b[1..]);
    }
  }

  /** A subsequence of a sequence without repeats has no repeats. */
  lemma {:induction false} SubsequenceDistinct<T>(a: seq<T>, b: seq<T>)
    requires IsSubsequence(a, b) && Distinct(b)
    ensures Distinct(a)
    decreases |b|
  {
    if |a| > 0 {
      assert Distinct(b[1..]);
      if a[0] == b[0] {
        SubsequenceDistinct(a[1..], b[1..]);
        forall j | 1 <= j < |a| ensures a[j] != a[0] {
          SubsequenceMember(a[1..], b[1..], a[j]);
        }
      } else {
        SubsequenceDistinct(a, b[1..]);
      }
    }
  }

  /** A sequence without repeats whose elements are all equal has at most one element. */
  lemma DistinctConstant<T>(s: seq<T>)
    requires Distinct(s)
    requires forall t, u :: 0 <= t < |s| && 0 <= u < |s| ==> s[t] == s[u]
    ensures |s| <= 1
  {
    DistinctFirstTwo(s);
  }

  lemma DistinctFirstTwo<T>(s: seq<T>)
    requires Distinct(s)
    ensures |s| >= 2 ==> s[0] != s[1]
  {
  }

  /** Every element of a subsequence occurs in the larger sequence. */
  lemma {:induction false} SubsequenceMember<T>(a: seq<T>, b: seq<T>, x: T)
    requires IsSubsequence(a, b) && x in a
    ensures x in b
    decreases |b|
  {
    if a[0] == b[0] {
      if x != a[0] {
        assert x in a[1..];
        SubsequenceMember(a[1..], b[1..], x);
      }
    } else {
      SubsequenceMember(a, b[1..], x);
    }
  }

  /** The elements of `s` that do not occur in `zs`, in order. */
  function Exclude<T(==,!new)>(s: seq<T>, zs: seq<T>): (r: seq<T>)
    ensures forall x :: x in r <==> x in s && x !in zs
  {
    if |s| == 0 then []
    else (if s[0] in zs then [] else [s[0]]) + Exclude(s[1..], zs)
  }

  lemma {:induction false} ReverseSnoc<T>(a: seq<T>, x: T)
    ensures Reverse(a + [x]) == [x] + Reverse(a)
  {
    assert (a + [x])[..|a|] == a;
  }

  lemma {:induction false} ReverseCons<T>(x: T, a: seq<T>)
    ensures Reverse([x] + a) == Reverse(a) + [x]
  {
    var l, r := Reverse([x] + a), Reverse(a) + [x];
    assert forall i :: 0 <= i < |l| ==> l[i] == r[i];
  }

  lemma {:induction false} ReverseMember<T>(s: seq<T>, x: T)
    ensures x in Reverse(s) <==> x in s
  {
    var r := Reverse(s);
    if x in s {
      var k :| 0 <= k < |s| && s[k] == x;
      assert r[|s| - 1 - k] == x;
    }
    if x in r {
      var k :| 0 <= k < |r| && r[k] == x;
      assert s[|s| - 1 - k] == x;
    }
  }

  /** Reversing, keeping first occurrences (a `Set`) and reversing back keeps
      every element at its last occurrence. */
  lemma {:induction false} KeepLastIsReversedKeepFirst<T(!new)>(s: seq<T>)
    ensures Reverse(KeepFirst(Reverse(s))) == KeepLast(s)
  {
    if |s| > 0 {
      var x, t := s[0], s[1..];
      assert s == [x] + t;
      ReverseCons(x, t);
      var rt := Reverse(t);
      assert (rt + [x])[..|rt + [x]| - 1] == rt;
      var p := KeepFirst(rt);
      KeepLastIsReversedKeepFirst(t);
      ReverseMember(t, x);
      if x !in t {
        ReverseSnoc(p, x);
      }
    }
  }

  /** Deduplicating a concatenation keeping last occurrences: elements of the
      front part that reappear later move to the back part. */
  lemma {:induction false} KeepLastAppend<T(!new)>(ys: seq<T>, zs: seq<T>)
    ensures KeepLast(ys + zs) == Exclude(KeepLast(ys), zs) + KeepLast(zs)
  {
    if |ys| == 0 {
      assert ys + zs == zs;
    } else {
      var y, ys' := ys[0], ys[1..];
      assert ys == [y] + ys';
      assert ys + zs == [y] + (ys' + zs);
      KeepLastAppend(ys', zs);
      if y in ys' || y in zs {
        KeepLastAppendRepeated(y, ys', zs);
      } else {
        KeepLastAppendFresh(y, ys', zs);
      }
    }
  }

  /** The induction step of `KeepLastAppend` for a head that occurs again later. */
  lemma {:induction false} KeepLastAppendRepeated<T(!new)>(y: T, ys: seq<T>, zs: seq<T>)
    requires KeepLast(ys + zs) == Exclude(KeepLast(ys), zs) + KeepLast(zs)
    requires y in ys || y in zs
    ensures KeepLast([y] + (ys + zs)) == Exclude(KeepLast([y] + ys), zs) + KeepLast(zs)
  {
    InConcat(y, ys, zs);
    KeepLastConsRepeated(y, ys + zs);
    if y in ys {
      KeepLastConsRepeated(y, ys);
    } else {
      KeepLastConsFresh(y, ys);
      ExcludeConsDropped(y, KeepLast(ys), zs);
    }
  }

  lemma InConcat<T>(y: T, a: seq<T>, b: seq<T>)
    requires y in a || y in b
    ensures y in a + b
  {
  }

  lemma KeepLastConsRepeated<T(!new)>(y: T, t: seq<T>)
    requires y in t
    ensures KeepLast([y] + t) == KeepLast(t)
  {
    KeepLastCons(y, t);
  }

  lemma ExcludeConsDropped<T(!new)>(x: T, s: seq<T>, zs: seq<T>)
    requires x in zs
    ensures Exclude([x] + s, zs) == Exclude(s, zs)
  {
    ExcludeCons(x, s, zs);
  }

  /** The induction step of `KeepLastAppend` for a head that occurs nowhere else. */
  lemma {:induction false} KeepLastAppendFresh<T(!new)>(y: T, ys: seq<T>, zs: seq<T>)
    requires KeepLast(ys + zs) == Exclude(KeepLast(ys), zs) + KeepLast(zs)
    requires y !in ys && y !in zs
    ensures KeepLast([y] + (ys + zs)) == Exclude(KeepLast([y] + ys), zs) + KeepLast(zs)
  {
    var e, kz := Exclude(KeepLast(ys), zs), KeepLast(zs);
    NotInConcat(y, ys, zs);
    KeepLastConsFresh(y, ys + zs);
    KeepLastConsFresh(y, ys);
    ExcludeConsFresh(y, KeepLast(ys), zs);
    ConsConcat(y, KeepLast(ys + zs), e, kz);
  }

  lemma NotInConcat<T>(y: T, a: seq<T>, b: seq<T>)
    requires y !in a && y !in b
    ensures y !in a + b
  {
  }

  lemma ConsConcat<T>(y: T, s: seq<T>, a: seq<T>, b: seq<T>)
    requires s == a + b
    ensures [y] + s == ([y] + a) + b
  {
  }

  lemma {:induction false} KeepLastCons<T(!new)>(y: T, t: seq<T>)
    ensures KeepLast([y] + t) == (if y in t then KeepLast(t) else [y] + KeepLast(t))
  {
    assert ([y] + t)[0] == y && ([y] + t)[1..] == t;
  }

  lemma KeepLastConsFresh<T(!new)>(y: T, t: seq<T>)
    requires y !in t
    ensures KeepLast([y] + t) == [y] + KeepLast(t)
  {
    KeepLastCons(y, t);
  }

  lemma ExcludeConsFresh<T(!new)>(x: T, s: seq<T>, zs: seq<T>)
    requires x !in zs
    ensures Exclude([x] + s, zs) == [x] + Exclude(s, zs)
  {
    ExcludeCons(x, s, zs);
  }

  lemma {:induction false} ExcludeCons<T(!new)>(x: T, s: seq<T>, zs: seq<T>)
    ensures Exclude([x] + s, zs) == (if x in zs then [] else [x]) + Exclude(s, zs)
  {
    assert ([x] + s)[1..] == s;
  }

  /** An element whose last occurrence is in the front part is kept before
      every element of the back part. */
  lemma {:induction false} KeepLastOrder<T(!new)>(ys: seq<T>, zs: seq<T>, a: T, b: T)
    requires a in ys && a !in zs && b in zs
    ensures Before(KeepLast(ys + zs), a, b)
  {
    KeepLastAppend(ys, zs);
    var e, k := Exclude(KeepLast(ys), zs), KeepLast(zs);
    assert a in KeepLast(ys);
    assert a in e;
    assert b in k;
    BeforeConcat(e, k, a, b);
  }

  lemma BeforeConcat<T>(e: seq<T>, k: seq<T>, a: T, b: T)
    requires a in e && b in k
    ensures Before(e + k, a, b)
  {
    var p :| 0 <= p < |e| && e[p] == a;
    var q :| 0 <= q < |k| && k[q] == b;
    assert (e + k)[p] == a && (e + k)[|e| + q] == b;
  }

  lemma {:induction false} FlattenAppend<T>(a: seq<seq<T>>, b: seq<seq<T>>)
    ensures Flatten(a + b) == Flatten(a) + Flatten(b)
    decreases |b|
  {
    if |b| == 0 {
      assert a + b == a;
    } else {
      var c := a + b;
      assert c[..|c| - 1] == a + b[..|b| - 1];
      FlattenAppend(a, b[..|b| - 1]);
    }
  }

  lemma {:induction false} FlattenMember<T>(rows: seq<seq<T>>, x: T)
    ensures x in Flatten(rows) <==> exists i :: 0 <= i < |rows| && x in rows[i]
  {
    if |rows| > 0 {
      FlattenMember(rows[..|rows| - 1], x);
      assert forall i :: 0 <= i < |rows| - 1 ==> rows[..|rows| - 1][i] == rows[i];
    }
  }

  /** Deduplicating the flattened rows keeping last occurrences puts an element
      whose last row is `i` before every element of a later row `j`. */
  lemma KeepLastRowsOrder<T(!new)>(rows: seq<seq<T>>, i: nat, j: nat, x: T, y: T)
    requires i < j < |rows|
    requires x in rows[i] && y in rows[j]
    requires forall k :: i < k < |rows| ==> x !in rows[k]
    ensures Before(KeepLast(Flatten(rows)), x, y)
  {
    var head, tail := rows[..i + 1], rows[i + 1..];
    assert rows == head + tail;
    FlattenAppend(head, tail);
    assert x in head[i];
    FlattenMember(head, x);
    FlattenMember(tail, x);
    forall k | 0 <= k < |tail| ensures x !in tail[k] {
      assert tail[k] == rows[i + 1 + k];
    }
    assert y in tail[j - (i + 1)];
    FlattenMember(tail, y);
    KeepLastOrder(Flatten(head), Flatten(tail), x, y);
  }
}
