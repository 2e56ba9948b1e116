/** Sequences: regrouping, splitting and joining on a separator. */
module Texts {

  lemma Regroup<T>(a: seq<T>, b: seq<T>, c: seq<T>)
    ensures a + (b + c) == (a + b) + c
  {}

  lemma TailOfConcat<T>(a: seq<T>, b: seq<T>)
    requires a != []
    ensures (a + b)[0] == a[0] && (a + b)[1..] == a[1..] + b
  {}

  lemma HeadAndRest<T>(a: seq<T>, b: seq<T>)
    requires a <= b
    ensures b == a + b[|a|..]
  {}

  lemma TailOfSlice<T>(s: seq<T>, i: nat)
    requires i < |s|
    ensures s[i..][0] == s[i] && s[i..][1..] == s[i + 1..]
  {}

  predicate Free<T(==)>(part: seq<T>, sep: T) {
    sep !in part
  }

  predicate AllFree<T(==)>(parts: seq<seq<T>>, sep: T) {
    forall i :: 0 <= i < |parts| ==> Free(parts[i], sep)
  }

  function Split<T(==)>(s: seq<T>, sep: T): (parts: seq<seq<T>>)
    ensures |parts| > 0 && AllFree(parts, sep)
  {
    if s == [] then [[]]
    else if s[0] == sep then [[]] + Split(s[1..], sep)
    else
      var rest := Split(s[1..], sep);
      [[s[0]] + rest[0]] + rest[1..]
  }

  function Join<T>(parts: seq<seq<T>>, sep: T): seq<T> {
    if parts == [] then [] else if |parts| == 1 then parts[0] else parts[0] + [sep] + Join(parts[1..], sep)
  }

  lemma {:induction false} SplitFree<T>(s: seq<T>, sep: T)
    requires Free(s, sep)
    ensures Split(s, sep) == [s]
  {
    if s != [] {
      SplitFree(s[1..], sep);
      assert [s[0]] + s[1..] == s;
    }
  }

  lemma {:induction false} SplitConcat<T>(a: seq<T>, sep: T, b: seq<T>)
    ensures Split(a + [sep] + b, sep) == Split(a, sep) + Split(b, sep)
  {
    var s := a + [sep] + b;
    if a == [] {
      assert s[1..] == b;
    } else {
      assert s[0] == a[0] && s[1..] == a[1..] + [sep] + b;
      SplitConcat(a[1..], sep, b);
      SplitHead(a[0], Split(a[1..], sep), Split(b, sep), sep);
    }
  }

  lemma SplitHead<T>(x: T, left: seq<seq<T>>, right: seq<seq<T>>, sep: T)
    requires left != []
    ensures [[]] + (left + right) == ([[]] + left) + right
    ensures [[x] + (left + right)[0]] + (left + right)[1..] == ([[x] + left[0]] + left[1..]) + right
  {
    TailOfConcat(left, right);
  }

  /** Alike but for the last part. */
  predicate SameFront<T(==)>(a: seq<seq<T>>, b: seq<seq<T>>) {
    |a| == |b| > 0 && a[..|a| - 1] == b[..|b| - 1]
  }

  lemma SameFrontLonger<T>(x: T, a: seq<seq<T>>, b: seq<seq<T>>)
    requires SameFront(a, b)
    ensures SameFront([[]] + a, [[]] + b)
    ensures SameFront([[x] + a[0]] + a[1..], [[x] + b[0]] + b[1..])
  {
    if |a| > 1 {
      assert a[0] == a[..|a| - 1][0] == b[0];
      assert a[1..][..|a| - 2] == a[..|a| - 1][1..] == b[1..][..|a| - 2];
    }
  }

  /** A further element that is no separator belongs to the last part. */
  lemma {:induction false} SplitSnoc<T>(s: seq<T>, x: T, sep: T)
    requires x != sep
    ensures SameFront(Split(s + [x], sep), Split(s, sep))
  {
    if s == [] {
      assert s + [x] == [x] && [x][1..] == [];
    } else {
      TailOfConcat(s, [x]);
      SplitSnoc(s[1..], x, sep);
      SameFrontLonger(s[0], Split(s[1..] + [x], sep), Split(s[1..], sep));
    }
  }

  lemma {:induction false} SplitJoin<T>(parts: seq<seq<T>>, sep: T)
    requires parts != [] && AllFree(parts, sep)
    ensures Split(Join(parts, sep), sep) == parts
  {
    SplitFree(parts[0], sep);
    if |parts| > 1 {
      SplitJoin(parts[1..], sep);
      SplitConcat(parts[0], sep, Join(parts[1..], sep));
    }
  }
}
