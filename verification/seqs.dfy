/** Generic sequence helpers shared by the geometry and the board. */
module Seqs {

  /** No element occurs twice. */
  predicate Distinct<T(==)>(s: seq<T>) {
    forall i, j :: 0 <= i < j < |s| ==> s[i] != s[j]
  }

  /** The elements of `s` that satisfy `keep`, in their original order
      (the array `filter` of the game code). */
  function Filter<T(==,!new)>(keep: T -> bool, s: seq<T>): (r: seq<T>)
    ensures |r| <= |s|
    ensures forall v {:trigger v in r} {:trigger v in s} :: v in r <==> v in s && keep(v)
    ensures forall v {:trigger multiset(r)[v]} :: multiset(r)[v] == if keep(v) then multiset(s)[v] else 0
    ensures Distinct(s) ==> Distinct(r)
    decreases |s|
  {
    if s == [] then []
    else
      var rest := Filter(keep, s[1..]);
      assert s == [s[0]] + s[1..];
      assert Distinct(s) ==> s[0] !in s[1..];
      if keep(s[0]) then [s[0]] + rest else rest
  }

  /** Filtering a concatenation filters each part and keeps them in order:
      together with the one-element case this fixes the order of the
      result. */
  lemma {:induction false} FilterAppend<T(!new)>(keep: T -> bool, a: seq<T>, b: seq<T>)
    ensures Filter(keep, a + b) == Filter(keep, a) + Filter(keep, b)
    decreases |a|
  {
    if a == [] {
      assert a + b == b;
    } else {
      assert (a + b)[0] == a[0] && (a + b)[1..] == a[1..] + b;
      FilterAppend(keep, a[1..], b);
    }
  }

  /** The filter drops nothing exactly when every element passes the test. */
  lemma {:induction false} FilterKeepsAll<T(!new)>(keep: T -> bool, s: seq<T>)
    ensures |Filter(keep, s)| == |s| <==> forall i :: 0 <= i < |s| ==> keep(s[i])
    decreases |s|
  {
    if s != [] {
      FilterKeepsAll(keep, s[1..]);
      assert forall i :: 0 < i < |s| ==> s[i] == s[1..][i - 1];
    }
  }

  /** Appending an element not yet present keeps a sequence free of
      repetitions (pushing on the open list). */
  lemma DistinctAppend<T>(s: seq<T>, x: T)
    requires Distinct(s) && x !in s
    ensures Distinct(s + [x])
  {
    var t := s + [x];
    forall i, j | 0 <= i < j < |t|
      ensures t[i] != t[j]
    {
      assert t[i] == s[i];
      if j < |s| {
        assert t[j] == s[j];
      }
    }
  }

  /** Dropping the head keeps a sequence free of repetitions (taking from
      the open list). */
  lemma DistinctTail<T>(s: seq<T>)
    requires Distinct(s) && s != []
    ensures Distinct(s[1..]) && s[0] !in s[1..]
  {
    var t := s[1..];
    forall i, j | 0 <= i < j < |t|
      ensures t[i] != t[j]
    {
      assert t[i] == s[i + 1] && t[j] == s[j + 1];
    }
  }
}
