/** What several components share: optional values, small arithmetic, lists without repetition. */
module Commons {
  datatype Option<T> = None | Some(value: T)

  function Min(a: nat, b: nat): nat {
    if a < b then a else b
  }

  function Max(a: nat, b: nat): nat {
    if a < b then b else a
  }

  ghost predicate Distinct<T>(s: seq<T>) {
    forall i, j :: 0 <= i < j < |s| ==> s[i] != s[j]
  }

  /** The elements of the set, each once. */
  ghost predicate Lists<T(!new)>(s: seq<T>, all: set<T>) {
    (forall x :: x in s <==> x in all) && Distinct(s)
  }

  lemma {:induction false} ListLength<T(!new)>(s: seq<T>, all: set<T>)
    requires Lists(s, all)
    ensures |s| == |all|
  {
    if s == [] {
      assert all == {};
    } else {
      var rest := s[1..];
      assert s == [s[0]] + rest;
      ListLength(rest, all - {s[0]});
    }
  }

  ghost function Range(lo: nat, n: nat): (r: set<nat>)
    ensures |r| == n && forall x: nat :: x in r <==> lo <= x < lo + n
  {
    if n == 0 then {} else Range(lo, n - 1) + {lo + n - 1}
  }
}
