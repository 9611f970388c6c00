/** The LINQ list operations the catalog relies on (FirstOrDefault, find-or-create,
    Distinct), written once over sequences, with the order facts the inventory
    query needs. */
module Seqs {
  import opened Wrappers

  /** Index of the first element whose key equals k: what `FirstOrDefault(x => key(x) == k)`
      finds, as a position; None where it would return null. */
  function FirstWithKey<T, K(==)>(s: seq<T>, key: T -> K, k: K): (r: Option<nat>)
    ensures r.Some? ==> r.value < |s| && key(s[r.value]) == k
    ensures r.Some? ==> forall j :: 0 <= j < r.value ==> key(s[j]) != k
    ensures r.None? <==> forall j :: 0 <= j < |s| ==> key(s[j]) != k
  {
    if |s| == 0 then None
    else if key(s[0]) == k then Some(0)
    else match FirstWithKey(s[1..], key, k)
      case None => None
      case Some(i) => Some(i + 1)
  }

  /** Find-or-create: the first element with key k if there is one (the list is unchanged),
      otherwise `created`, appended as the new last element. */
  function FindOrCreate<T, K(==)>(s: seq<T>, key: T -> K, k: K, created: T): (r: (T, seq<T>))
    requires key(created) == k
    ensures key(r.0) == k
    ensures (exists j :: 0 <= j < |s| && key(s[j]) == k) ==> r.1 == s
    ensures (forall j :: 0 <= j < |s| ==> key(s[j]) != k) ==> r.1 == s + [created] && r.0 == created
    ensures FirstWithKey(r.1, key, k).Some? && r.0 == r.1[FirstWithKey(r.1, key, k).value]
  {
    match FirstWithKey(s, key, k)
    case Some(i) => (s[i], s)
    case None =>
      assert (s + [created])[|s|] == created;
      (created, s + [created])
  }

  /** The elements of s that satisfy keep, in their order in s, repeats included. */
  function Filter<T>(s: seq<T>, keep: T -> bool): (r: seq<T>)
    ensures |r| <= |s|
  {
    if |s| == 0 then []
    else Filter(s[..|s| - 1], keep) + (if keep(s[|s| - 1]) then [s[|s| - 1]] else [])
  }

  /** An element that satisfies keep occurs in the result as often as in s; any other
      element does not occur. */
  lemma {:induction false} FilterMultiplicity<T>(s: seq<T>, keep: T -> bool, x: T)
    ensures multiset(Filter(s, keep))[x] == if keep(x) then multiset(s)[x] else 0
  {
    if |s| > 0 {
      var init := s[..|s| - 1];
      var last := s[|s| - 1];
      FilterMultiplicity(init, keep, x);
      assert multiset(s) == multiset(init) + multiset{last} by {
        assert s == init + [last];
      }
    }
  }

  /** Filtering commutes with concatenation. */
  lemma {:induction false} FilterAppend<T>(a: seq<T>, b: seq<T>, keep: T -> bool)
    ensures Filter(a + b, keep) == Filter(a, keep) + Filter(b, keep)
    decreases |b|
  {
    if |b| == 0 {
      assert a + b == a;
    } else {
      FilterAppend(a, b[..|b| - 1], keep);
      assert (a + b)[..|a + b| - 1] == a + b[..|b| - 1];
    }
  }

  /** The result holds exactly the elements of s that satisfy keep. */
  lemma {:induction false} FilterMembers<T>(s: seq<T>, keep: T -> bool)
    ensures forall x :: x in Filter(s, keep) <==> x in s && keep(x)
  {
    if |s| > 0 {
      FilterMembers(s[..|s| - 1], keep);
      assert s == s[..|s| - 1] + [s[|s| - 1]];
    }
  }

  /** Extending a prefix by one element keeps that element exactly when it satisfies keep. */
  lemma FilterSnoc<T>(s: seq<T>, i: nat, keep: T -> bool)
    requires i < |s|
    ensures Filter(s[..i + 1], keep) == Filter(s[..i], keep) + (if keep(s[i]) then [s[i]] else [])
  {
    assert s[..i + 1][..i] == s[..i];
  }

  lemma AppendAssoc<T>(a: seq<T>, b: seq<T>, c: seq<T>)
    ensures (a + b) + c == a + (b + c)
  {
  }

  predicate NoDuplicates<T(==)>(s: seq<T>) {
    forall i, j :: 0 <= i < j < |s| ==> s[i] != s[j]
  }

  /** LINQ `Distinct`: keeps the first occurrence of each element, in order. */
  function Distinct<T(==)>(s: seq<T>): (r: seq<T>)
  {
    if |s| == 0 then []
    else
      var prefix := Distinct(s[..|s| - 1]);
      if s[|s| - 1] in s[..|s| - 1] then prefix else prefix + [s[|s| - 1]]
  }

  /** Distinct leaves no repeats, keeps exactly the elements of s and is no longer than s. */
  lemma {:induction false} DistinctSpec<T>(s: seq<T>)
    ensures NoDuplicates(Distinct(s))
    ensures forall x :: x in Distinct(s) <==> x in s
    ensures |Distinct(s)| <= |s|
  {
    if |s| > 0 {
      var init := s[..|s| - 1];
      DistinctSpec(init);
      assert s == init + [s[|s| - 1]];
    }
  }

  /** Appending copies of one new element to a list adds that element once to its
      Distinct, at the end. */
  lemma {:induction false} DistinctAppendCopies<T>(s: seq<T>, x: T, copies: seq<T>)
    requires x !in s
    requires forall i :: 0 <= i < |copies| ==> copies[i] == x
    ensures Distinct(s + copies) == Distinct(s) + (if |copies| == 0 then [] else [x])
  {
    if |copies| == 0 {
      assert s + copies == s;
    } else {
      var t := s + copies;
      var init := copies[..|copies| - 1];
      assert t[..|t| - 1] == s + init;
      DistinctAppendCopies(s, x, init);
      if |init| > 0 {
        assert t[|s|] == x;
      }
    }
  }
}
