/** Small facts about sequences that several modules use. */
module Sequences {

  lemma Regroup<T>(a: seq<T>, b: seq<T>, c: seq<T>)
    ensures (a + b) + c == a + (b + c)
  {
  }

  predicate NoDuplicates<T(==)>(s: seq<T>) {
    forall i, j :: 0 <= i < j < |s| ==> s[i] != s[j]
  }

  lemma {:induction false} CountsOne<T>(s: seq<T>, x: T)
    requires NoDuplicates(s)
    ensures multiset(s)[x] == if x in s then 1 else 0
  {
    if s != [] {
      CountsOne(s[1..], x);
      assert s == [s[0]] + s[1..];
    }
  }

  /** Nothing occurs twice exactly when everything that occurs is counted once. */
  lemma CountedOnce<T>(s: seq<T>)
    ensures NoDuplicates(s) <==> forall x :: x in s ==> multiset(s)[x] == 1
  {
    if NoDuplicates(s) {
      forall x | x in s ensures multiset(s)[x] == 1 {
        CountsOne(s, x);
      }
    } else {
      var i, j :| 0 <= i < j < |s| && s[i] == s[j];
      var a, b, x := s[..j], s[j..], s[j];
      assert s == a + b && a[i] == x && b[0] == x;
      assert multiset(a)[x] >= 1 && multiset(b)[x] >= 1;
      assert multiset(s)[x] == multiset(a)[x] + multiset(b)[x] && x in s;
    }
  }

  /** The first place that is marked, or the length. */
  lemma FirstTrue(marks: seq<bool>) returns (i: nat)
    ensures i <= |marks| && (i < |marks| ==> marks[i]) && forall j :: 0 <= j < i ==> !marks[j]
  {
    i := 0;
    while i < |marks| && !marks[i]
      invariant i <= |marks| && forall j :: 0 <= j < i ==> !marks[j]
    {
      i := i + 1;
    }
  }

  // ---------------------------------------------------------------- lists one behind the other

  function Flat<T>(parts: seq<seq<T>>): seq<T> {
    if parts == [] then [] else Flat(parts[..|parts| - 1]) + parts[|parts| - 1]
  }

  /** Where a part begins. */
  function Start<T>(parts: seq<seq<T>>, i: nat): nat
    requires i <= |parts|
  {
    |Flat(parts[..i])|
  }

  lemma {:induction false} FlatAt<T>(parts: seq<seq<T>>, i: nat, j: nat)
    requires i < |parts| && j < |parts[i]|
    ensures Start(parts, i) + j < |Flat(parts)| && Flat(parts)[Start(parts, i) + j] == parts[i][j]
    decreases |parts|
  {
    var init := parts[..|parts| - 1];
    assert parts[..i] == init[..i];
    if i < |init| {
      FlatAt(init, i, j);
    } else {
      assert init[..i] == init;
    }
  }

  /** Every element of the whole is one of a part. */
  lemma {:induction false} FlatPlace<T>(parts: seq<seq<T>>, x: nat) returns (i: nat, j: nat)
    requires x < |Flat(parts)|
    ensures i < |parts| && j < |parts[i]| && x == Start(parts, i) + j && Flat(parts)[x] == parts[i][j]
    decreases |parts|
  {
    var init := parts[..|parts| - 1];
    if x < |Flat(init)| {
      i, j := FlatPlace(init, x);
      assert parts[..i] == init[..i];
    } else {
      i, j := |init|, x - |Flat(init)|;
    }
  }

  lemma {:induction false} StartGrows<T>(parts: seq<seq<T>>, i: nat, k: nat)
    requires i < k <= |parts|
    ensures Start(parts, i) + |parts[i]| <= Start(parts, k)
    decreases k
  {
    assert parts[..k][..k - 1] == parts[..k - 1];
    if i < k - 1 {
      StartGrows(parts, i, k - 1);
    }
  }

  /** What stands in an earlier part, or earlier in the same part, stands earlier in the whole. */
  lemma FlatOrder<T>(parts: seq<seq<T>>, i: nat, j: nat, k: nat, l: nat)
    requires i < |parts| && j < |parts[i]| && k < |parts| && l < |parts[k]|
    ensures Start(parts, i) + j < Start(parts, k) + l <==> i < k || (i == k && j < l)
  {
    if i < k {
      StartGrows(parts, i, k);
    } else if k < i {
      StartGrows(parts, k, i);
    }
  }
}
