/** Sequences without repetition, taking one element out of a sequence, and sequences backwards. */
module Sequences {
  function Min(a: nat, b: nat): nat {
    if a <= b then a else b
  }

  ghost predicate Distinct<T>(s: seq<T>) {
    forall j, k :: 0 <= j < k < |s| ==> s[j] != s[k]
  }

  function Without<T>(s: seq<T>, k: nat): seq<T>
    requires k < |s|
  {
    s[..k] + s[k + 1..]
  }

  lemma WithoutLosesOne<T>(s: seq<T>, k: nat)
    requires k < |s|
    ensures multiset(Without(s, k)) + multiset{s[k]} == multiset(s)
  {
    assert s == s[..k] + ([s[k]] + s[k + 1..]);
  }

  lemma WithoutFacts<T>(s: seq<T>, k: nat)
    requires k < |s| && Distinct(s)
    ensures Distinct(Without(s, k)) && s[k] !in Without(s, k)
    ensures forall x :: x in Without(s, k) <==> x in s && x != s[k]
    ensures forall j :: 0 <= j < |s| && j != k ==> s[j] != s[k]
  {
    assert s == s[..k] + [s[k]] + s[k + 1..];
  }

  lemma DistinctAppend<T>(s: seq<T>, x: T)
    requires Distinct(s) && x !in s
    ensures Distinct(s + [x]) && forall y :: y in s + [x] <==> y in s || y == x
  {
  }

  lemma LastIsOnce<T>(s: seq<T>)
    requires Distinct(s)
    ensures s != [] ==> forall j :: 0 <= j < |s| - 1 ==> s[j] != s[|s| - 1]
  {
  }

  lemma {:induction false} DistinctByCount<T>(values: seq<T>)
    ensures Distinct(values) <==> forall v :: v in values ==> multiset(values)[v] == 1
  {
    if values != [] {
      var front, last := values[..|values| - 1], values[|values| - 1];
      DistinctByCount(front);
      assert values == front + [last];
      assert multiset(values) == multiset(front) + multiset{last};
      if Distinct(values) {
        assert last !in front;
      } else {
        if Distinct(front) {
          assert last in front && multiset(front)[last] >= 1;
          assert last in values;
        } else {
          var v :| v in front && multiset(front)[v] != 1;
          assert multiset(front)[v] > 1 && v in values;
        }
      }
    }
  }

  function Reverse<T>(s: seq<T>): (r: seq<T>)
    ensures |r| == |s|
  {
    if s == [] then [] else [s[|s| - 1]] + Reverse(s[..|s| - 1])
  }

  lemma {:induction false} ReverseAt<T>(s: seq<T>, i: nat)
    requires i < |s|
    ensures Reverse(s)[i] == s[|s| - 1 - i]
  {
    if i > 0 {
      ReverseAt(s[..|s| - 1], i - 1);
    }
  }

  lemma {:induction false} ReverseHas<T>(s: seq<T>)
    ensures forall x :: x in Reverse(s) <==> x in s
  {
    if s != [] {
      ReverseHas(s[..|s| - 1]);
      assert s == s[..|s| - 1] + [s[|s| - 1]];
    }
  }
}
