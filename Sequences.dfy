/** Sequence helpers shared by the models: duplicate freedom, first index, removal of one element. */
module Sequences {

  predicate Distinct<T(==)>(s: seq<T>) {
    forall i, j :: 0 <= i < j < |s| ==> s[i] != s[j]
  }

  /** Array.prototype.indexOf: the first position of x, or -1 when x does not occur. */
  function IndexOf<T(==)>(s: seq<T>, x: T): (i: int)
    ensures -1 <= i < |s|
    ensures i == -1 <==> x !in s
    ensures 0 <= i ==> s[i] == x && forall j :: 0 <= j < i ==> s[j] != x
    decreases |s|
  {
    if s == [] then -1
    else if s[0] == x then 0
    else
      var k := IndexOf(s[1..], x);
      if k == -1 then -1 else k + 1
  }

  /** In a duplicate-free sequence the first index of an element is its only index. */
  lemma IndexOfDistinct<T>(s: seq<T>, j: int)
    requires Distinct(s) && 0 <= j < |s|
    ensures IndexOf(s, s[j]) == j
  {
    assert s[j] in s;
  }

  /** s with its first occurrence of x taken out (s itself when x does not occur). */
  function Without<T(==)>(s: seq<T>, x: T): (r: seq<T>)
    ensures x in s ==> |r| == |s| - 1
    ensures x !in s ==> r == s
  {
    var i := IndexOf(s, x);
    if i < 0 then s else s[..i] + s[i + 1..]
  }

  /** In a duplicate-free sequence, removing x leaves exactly the other elements, once each, in order. */
  lemma WithoutDistinct<T>(s: seq<T>, x: T)
    requires Distinct(s)
    ensures Distinct(Without(s, x))
    ensures forall y :: y in Without(s, x) <==> y in s && y != x
  {
    var i := IndexOf(s, x);
    if 0 <= i {
      CutDistinct(s, i);
    }
  }

  /** Cutting index i out of a duplicate-free sequence leaves the other elements, once each. */
  lemma CutDistinct<T>(s: seq<T>, i: nat)
    requires Distinct(s) && i < |s|
    ensures Distinct(s[..i] + s[i + 1..])
    ensures forall y :: y in s[..i] + s[i + 1..] <==> y in s && y != s[i]
  {
    var r := s[..i] + s[i + 1..];
    forall a, b | 0 <= a < b < |r| ensures r[a] != r[b] {
      var a' := if a < i then a else a + 1;
      var b' := if b < i then b else b + 1;
      assert r[a] == s[a'] && r[b] == s[b'];
    }
    forall y ensures y in r <==> y in s && y != s[i] {
      if y in r {
        var k :| 0 <= k < |r| && r[k] == y;
        var k' := if k < i then k else k + 1;
        assert s[k'] == y && k' != i;
      }
      if y in s && y != s[i] {
        var k :| 0 <= k < |s| && s[k] == y;
        assert k != i;
        if k < i { assert r[k] == y; } else { assert r[k - 1] == y; }
      }
    }
  }

  /** Removing the element at index i of a duplicate-free sequence is removing that element. */
  lemma WithoutAt<T>(s: seq<T>, i: nat)
    requires Distinct(s) && i < |s|
    ensures Without(s, s[i]) == s[..i] + s[i + 1..]
  {
    assert IndexOf(s, s[i]) == i;
  }

  /** Appending an element that does not occur keeps a sequence duplicate-free. */
  lemma DistinctSnoc<T>(s: seq<T>, x: T)
    requires Distinct(s) && x !in s
    ensures Distinct(s + [x])
  {
    var r := s + [x];
    forall a, b | 0 <= a < b < |r| ensures r[a] != r[b] {
      if b == |s| { assert r[a] == s[a]; }
    }
  }

  /** Removing the element that follows a kept prefix: s[..m] + s[i..] loses s[i]. */
  lemma WithoutAfterPrefix<T>(s: seq<T>, m: nat, i: nat)
    requires m <= i < |s| && Distinct(s[..m] + s[i..])
    ensures Without(s[..m] + s[i..], s[i]) == s[..m] + s[i + 1..]
  {
    var t := s[..m] + s[i..];
    assert t[m] == s[i];
    assert t[..m] == s[..m];
    assert t[m + 1..] == s[i + 1..];
    WithoutAt(t, m);
  }

  /** Cutting the element after a kept prefix keeps duplicate freedom. */
  lemma DistinctAfterCut<T>(s: seq<T>, m: nat, i: nat)
    requires m <= i < |s| && Distinct(s[..m] + s[i..])
    ensures Distinct(s[..m] + s[i + 1..])
  {
    var t := s[..m] + s[i..];
    assert t[m] == s[i];
    assert t[..m] == s[..m];
    assert t[m + 1..] == s[i + 1..];
    CutDistinct(t, m);
  }
}
