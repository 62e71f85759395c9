/**
 * The window stacking order that peeking rearranges: a sequence of window
 * actors, bottom first, as the window group's children are ordered.
 */
module Stacking {
  import opened Sequences

  /**
   * set_child_above_sibling(actor, null): the window becomes the topmost
   * child; the others keep their order.
   */
  function RaiseToTop<T(==)>(s: seq<T>, w: T): (r: seq<T>)
    ensures w in s ==> |r| == |s| && r[|r| - 1] == w
    ensures w !in s ==> r == s
  {
    if w in s then Without(s, w) + [w] else s
  }

  /** Taking out the appended element gives back the prefix when it does not occur there. */
  lemma WithoutLast<T>(s: seq<T>, w: T)
    ensures w !in s ==> Without(s + [w], w) == s
  {
    if w !in s {
      assert IndexOf(s + [w], w) == |s| by {
        assert (s + [w])[|s|] == w;
        forall j | 0 <= j < |s| ensures (s + [w])[j] != w { assert (s + [w])[j] == s[j]; }
      }
      assert (s + [w])[..|s|] == s;
    }
  }

  /**
   * set_child_at_index(actor, k): the window is taken out and put back so
   * that k windows lie below it; an index past the end puts it on top.
   */
  function MoveToIndex<T(==)>(s: seq<T>, w: T, k: nat): (r: seq<T>)
    ensures w in s ==> |r| == |s|
    ensures w in s ==> r[if k < |s| then k else |s| - 1] == w
  {
    var rest := Without(s, w);
    var at := if k <= |rest| then k else |rest|;
    rest[..at] + [w] + rest[at..]
  }

  /** Raising a window and then moving it back to the index it had restores the stacking order exactly. */
  lemma RestoreAfterRaise<T>(s: seq<T>, w: T)
    requires Distinct(s) && w in s
    ensures MoveToIndex(RaiseToTop(s, w), w, IndexOf(s, w)) == s
  {
    var i := IndexOf(s, w);
    var rest := s[..i] + s[i + 1..];
    RaisedForm(s, w);
    MoveBackForm(rest, w, i);
    SpliceBack(s, i);
  }

  /** A raised window sits after the others, which no longer contain it. */
  lemma RaisedForm<T>(s: seq<T>, w: T)
    requires Distinct(s) && w in s
    ensures var i := IndexOf(s, w);
      RaiseToTop(s, w) == (s[..i] + s[i + 1..]) + [w] && w !in s[..i] + s[i + 1..] && i <= |s| - 1
  {
    var i := IndexOf(s, w);
    var rest := s[..i] + s[i + 1..];
    WithoutAt(s, i);
    WithoutDistinct(s, w);
    assert w !in rest;
  }

  /** Moving the last element back to index i of the others. */
  lemma MoveBackForm<T>(rest: seq<T>, w: T, i: nat)
    requires w !in rest && i <= |rest|
    ensures MoveToIndex(rest + [w], w, i) == rest[..i] + [w] + rest[i..]
  {
    WithoutLast(rest, w);
  }

  /** Cutting out s[i] and splicing it back at i gives s. */
  lemma SpliceBack<T>(s: seq<T>, i: nat)
    requires i < |s|
    ensures (s[..i] + s[i + 1..])[..i] + [s[i]] + (s[..i] + s[i + 1..])[i..] == s
  {
    var rest := s[..i] + s[i + 1..];
    assert rest[..i] == s[..i];
    assert rest[i..] == s[i + 1..];
    assert s == s[..i] + [s[i]] + s[i + 1..];
  }

  /** Raising keeps the set of windows and duplicate freedom. */
  lemma RaiseToTopPermutes<T>(s: seq<T>, w: T)
    requires Distinct(s)
    ensures Distinct(RaiseToTop(s, w))
    ensures forall x :: x in RaiseToTop(s, w) <==> x in s
    ensures Without(RaiseToTop(s, w), w) == Without(s, w)
  {
    if w in s {
      WithoutDistinct(s, w);
      WithoutLast(Without(s, w), w);
      var rest := Without(s, w);
      var r := rest + [w];
      forall a, b | 0 <= a < b < |r| ensures r[a] != r[b] {
        if b == |rest| { assert r[a] == rest[a]; }
      }
    }
  }

  /** Moving keeps the set of windows and duplicate freedom. */
  lemma MoveToIndexPermutes<T>(s: seq<T>, w: T, k: nat)
    requires Distinct(s) && w in s
    ensures Distinct(MoveToIndex(s, w, k))
    ensures forall x :: x in MoveToIndex(s, w, k) <==> x in s
  {
    WithoutDistinct(s, w);
    var rest := Without(s, w);
    var at := if k <= |rest| then k else |rest|;
    var r := rest[..at] + [w] + rest[at..];
    assert r == MoveToIndex(s, w, k);
    forall a, b | 0 <= a < b < |r| ensures r[a] != r[b] {
      var a' := if a < at then a else a - 1;
      var b' := if b < at then b else b - 1;
      if a != at && b != at {
        assert r[a] == rest[a'] && r[b] == rest[b'];
      } else if a == at {
        assert r[b] == rest[b'];
      } else {
        assert r[a] == rest[a'];
      }
    }
    forall x ensures x in r <==> x in s {
      if x in rest { assert x in rest[..at] || x in rest[at..]; }
      assert x in r ==> x in rest || x == w;
    }
  }
}
