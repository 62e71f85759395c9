/**
 * Identity-based reconciliation (`_addAndRemoveWindows`) as a function: the
 * current previews are known by their position in the child list and the
 * window each shows; every listed window, in list order, either claims the
 * first still unclaimed preview showing it or is queued for a new preview.
 * What is left unclaimed is animated out.
 */
module Reconcile {
  import opened HostTypes
  import opened Sequences

  /** Positions of the previews not yet claimed, and the windows queued for new previews. */
  datatype Pass = Pass(cur: seq<nat>, added: seq<Window>)

  predicate Increasing(s: seq<nat>) {
    forall i, j :: 0 <= i < j < |s| ==> s[i] < s[j]
  }

  predicate InRange(cur: seq<nat>, n: nat) {
    forall j :: 0 <= j < |cur| ==> cur[j] < n
  }

  function Iota(n: nat): (r: seq<nat>)
    ensures |r| == n && forall j :: 0 <= j < n ==> r[j] == j
  {
    seq(n, (j: int) requires 0 <= j < n => j as nat)
  }

  /** Utils.findIndex over the unclaimed previews: the first one showing w, or -1. */
  function FindIndex(cur: seq<nat>, wins: seq<Window>, w: Window): (i: int)
    requires InRange(cur, |wins|)
    ensures -1 <= i < |cur|
    ensures 0 <= i ==> wins[cur[i]] == w && forall j :: 0 <= j < i ==> wins[cur[j]] != w
    ensures i == -1 ==> forall j :: 0 <= j < |cur| ==> wins[cur[j]] != w
    decreases |cur|
  {
    if cur == [] then -1
    else if wins[cur[0]] == w then 0
    else
      var k := FindIndex(cur[1..], wins, w);
      if k == -1 then -1 else k + 1
  }

  /** One iteration of the loop over the listed windows. */
  function Step(p: Pass, wins: seq<Window>, w: Window): (r: Pass)
    requires InRange(p.cur, |wins|)
    ensures InRange(r.cur, |wins|)
    ensures (r.added == p.added + [w] && r.cur == p.cur) || (r.added == p.added && |r.cur| == |p.cur| - 1)
    ensures r.added == p.added + [w] <==> forall j :: 0 <= j < |p.cur| ==> wins[p.cur[j]] != w
  {
    var i := FindIndex(p.cur, wins, w);
    if i < 0 then Pass(p.cur, p.added + [w])
    else
      var r := p.cur[..i] + p.cur[i + 1..];
      assert forall j :: 0 <= j < |r| ==> r[j] == (if j < i then p.cur[j] else p.cur[j + 1]);
      Pass(r, p.added)
  }

  /** The loop after processing the windows `ws`, starting from every preview unclaimed. */
  function Run(wins: seq<Window>, ws: seq<Window>): (p: Pass)
    ensures InRange(p.cur, |wins|)
    ensures |p.added| <= |ws| && |p.cur| + |ws| == |wins| + |p.added|
    ensures forall w :: w in p.added ==> w in ws
    decreases |ws|
  {
    if ws == [] then Pass(Iota(|wins|), [])
    else Step(Run(wins, ws[..|ws| - 1]), wins, ws[|ws| - 1])
  }

  /** The listed windows that no current preview shows, in list order: those that get new previews. */
  function NewWindows(wins: seq<Window>, ws: seq<Window>): (r: seq<Window>)
    ensures forall w :: w in r <==> w in ws && w !in wins
    decreases |ws|
  {
    if ws == [] then []
    else
      var init := NewWindows(wins, ws[..|ws| - 1]);
      var w := ws[|ws| - 1];
      assert forall x :: x in ws <==> x in ws[..|ws| - 1] || x == w by {
        assert ws == ws[..|ws| - 1] + [w];
      }
      if w in wins then init else init + [w]
  }

  lemma {:induction false} NewWindowsDistinct(wins: seq<Window>, ws: seq<Window>)
    requires Distinct(ws)
    ensures Distinct(NewWindows(wins, ws))
    decreases |ws|
  {
    if ws != [] {
      var init := ws[..|ws| - 1];
      assert Distinct(init) by {
        forall a, b | 0 <= a < b < |init| ensures init[a] != init[b] { assert init[a] == ws[a] && init[b] == ws[b]; }
      }
      NewWindowsDistinct(wins, init);
      var w := ws[|ws| - 1];
      assert w !in init by {
        forall j | 0 <= j < |init| ensures init[j] != w { assert init[j] == ws[j]; }
      }
    }
  }

  /** Removing the element at one index keeps a sequence increasing and drops exactly that element. */
  lemma SpliceIncreasing(s: seq<nat>, i: nat)
    requires Increasing(s) && i < |s|
    ensures Increasing(s[..i] + s[i + 1..])
    ensures forall k :: k in s[..i] + s[i + 1..] <==> k in s && k != s[i]
  {
    var r := s[..i] + s[i + 1..];
    assert forall j :: 0 <= j < |r| ==> r[j] == (if j < i then s[j] else s[j + 1]);
    forall k ensures k in r <==> k in s && k != s[i] {
      if k in s && k != s[i] {
        var j :| 0 <= j < |s| && s[j] == k;
        if j < i { assert r[j] == k; } else { assert j != i; assert r[j - 1] == k; }
      }
    }
  }

  /** What holds of the pass after the windows `ws`: see RunCharacterised. */
  predicate Claimed(p: Pass, wins: seq<Window>, ws: seq<Window>) {
    && InRange(p.cur, |wins|)
    && Increasing(p.cur)
    && (forall k: nat :: k < |wins| && wins[k] !in ws ==> k in p.cur)
    && (Distinct(wins) ==> forall j :: 0 <= j < |p.cur| ==> wins[p.cur[j]] !in ws)
  }

  /** One iteration keeps Claimed and queues the window iff no preview shows it. */
  lemma StepClaims(p: Pass, wins: seq<Window>, ws: seq<Window>, w: Window)
    requires Claimed(p, wins, ws) && w !in ws
    ensures Claimed(Step(p, wins, w), wins, ws + [w])
    ensures Step(p, wins, w).added == p.added + (if w in wins then [] else [w])
  {
    var i := FindIndex(p.cur, wins, w);
    // every preview showing w is still unclaimed, so w is found iff some preview shows it
    if w in wins {
      var k: nat :| k < |wins| && wins[k] == w;
      FindShown(p, wins, ws, w, k);
      StepClaimsFound(p, wins, ws, w, i);
    } else {
      StepClaimsNotFound(p, wins, ws, w);
    }
  }

  /** A window some preview shows and no earlier listed window matched is still found among the unclaimed. */
  lemma FindShown(p: Pass, wins: seq<Window>, ws: seq<Window>, w: Window, k: nat)
    requires Claimed(p, wins, ws) && w !in ws && k < |wins| && wins[k] == w
    ensures 0 <= FindIndex(p.cur, wins, w)
  {
    assert k in p.cur;
    var j :| 0 <= j < |p.cur| && p.cur[j] == k;
  }

  lemma StepClaimsFound(p: Pass, wins: seq<Window>, ws: seq<Window>, w: Window, i: int)
    requires Claimed(p, wins, ws) && w !in ws
    requires i == FindIndex(p.cur, wins, w) && 0 <= i
    ensures Claimed(Step(p, wins, w), wins, ws + [w])
  {
    var q := Step(p, wins, w);
    SpliceIncreasing(p.cur, i);
    assert q.cur == p.cur[..i] + p.cur[i + 1..];
    forall k: nat | k < |wins| && wins[k] !in ws + [w] ensures k in q.cur {
      assert k in p.cur && wins[k] != w;
    }
    if Distinct(wins) {
      forall j | 0 <= j < |q.cur| ensures wins[q.cur[j]] !in ws + [w] {
        var k := q.cur[j];
        assert k in q.cur;
        assert k in p.cur && k != p.cur[i];
        var j' :| 0 <= j' < |p.cur| && p.cur[j'] == k;
        assert wins[k] !in ws;
      }
    }
  }

  lemma StepClaimsNotFound(p: Pass, wins: seq<Window>, ws: seq<Window>, w: Window)
    requires Claimed(p, wins, ws) && w !in ws && w !in wins
    ensures Claimed(Step(p, wins, w), wins, ws + [w])
  {
    var q := Step(p, wins, w);
    assert q.cur == p.cur;
    forall k: nat | k < |wins| && wins[k] !in ws + [w] ensures k in q.cur {
      assert wins[k] !in ws;
    }
    if Distinct(wins) {
      forall j | 0 <= j < |q.cur| ensures wins[q.cur[j]] !in ws + [w] {
        assert wins[q.cur[j]] != w;
      }
    }
  }

  /**
   * What the pass computes, for a duplicate-free window list: the windows
   * queued for new previews are exactly the listed windows no preview shows,
   * in list order; every preview whose window is not listed is left over; and
   * when the previews show distinct windows, a preview is left over iff its
   * window is not listed (so each listed, shown window keeps its preview).
   */
  lemma {:induction false} RunCharacterised(wins: seq<Window>, ws: seq<Window>)
    requires Distinct(ws)
    ensures Run(wins, ws).added == NewWindows(wins, ws)
    ensures Increasing(Run(wins, ws).cur)
    ensures forall k: nat :: k < |wins| && wins[k] !in ws ==> k in Run(wins, ws).cur
    ensures Distinct(wins) ==> forall k: nat :: k in Run(wins, ws).cur <==> k < |wins| && wins[k] !in ws
    decreases |ws|
  {
    RunClaimed(wins, ws);
    var c := Run(wins, ws).cur;
    if Distinct(wins) {
      forall k: nat | k in c ensures k < |wins| && wins[k] !in ws {
        var j :| 0 <= j < |c| && c[j] == k;
      }
    }
  }

  lemma {:induction false} RunClaimed(wins: seq<Window>, ws: seq<Window>)
    requires Distinct(ws)
    ensures Claimed(Run(wins, ws), wins, ws)
    ensures Run(wins, ws).added == NewWindows(wins, ws)
    decreases |ws|
  {
    if ws == [] {
      var c := Iota(|wins|);
      forall k: nat | k < |wins| ensures k in c { assert c[k] == k; }
    } else {
      var init := ws[..|ws| - 1];
      var w := ws[|ws| - 1];
      assert ws == init + [w];
      assert Distinct(init) by {
        forall a, b | 0 <= a < b < |init| ensures init[a] != init[b] { assert init[a] == ws[a] && init[b] == ws[b]; }
      }
      assert w !in init by {
        forall j | 0 <= j < |init| ensures init[j] != w { assert init[j] == ws[j]; }
      }
      RunClaimed(wins, init);
      StepClaims(Run(wins, init), wins, init, w);
    }
  }

  /** Two increasing sequences with the same elements are equal. */
  lemma {:induction false} IncreasingUnique(a: seq<nat>, b: seq<nat>)
    requires Increasing(a) && Increasing(b)
    requires forall k :: k in a <==> k in b
    ensures a == b
    decreases |a|
  {
    assert |a| > 0 ==> a[0] in a;
    assert |b| > 0 ==> b[0] in b;
    if a != [] && b != [] {
      // the least elements coincide
      assert a[0] == b[0] by {
        assert a[0] in b && b[0] in a;
        var i :| 0 <= i < |b| && b[i] == a[0];
        var j :| 0 <= j < |a| && a[j] == b[0];
        assert b[0] <= b[i] && a[0] <= a[j];
      }
      forall k ensures k in a[1..] <==> k in b[1..] {
        if k in a[1..] { var i :| 1 <= i < |a| && a[i] == k; assert a[0] < k; assert k in b; var j :| 0 <= j < |b| && b[j] == k; assert j != 0; assert b[j] == b[1..][j - 1]; }
        if k in b[1..] { var i :| 1 <= i < |b| && b[i] == k; assert b[0] < k; assert k in a; var j :| 0 <= j < |a| && a[j] == k; assert j != 0; assert a[j] == a[1..][j - 1]; }
      }
      IncreasingUnique(a[1..], b[1..]);
      assert a == [a[0]] + a[1..] && b == [b[0]] + b[1..];
    }
  }

  /** Consecutive positions from lo up to (not including) hi. */
  function Span(lo: nat, hi: nat): (r: seq<nat>)
    ensures |r| == (if lo <= hi then hi - lo else 0)
    ensures forall j :: 0 <= j < |r| ==> r[j] == lo + j
  {
    seq(if lo <= hi then hi - lo else 0, (j: int) requires 0 <= j => (lo + j) as nat)
  }

  /** The first unclaimed preview showing w is the one FindIndex returns. */
  lemma FindIndexAt(cur: seq<nat>, wins: seq<Window>, w: Window, i: nat)
    requires InRange(cur, |wins|) && i < |cur| && wins[cur[i]] == w
    requires forall j :: 0 <= j < i ==> wins[cur[j]] != w
    ensures FindIndex(cur, wins, w) == i
  {
  }

  /** The windows queued after a prefix of the list are a prefix of those queued after the whole list. */
  lemma {:induction false} RunAddedPrefix(wins: seq<Window>, ws: seq<Window>, i: nat)
    requires i <= |ws|
    ensures Run(wins, ws[..i]).added <= Run(wins, ws).added
    decreases |ws|
  {
    if i < |ws| {
      var init := ws[..|ws| - 1];
      assert init[..i] == ws[..i];
      RunAddedPrefix(wins, init, i);
    } else {
      assert ws[..i] == ws;
    }
  }

  /** A first-pass state seen from the second pass: nothing queued, and the new windows' positions not yet reached left over after the old ones. */
  function Shift(p: Pass, wins: seq<Window>, A: seq<Window>): Pass {
    Pass(p.cur + Span(|wins| + |p.added|, |wins| + |A|), [])
  }

  /** One more listed window is one more step. */
  lemma RunSnoc(wins: seq<Window>, ws: seq<Window>, i: nat)
    requires i < |ws|
    ensures Run(wins, ws[..i + 1]) == Step(Run(wins, ws[..i]), wins, ws[i])
  {
    assert ws[..i + 1][..i] == ws[..i];
  }

  /**
   * The second pass, with the first pass's new windows appended to the shown
   * ones, after a prefix of the list: it has queued nothing, and it leaves
   * over what the first pass left after that prefix followed by the
   * positions of the new windows not yet reached.
   */
  lemma {:induction false} RunAgain(wins: seq<Window>, ws: seq<Window>, i: nat)
    requires i <= |ws|
    ensures Run(wins + Run(wins, ws).added, ws[..i]) == Shift(Run(wins, ws[..i]), wins, Run(wins, ws).added)
    decreases i
  {
    var A := Run(wins, ws).added;
    if i == 0 {
      assert ws[..0] == [];
      RunAgainBase(wins, A);
    } else {
      RunAgain(wins, ws, i - 1);
      RunAddedPrefix(wins, ws, i);
      RunSnoc(wins, ws, i - 1);
      RunSnoc(wins + A, ws, i - 1);
      RunAgainStep(wins, A, Run(wins, ws[..i - 1]), ws[i - 1]);
    }
  }

  /** Before any window is listed, the second pass has every old and every new position unclaimed. */
  lemma RunAgainBase(wins: seq<Window>, A: seq<Window>)
    ensures Run(wins + A, []) == Shift(Run(wins, []), wins, A)
  {
    var full := Iota(|wins + A|);
    var r := Iota(|wins|) + Span(|wins|, |wins| + |A|);
    assert |full| == |r|;
    forall j | 0 <= j < |full| ensures full[j] == r[j] {
      if j >= |wins| { assert r[j] == Span(|wins|, |wins| + |A|)[j - |wins|]; }
    }
    assert full == r;
  }

  /** One step of RunAgain: the second pass claims where the first one claimed, and claims the next new window where the first one queued it. */
  lemma RunAgainStep(wins: seq<Window>, A: seq<Window>, pi: Pass, w: Window)
    requires InRange(pi.cur, |wins|) && Step(pi, wins, w).added <= A
    ensures InRange(Shift(pi, wins, A).cur, |wins + A|)
    ensures Step(Shift(pi, wins, A), wins + A, w) == Shift(Step(pi, wins, w), wins, A)
  {
    var idx := FindIndex(pi.cur, wins, w);
    if idx >= 0 {
      RunAgainFound(wins, A, pi, w, idx);
    } else {
      assert Step(pi, wins, w).added == pi.added + [w];
      assert A[|pi.added|] == (pi.added + [w])[|pi.added|] == w;
      RunAgainQueued(wins, A, pi, w);
    }
  }

  /** The claimed case of RunAgainStep: the second pass finds the same unclaimed preview. */
  lemma RunAgainFound(wins: seq<Window>, A: seq<Window>, pi: Pass, w: Window, idx: nat)
    requires InRange(pi.cur, |wins|) && FindIndex(pi.cur, wins, w) == idx
    ensures InRange(Shift(pi, wins, A).cur, |wins + A|)
    ensures Step(Shift(pi, wins, A), wins + A, w) == Shift(Step(pi, wins, w), wins, A)
  {
    var S := Span(|wins| + |pi.added|, |wins| + |A|);
    var c := pi.cur + S;
    var wins2 := wins + A;
    ShiftInRange(pi, wins, A);
    assert idx < |pi.cur| && c[idx] == pi.cur[idx];
    forall j | 0 <= j < idx ensures wins2[c[j]] != w {
      assert c[j] == pi.cur[j];
    }
    FindIndexAt(c, wins2, w, idx);
    CutInFront(pi.cur, S, idx);
  }

  /** The queued case of RunAgainStep: the second pass finds the window at the first new position. */
  lemma RunAgainQueued(wins: seq<Window>, A: seq<Window>, pi: Pass, w: Window)
    requires InRange(pi.cur, |wins|) && FindIndex(pi.cur, wins, w) < 0 && |pi.added| < |A| && A[|pi.added|] == w
    ensures InRange(Shift(pi, wins, A).cur, |wins + A|)
    ensures Step(Shift(pi, wins, A), wins + A, w) == Shift(Step(pi, wins, w), wins, A)
  {
    var S := Span(|wins| + |pi.added|, |wins| + |A|);
    var T := Span(|wins| + |pi.added| + 1, |wins| + |A|);
    ShiftInRange(pi, wins, A);
    assert Step(Shift(pi, wins, A), wins + A, w) == Pass(pi.cur + S[1..], []) by {
      QueuedFound(wins, A, pi, w);
    }
    assert S[1..] == T by {
      SpanTail(|wins| + |pi.added|, |wins| + |A|);
    }
    assert Shift(Step(pi, wins, w), wins, A) == Pass(pi.cur + T, []) by {
      StepQueues(pi, wins, w);
    }
  }

  lemma StepClaimAt(p: Pass, wins: seq<Window>, w: Window, i: nat)
    requires InRange(p.cur, |wins|) && FindIndex(p.cur, wins, w) == i
    ensures i < |p.cur| && Step(p, wins, w) == Pass(p.cur[..i] + p.cur[i + 1..], p.added)
  {
  }

  lemma StepQueues(p: Pass, wins: seq<Window>, w: Window)
    requires InRange(p.cur, |wins|) && FindIndex(p.cur, wins, w) < 0
    ensures Step(p, wins, w) == Pass(p.cur, p.added + [w])
  {
  }

  lemma SpanTail(lo: nat, hi: nat)
    requires lo < hi
    ensures Span(lo, hi)[1..] == Span(lo + 1, hi)
  {
    var a := Span(lo, hi)[1..];
    var b := Span(lo + 1, hi);
    assert |a| == |b|;
    forall j | 0 <= j < |a| ensures a[j] == b[j] {
      assert a[j] == Span(lo, hi)[j + 1];
    }
  }

  /** In the queued case the second pass finds the window at the first position after the old ones. */
  lemma QueuedFound(wins: seq<Window>, A: seq<Window>, pi: Pass, w: Window)
    requires InRange(pi.cur, |wins|) && FindIndex(pi.cur, wins, w) < 0 && |pi.added| < |A| && A[|pi.added|] == w
    ensures InRange(Shift(pi, wins, A).cur, |wins + A|)
    ensures Step(Shift(pi, wins, A), wins + A, w) == Pass(pi.cur + Span(|wins| + |pi.added|, |wins| + |A|)[1..], [])
  {
    var S := Span(|wins| + |pi.added|, |wins| + |A|);
    var c := pi.cur + S;
    var wins2 := wins + A;
    var n := |pi.cur|;
    ShiftInRange(pi, wins, A);
    assert c[n] == S[0] == |wins| + |pi.added|;
    forall j | 0 <= j < n ensures wins2[c[j]] != w {
      assert c[j] == pi.cur[j];
    }
    FindIndexAt(c, wins2, w, n);
    StepClaimAt(Shift(pi, wins, A), wins2, w, n);
    CutAtJoin(pi.cur, S);
  }

  lemma ShiftInRange(pi: Pass, wins: seq<Window>, A: seq<Window>)
    requires InRange(pi.cur, |wins|)
    ensures InRange(Shift(pi, wins, A).cur, |wins + A|)
  {
    var S := Span(|wins| + |pi.added|, |wins| + |A|);
    var c := pi.cur + S;
    forall j | 0 <= j < |c| ensures c[j] < |wins + A| {
      if j >= |pi.cur| { assert c[j] == S[j - |pi.cur|]; }
    }
  }

  /** Cutting an element of the front part of a concatenation. */
  lemma CutInFront(a: seq<nat>, b: seq<nat>, k: nat)
    requires k < |a|
    ensures (a + b)[..k] + (a + b)[k + 1..] == (a[..k] + a[k + 1..]) + b
  {
    assert (a + b)[..k] == a[..k];
    assert (a + b)[k + 1..] == a[k + 1..] + b;
  }

  /** Cutting the first element of the back part of a concatenation. */
  lemma CutAtJoin(a: seq<nat>, b: seq<nat>)
    requires 0 < |b|
    ensures (a + b)[..|a|] + (a + b)[|a| + 1..] == a + b[1..]
  {
    assert (a + b)[..|a|] == a;
    assert (a + b)[|a| + 1..] == b[1..];
  }

  /**
   * Reconciliation is idempotent: repeating the pass with the same list, over
   * the children the first pass produced, queues no new preview and leaves
   * exactly the same previews over.
   */
  lemma RunIdempotent(wins: seq<Window>, ws: seq<Window>)
    ensures var again := Run(wins + Run(wins, ws).added, ws);
      again.added == [] && again.cur == Run(wins, ws).cur
  {
    var first := Run(wins, ws);
    RunAgain(wins, ws, |ws|);
    assert ws[..|ws|] == ws;
    var S := Span(|wins| + |first.added|, |wins| + |first.added|);
    assert S == [];
    assert first.cur + S == first.cur;
  }

  /** The positions claimed so far show listed windows, no two the same one. */
  predicate ClaimedOnce(p: Pass, wins: seq<Window>, ws: seq<Window>) {
    && InRange(p.cur, |wins|)
    && (forall k: nat :: k < |wins| && k !in p.cur ==> wins[k] in ws)
    && (forall k1: nat, k2: nat :: k1 < k2 < |wins| && k1 !in p.cur && k2 !in p.cur ==> wins[k1] != wins[k2])
  }

  /** Claiming for a window not listed before keeps the claimed windows pairwise different. */
  lemma StepClaimsOnce(p: Pass, wins: seq<Window>, ws: seq<Window>, w: Window)
    requires ClaimedOnce(p, wins, ws) && w !in ws
    ensures ClaimedOnce(Step(p, wins, w), wins, ws + [w])
  {
    var i := FindIndex(p.cur, wins, w);
    if 0 <= i {
      ClaimOnceFound(p, wins, ws, w, i);
    } else {
      assert Step(p, wins, w).cur == p.cur;
    }
  }

  lemma ClaimOnceFound(p: Pass, wins: seq<Window>, ws: seq<Window>, w: Window, i: nat)
    requires ClaimedOnce(p, wins, ws) && w !in ws
    requires FindIndex(p.cur, wins, w) == i
    ensures ClaimedOnce(Step(p, wins, w), wins, ws + [w])
  {
    var c := p.cur[i];
    var r := p.cur[..i] + p.cur[i + 1..];
    StepClaimAt(p, wins, w, i);
    assert wins[c] == w;
    forall k: nat | k in p.cur && k != c ensures k in r {
      var j :| 0 <= j < |p.cur| && p.cur[j] == k;
      if j < i { assert r[j] == k; } else { assert r[j - 1] == k; }
    }
    forall k: nat | k < |wins| && k !in r ensures wins[k] in ws + [w] {
    }
    forall k1: nat, k2: nat | k1 < k2 < |wins| && k1 !in r && k2 !in r ensures wins[k1] != wins[k2] {
    }
  }

  lemma {:induction false} RunClaimsOnce(wins: seq<Window>, ws: seq<Window>)
    requires Distinct(ws)
    ensures ClaimedOnce(Run(wins, ws), wins, ws)
    decreases |ws|
  {
    if ws == [] {
      var c := Iota(|wins|);
      forall k: nat | k < |wins| ensures k in c { assert c[k] == k; }
    } else {
      var init := ws[..|ws| - 1];
      var w := ws[|ws| - 1];
      assert ws == init + [w];
      assert Distinct(init) by {
        forall a, b | 0 <= a < b < |init| ensures init[a] != init[b] { assert init[a] == ws[a] && init[b] == ws[b]; }
      }
      assert w !in init by {
        forall j | 0 <= j < |init| ensures init[j] != w { assert init[j] == ws[j]; }
      }
      RunClaimsOnce(wins, init);
      StepClaimsOnce(Run(wins, init), wins, init, w);
    }
  }

  /**
   * For a duplicate-free list, every window ends up with at most one
   * preview that is not left over: the claimed previews show pairwise
   * different listed windows, the queued windows are pairwise different,
   * and no queued window is one a current preview shows.
   */
  lemma RunOnePerWindow(wins: seq<Window>, ws: seq<Window>)
    requires Distinct(ws)
    ensures var r := Run(wins, ws);
      forall k1: nat, k2: nat :: k1 < k2 < |wins| && k1 !in r.cur && k2 !in r.cur ==> wins[k1] != wins[k2]
    ensures var r := Run(wins, ws);
      forall k: nat :: k < |wins| && k !in r.cur ==> wins[k] in ws
    ensures Distinct(Run(wins, ws).added)
    ensures forall w :: w in Run(wins, ws).added ==> w in ws && w !in wins
  {
    RunClaimsOnce(wins, ws);
    RunCharacterised(wins, ws);
    NewWindowsDistinct(wins, ws);
  }

  /**
   * A listed window whose only preview is animating out claims that preview
   * rather than getting a new one: with previews showing 7 and 9 and the list
   * [9, 7], nothing is queued and nothing is left over.
   */
  lemma ClaimsDyingPreview()
    ensures Run([7, 9], [9, 7]) == Pass([], [])
  {
    assert Run([7, 9], [9]) == Pass([0], []) by {
      assert [9][..0] == [];
      assert Run([7, 9], []) == Pass([0, 1], []);
      assert FindIndex([0, 1], [7, 9], 9) == 1;
      assert [0, 1][..1] + [0, 1][2..] == [0];
    }
    assert [9, 7][..1] == [9];
    assert FindIndex([0], [7, 9], 7) == 0;
    assert [0][..0] + [0][1..] == [];
  }
}
