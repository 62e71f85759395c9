/**
 * The peek sub-machine as functions on the state it touches: the peeked
 * window, the workspace to return to, the window stacking order, the active
 * workspace, the target opacity of each window actor and the saved stacking
 * index of a raised window (the marker the source stores on the window).
 * The menu's methods are proved to change their fields exactly as these
 * functions say.
 */
module PeekModel {
  import opened HostTypes
  import opened Sequences
  import opened Stacking

  const FullOpacity: int := 255

  /** Milliseconds between switching workspace and focusing the peeked window. */
  const FocusAfterSwitchDelay: int := 100

  datatype PeekState = PeekState(
    peekedWindow: Option<Window>,
    initialWorkspace: Option<Workspace>,
    stack: seq<Window>,
    activeWorkspace: Workspace,
    opacity: map<Window, int>,
    peekIndex: map<Window, nat>)

  /**
   * The opacity targets of the walk over the window actors, bottom to top:
   * full opacity for the target, `dim` for every other actor.
   */
  function Opacities(current: map<Window, int>, stack: seq<Window>, target: Option<Window>, dim: int): map<Window, int>
    decreases |stack|
  {
    if stack == [] then current
    else
      var w := stack[|stack| - 1];
      Opacities(current, stack[..|stack| - 1], target, dim)[w := if target == Some(w) then FullOpacity else dim]
  }

  /** One more step of the walk is one more map update. */
  lemma OpacitiesStep(current: map<Window, int>, s: seq<Window>, j: nat, target: Option<Window>, dim: int)
    requires j < |s|
    ensures Opacities(current, s[..j + 1], target, dim)
         == Opacities(current, s[..j], target, dim)[s[j] := if target == Some(s[j]) then FullOpacity else dim]
  {
    assert s[..j + 1][..j] == s[..j];
  }

  /** After the walk every actor has its target opacity; windows without an actor keep theirs. */
  lemma {:induction false} OpacitiesTargets(current: map<Window, int>, stack: seq<Window>, target: Option<Window>, dim: int)
    ensures var r := Opacities(current, stack, target, dim);
      && r.Keys == current.Keys + (set w | w in stack)
      && (forall w :: w in stack ==> r[w] == (if target == Some(w) then FullOpacity else dim))
      && (forall w :: w in current && w !in stack ==> r[w] == current[w])
    decreases |stack|
  {
    if stack != [] {
      var init := stack[..|stack| - 1];
      OpacitiesTargets(current, init, target, dim);
      assert stack == init + [stack[|stack| - 1]];
      assert forall x :: x in stack <==> x in init || x == stack[|stack| - 1];
    }
  }

  /** What the walk over the window actors changes: the stacking order, the saved indices, the opacities. */
  datatype Walk = Walk(stack: seq<Window>, index: map<Window, nat>, opacity: map<Window, int>)

  /**
   * The walk over the actors, bottom to top, one actor at a time: the
   * target saves its position in the walk as its stacking index and is
   * raised to the top; every actor gets its target opacity.
   */
  function WalkOver(start: Walk, actors: seq<Window>, target: Option<Window>, dim: int): Walk
    decreases |actors|
  {
    if actors == [] then start
    else Visit(WalkOver(start, actors[..|actors| - 1], target, dim), actors[|actors| - 1], |actors| - 1, target, dim)
  }

  /** The walk's visit of the actor at position j. */
  function Visit(before: Walk, w: Window, j: nat, target: Option<Window>, dim: int): Walk {
    var raised := if target == Some(w) then before.(stack := RaiseToTop(before.stack, w), index := before.index[w := j])
                  else before;
    raised.(opacity := raised.opacity[w := if target == Some(w) then FullOpacity else dim])
  }

  /** Walking one actor further is one more visit. */
  lemma WalkOverStep(start: Walk, actors: seq<Window>, k: nat, target: Option<Window>, dim: int)
    requires k < |actors|
    ensures WalkOver(start, actors[..k + 1], target, dim) == Visit(WalkOver(start, actors[..k], target, dim), actors[k], k, target, dim)
  {
    assert actors[..k + 1][..k] == actors[..k];
  }

  /**
   * Walking a prefix of duplicate-free actors: the target is raised and its
   * index saved once the walk has passed it, and the prefix has its opacities.
   */
  lemma {:induction false} WalkOverPrefix(actors: seq<Window>, index: map<Window, nat>, opacity: map<Window, int>,
                                          target: Option<Window>, dim: int, k: nat)
    requires Distinct(actors) && k <= |actors|
    ensures var at := if target.Some? then IndexOf(actors, target.value) else -1;
      var passed := 0 <= at < k;
      WalkOver(Walk(actors, index, opacity), actors[..k], target, dim)
        == Walk(if passed then RaiseToTop(actors, target.value) else actors,
                if passed then index[target.value := at as nat] else index,
                Opacities(opacity, actors[..k], target, dim))
    decreases k
  {
    if k > 0 {
      var j := k - 1;
      var w := actors[j];
      var start := Walk(actors, index, opacity);
      WalkOverPrefix(actors, index, opacity, target, dim, j);
      WalkOverStep(start, actors, j, target, dim);
      IndexOfDistinct(actors, j);
      if target == Some(w) {
        VisitTarget(WalkOver(start, actors[..j], target, dim), actors, index, opacity, target, dim, j);
      } else {
        VisitOther(WalkOver(start, actors[..j], target, dim), actors, opacity, target, dim, j);
      }
    } else {
      assert actors[..k] == [];
    }
  }

  /** Visiting the target, not raised before: it is raised and its position saved. */
  lemma VisitTarget(before: Walk, actors: seq<Window>, index: map<Window, nat>, opacity: map<Window, int>,
                    target: Option<Window>, dim: int, j: nat)
    requires j < |actors| && target == Some(actors[j])
    requires before == Walk(actors, index, Opacities(opacity, actors[..j], target, dim))
    ensures Visit(before, actors[j], j, target, dim)
         == Walk(RaiseToTop(actors, actors[j]), index[actors[j] := j], Opacities(opacity, actors[..j + 1], target, dim))
  {
    OpacitiesStep(opacity, actors, j, target, dim);
  }

  /** Visiting any other actor only sets its opacity. */
  lemma VisitOther(before: Walk, actors: seq<Window>, opacity: map<Window, int>, target: Option<Window>, dim: int, j: nat)
    requires j < |actors| && target != Some(actors[j])
    requires before.opacity == Opacities(opacity, actors[..j], target, dim)
    ensures Visit(before, actors[j], j, target, dim) == before.(opacity := Opacities(opacity, actors[..j + 1], target, dim))
  {
    OpacitiesStep(opacity, actors, j, target, dim);
  }

  /** The whole walk is the closed form _focusMetaWindow is specified by. */
  lemma WalkOverAll(actors: seq<Window>, index: map<Window, nat>, opacity: map<Window, int>, target: Option<Window>, dim: int)
    requires Distinct(actors)
    ensures var raise := target.Some? && target.value in actors;
      WalkOver(Walk(actors, index, opacity), actors, target, dim)
        == Walk(if raise then RaiseToTop(actors, target.value) else actors,
                if raise then index[target.value := IndexOf(actors, target.value) as nat] else index,
                Opacities(opacity, actors, target, dim))
  {
    WalkOverPrefix(actors, index, opacity, target, dim, |actors|);
    assert actors[..|actors|] == actors;
  }

  /**
   * _focusMetaWindow: suppressed while the overview is visible; otherwise
   * the target becomes the peeked window, its stacking index is saved and it
   * is raised to the top, and every window actor is given its target opacity.
   */
  function Focus(ps: PeekState, dim: int, target: Option<Window>, overview: bool): (r: PeekState)
    ensures overview ==> r == ps
    ensures r.activeWorkspace == ps.activeWorkspace && r.initialWorkspace == ps.initialWorkspace
    ensures |r.stack| == |ps.stack|
    ensures !overview ==> r.peekedWindow == target
    ensures !overview && target.Some? && target.value in ps.stack ==>
      && r.stack[|r.stack| - 1] == target.value
      && target.value in r.peekIndex && r.peekIndex[target.value] < |ps.stack|
      && ps.stack[r.peekIndex[target.value]] == target.value
    ensures !overview ==> forall x :: x in ps.stack ==> x in r.opacity && r.opacity[x] == (if target == Some(x) then FullOpacity else dim)
  {
    if overview then ps
    else
      var raise := target.Some? && target.value in ps.stack;
      OpacitiesTargets(ps.opacity, ps.stack, target, dim);
      ps.(peekedWindow := target,
          stack := if raise then RaiseToTop(ps.stack, target.value) else ps.stack,
          peekIndex := if raise then ps.peekIndex[target.value := IndexOf(ps.stack, target.value) as nat] else ps.peekIndex,
          opacity := Opacities(ps.opacity, ps.stack, target, dim))
  }

  /**
   * _restorePeekedWindowStack: when the peeked window still has an actor and
   * a saved index, move it back to that index and drop the saved index.
   */
  function Restore(ps: PeekState): (r: PeekState)
    ensures r.peekedWindow == ps.peekedWindow && r.initialWorkspace == ps.initialWorkspace
    ensures r.activeWorkspace == ps.activeWorkspace && r.opacity == ps.opacity
    ensures |r.stack| == |ps.stack|
    ensures ps.peekedWindow.Some? && ps.peekedWindow.value in ps.stack && ps.peekedWindow.value in ps.peekIndex ==>
      var w := ps.peekedWindow.value;
      var k := ps.peekIndex[w];
      r.peekIndex == ps.peekIndex - {w} && r.stack[if k < |r.stack| then k else |r.stack| - 1] == w
    ensures !(ps.peekedWindow.Some? && ps.peekedWindow.value in ps.stack && ps.peekedWindow.value in ps.peekIndex) ==> r == ps
  {
    match ps.peekedWindow
    case Some(w) =>
      if w in ps.stack && w in ps.peekIndex then
        ps.(stack := MoveToIndex(ps.stack, w, ps.peekIndex[w]), peekIndex := ps.peekIndex - {w})
      else ps
    case None => ps
  }

  /**
   * _endPeek: nothing happens unless a window is peeked; otherwise its
   * stacking is restored, the initial workspace is re-activated unless
   * `stayHere`, every window goes back to full opacity, and both the peeked
   * window and the initial workspace are cleared.
   */
  function EndPeek(ps: PeekState, stayHere: bool, overview: bool): (r: PeekState)
    ensures r.peekedWindow.None?
    ensures ps.peekedWindow.Some? ==> r.initialWorkspace.None?
    ensures ps.peekedWindow.None? ==> r == ps
    ensures |r.stack| == |ps.stack|
  {
    if ps.peekedWindow.None? then ps
    else Focus(ReturnTo(Restore(ps), stayHere), FullOpacity, None, overview).(peekedWindow := None, initialWorkspace := None)
  }

  /** Back to the session's initial workspace, unless staying here or there is none. */
  function ReturnTo(ps: PeekState, stayHere: bool): PeekState {
    if !stayHere && ps.initialWorkspace.Some? then ps.(activeWorkspace := ps.initialWorkspace.value) else ps
  }

  /** Whether _peek on a window of workspace `ws` must switch workspaces and focus later. */
  predicate PeekSwitches(ps: PeekState, ws: Workspace) {
    ps.activeWorkspace != ws
  }

  /**
   * _peek: restore the previously peeked window's stacking; on another
   * workspace switch to it at once (the focus follows by a timer), otherwise
   * focus now; the first peek of a session remembers where it started.
   */
  function PeekAt(ps: PeekState, w: Window, ws: Workspace, dim: int, overview: bool): (r: PeekState)
    ensures r.activeWorkspace == ws
    ensures r.initialWorkspace == (if ps.initialWorkspace.None? then Some(ps.activeWorkspace) else ps.initialWorkspace)
    ensures r.peekedWindow == (if ps.activeWorkspace == ws && !overview then Some(w) else ps.peekedWindow)
    ensures |r.stack| == |ps.stack|
  {
    var moved := MoveTo(Restore(ps), ps.activeWorkspace, w, ws, dim, overview);
    if ps.initialWorkspace.None? then moved.(initialWorkspace := Some(ps.activeWorkspace)) else moved
  }

  /** The middle of _peek: switch to the window's workspace when it is another one, else focus the window. */
  function MoveTo(ps: PeekState, current: Workspace, w: Window, ws: Workspace, dim: int, overview: bool): (r: PeekState)
    ensures r.activeWorkspace == (if current != ws then ws else ps.activeWorkspace)
    ensures r.initialWorkspace == ps.initialWorkspace
    ensures current != ws ==> r.peekedWindow == ps.peekedWindow && r.stack == ps.stack && r.opacity == ps.opacity
    ensures current == ws && !overview ==> r.peekedWindow == Some(w)
  {
    if current != ws then ps.(activeWorkspace := ws) else Focus(ps, dim, Some(w), overview)
  }

  /** The session invariant: a peeked window implies a workspace to return to; actors are duplicate-free. */
  predicate Consistent(ps: PeekState) {
    (ps.peekedWindow.Some? ==> ps.initialWorkspace.Some?) && Distinct(ps.stack)
  }

  /** While the overview is visible focusing does nothing at all. */
  lemma FocusSuppressedInOverview(ps: PeekState, dim: int, target: Option<Window>)
    ensures Focus(ps, dim, target, true) == ps
  {
  }

  /** Focusing and restoring keep the stacking order a duplicate-free arrangement of the same windows. */
  lemma FocusRestoreKeepWindows(ps: PeekState, dim: int, target: Option<Window>, overview: bool)
    requires Distinct(ps.stack)
    ensures Distinct(Focus(ps, dim, target, overview).stack)
    ensures forall x :: x in Focus(ps, dim, target, overview).stack <==> x in ps.stack
    ensures Distinct(Restore(ps).stack)
    ensures forall x :: x in Restore(ps).stack <==> x in ps.stack
  {
    if target.Some? { RaiseToTopPermutes(ps.stack, target.value); }
    if ps.peekedWindow.Some? && ps.peekedWindow.value in ps.stack {
      MoveToIndexPermutes(ps.stack, ps.peekedWindow.value, if ps.peekedWindow.value in ps.peekIndex then ps.peekIndex[ps.peekedWindow.value] else 0);
    }
  }

  /**
   * Raise-then-restore: focusing a window and then restoring its stacking,
   * with no other change to the stack in between, gives back the original
   * stacking order and removes the saved index.
   */
  lemma FocusThenRestore(ps: PeekState, dim: int, w: Window)
    requires Distinct(ps.stack) && w in ps.stack
    ensures Restore(Focus(ps, dim, Some(w), false)).stack == ps.stack
    ensures Restore(Focus(ps, dim, Some(w), false)).peekIndex == ps.peekIndex - {w}
  {
    RestoreAfterRaise(ps.stack, w);
    RaiseToTopPermutes(ps.stack, w);
  }

  /**
   * Ending a session clears both the peeked window and the initial
   * workspace; it stays on the current workspace iff asked to (or there is
   * nothing to return to) and gives every window actor full opacity.
   */
  lemma EndPeekClears(ps: PeekState, stayHere: bool)
    requires ps.peekedWindow.Some?
    ensures var r := EndPeek(ps, stayHere, false);
      r.peekedWindow.None? && r.initialWorkspace.None? &&
      (stayHere || ps.initialWorkspace.None? ==> r.activeWorkspace == ps.activeWorkspace) &&
      (!stayHere && ps.initialWorkspace.Some? ==> r.activeWorkspace == ps.initialWorkspace.value) &&
      (forall x :: x in r.stack ==> x in r.opacity && r.opacity[x] == FullOpacity)
  {
    var q := ReturnTo(Restore(ps), stayHere);
    OpacitiesTargets(q.opacity, q.stack, None, FullOpacity);
  }

  /** After ending a peek no window is peeked, whatever the overview does. */
  lemma EndPeekEnds(ps: PeekState, stayHere: bool, overview: bool)
    ensures EndPeek(ps, stayHere, overview).peekedWindow.None?
  {
  }

  /** Without a peeked window, ending a peek changes nothing (even a pending initial workspace stays). */
  lemma EndPeekIdle(ps: PeekState, stayHere: bool, overview: bool)
    requires ps.peekedWindow.None?
    ensures EndPeek(ps, stayHere, overview) == ps
  {
  }

  /**
   * The peek round trip: from workspace `a`, peek at a window on workspace
   * `b` (switch at once, focus after the delay), then end the session. Both
   * ways restore the stacking order and full opacity; ending "here" stays on
   * `b`, the full end returns to `a`.
   */
  lemma PeekRoundTrip(ps: PeekState, w: Window, a: Workspace, b: Workspace, dim: int)
    requires ps.peekedWindow.None? && ps.initialWorkspace.None?
    requires Distinct(ps.stack) && w in ps.stack
    requires ps.activeWorkspace == a && a != b
    ensures var started := PeekAt(ps, w, b, dim, false);
      PeekSwitches(ps, b) && started.activeWorkspace == b && started.initialWorkspace == Some(a)
      && started.stack == ps.stack
    ensures var focused := Focus(PeekAt(ps, w, b, dim, false), dim, Some(w), false);
      var here := EndPeek(focused, true, false);
      here.stack == ps.stack && here.activeWorkspace == b && here.peekIndex == ps.peekIndex - {w} &&
      here.peekedWindow.None? && here.initialWorkspace.None? &&
      forall x :: x in ps.stack ==> x in here.opacity && here.opacity[x] == FullOpacity
    ensures var focused := Focus(PeekAt(ps, w, b, dim, false), dim, Some(w), false);
      var back := EndPeek(focused, false, false);
      back.stack == ps.stack && back.activeWorkspace == a && back.peekIndex == ps.peekIndex - {w} &&
      forall x :: x in ps.stack ==> x in back.opacity && back.opacity[x] == FullOpacity
  {
    PeekStartsSession(ps, w, b, dim);
    var started := PeekAt(ps, w, b, dim, false);
    FocusThenRestore(started, dim, w);
    var focused := Focus(started, dim, Some(w), false);
    EndPeekRestores(focused, true);
    EndPeekRestores(focused, false);
    EndPeekClears(focused, true);
    EndPeekClears(focused, false);
  }

  /** The first peek of a session at a window on another workspace only switches there and remembers where it started. */
  lemma PeekStartsSession(ps: PeekState, w: Window, b: Workspace, dim: int)
    requires ps.peekedWindow.None? && ps.initialWorkspace.None? && ps.activeWorkspace != b
    ensures PeekAt(ps, w, b, dim, false) == ps.(activeWorkspace := b, initialWorkspace := Some(ps.activeWorkspace))
  {
    assert Restore(ps) == ps;
  }

  /** Ending a session leaves the stacking order and the saved indices as restoring the peeked window leaves them. */
  lemma EndPeekRestores(ps: PeekState, stayHere: bool)
    requires ps.peekedWindow.Some?
    ensures EndPeek(ps, stayHere, false).stack == Restore(ps).stack
    ensures EndPeek(ps, stayHere, false).peekIndex == Restore(ps).peekIndex
  {
  }
}
