/**
 * The window-preview popup of the taskbar: a PreviewMenu owning an ordered
 * row (or column) of Preview thumbnails, one per window of the hovered
 * launcher icon, with debounced open and close, focus cycling and peeking.
 *
 * Host objects are abstract: windows, workspaces and icons are identities,
 * what the host would be asked about a window is the `host` value, and what
 * the menu asks the host to do is either a field the model keeps (stacking
 * order, active workspace, actor opacities) or an entry in `hostRequests`.
 * Animations are reduced to their target values plus explicit completion
 * steps (CloseAnimationFinished, AnimateOutFinished); a timer firing is the
 * explicit step FireTimer.
 */
module WindowPreview {
  import opened HostTypes
  import opened Sequences
  import opened Timers
  import opened Geometry
  import opened PeekModel
  import opened Stacking
  import Reconcile

  type PreviewId = nat

  /** The settings the core reads. */
  datatype Settings = Settings(
    panelSize: nat,
    previewSize: nat,
    previewPadding: nat,
    showTitle: bool,
    showPreviewsTimeout: int,
    leaveTimeout: int,
    enterPeekModeTimeout: int,
    peekMode: bool,
    peekModeOpacity: int,
    middleClickClose: bool,
    groupApps: bool)

  /** The panel's screen edge, its monitor's bounds and the scale factor. */
  datatype Display = Display(side: Side, monitor: Rect, scaleFactor: nat)

  /**
   * What the host answers: a window's workspace and the size of its actor,
   * an icon's windows (its single window, or its interesting windows, already
   * in taskbar order) and the geometry of the icon's actor.
   */
  datatype Host = Host(
    workspaceOf: Window -> Workspace,
    actorSize: Window -> Size,
    iconWindows: Icon -> seq<Window>,
    iconBox: Icon -> IconBox)

  /** What a pending timer will do when it fires. */
  datatype Action =
    | OpenMenu(icon: Icon)
    | CloseMenu
    | PeekWindow(window: Window)
    | FocusWindow(dim: int, window: Window)

  /**
   * A Preview's own state: the window it shows, its thumbnail size, whether
   * it is animating out, whether it still reacts to input, whether it carries
   * the focus highlight and whether its close button is (being) shown.
   */
  datatype Preview = Preview(
    window: Window,
    animatingOut: bool,
    reactive: bool,
    focused: bool,
    closeButtonShown: bool)

  /** Requests the menu hands to the host and does not follow further. */
  datatype HostRequest = ActivateWindow(window: Window) | DeleteWindow(window: Window)

  /** Consecutive fresh preview ids. */
  function Range(base: nat, k: nat): (r: seq<nat>)
    ensures |r| == k && forall j :: 0 <= j < k ==> r[j] == base + j
  {
    seq(k, (j: int) requires 0 <= j < k => (base + j) as nat)
  }

  /** The ids from base up to (not including) top. */
  function Fresh(base: nat, top: nat): (r: set<nat>)
    ensures forall j :: j in r <==> base <= j < top
  {
    var ids := Range(base, if top >= base then top - base else 0);
    assert forall j: nat :: base <= j < top ==> j in ids by {
      forall j: nat | base <= j < top ensures j in ids { assert ids[j - base] == j; }
    }
    set j | j in ids
  }

  /** The id that the loop of _mergeWindows gives the window at position j, past the n previews there were, when the next id was base. */
  function NewId(base: nat, n: nat, j: nat): nat {
    if j >= n then base + (j - n) else base
  }

  lemma RangeSnoc(base: nat, k: nat)
    ensures Range(base, k + 1) == Range(base, k) + [base + k]
  {
  }

  lemma FreshSnoc(base: nat, top: nat)
    requires base <= top
    ensures Fresh(base, top + 1) == Fresh(base, top) + {top}
  {
  }

  /** setFocus's visible part on one preview of a pool: the highlight, and the close button shown iff focused. */
  function WithFocus(pool: map<PreviewId, Preview>, id: PreviewId, focused: bool): (r: map<PreviewId, Preview>)
    requires id in pool
    ensures r.Keys == pool.Keys
    ensures r[id].focused == focused && r[id].closeButtonShown == focused
    ensures r[id].window == pool[id].window && r[id].animatingOut == pool[id].animatingOut && r[id].reactive == pool[id].reactive
    ensures forall k :: k in pool && k != id ==> r[k] == pool[k]
  {
    pool[id := pool[id].(focused := focused, closeButtonShown := focused)]
  }

  /** _removeFocus on a pool: the focused preview, if there is one, loses its highlight. */
  function Unfocused(pool: map<PreviewId, Preview>, f: Option<PreviewId>): (r: map<PreviewId, Preview>)
    ensures r.Keys == pool.Keys
    ensures f.Some? && f.value in pool ==> r == WithFocus(pool, f.value, false)
    ensures f.None? || f.value !in pool ==> r == pool
  {
    if f.Some? && f.value in pool then WithFocus(pool, f.value, false) else pool
  }

  /** The given previews stop reacting to input; every other preview is unchanged. */
  function Unreactive(pool: map<PreviewId, Preview>, ids: seq<PreviewId>): (r: map<PreviewId, Preview>)
    ensures r.Keys == pool.Keys
    ensures forall k :: k in pool && k in ids ==> r[k] == pool[k].(reactive := false)
    ensures forall k :: k in pool && k !in ids ==> r[k] == pool[k]
  {
    map k | k in pool :: if k in ids then pool[k].(reactive := false) else pool[k]
  }

  class PreviewMenu {
    const settings: Settings
    const display: Display
    const host: Host

    var currentAppIcon: Option<Icon>
    var isOpened: bool
    var focusedPreview: Option<PreviewId>
    var timers: Table<Action>

    /** Every Preview ever created by this menu; destroyed ones stay, as weak references may still point at them. */
    var previews: map<PreviewId, Preview>
    /** The box's children, in order. */
    var children: seq<PreviewId>
    var nextId: PreviewId

    // targets of the popup actor
    var menuVisible: bool
    var menuReactive: bool
    var menuOpacity: int
    var menuTranslation: int
    var menuPosition: Point
    /** The band the popup actor is clipped to and placed on (_updateClip). */
    var clip: Rect
    /** A close animation was started and its completion (the hidden-state reset) is still due. */
    var closeAnimationPending: bool

    /**
     * The peek session (the peeked window and the workspace to return to)
     * together with the host state a peek changes: the window stacking order,
     * the active workspace, the actors' opacities and the saved stacking indices.
     */
    var peek: PeekState
    var overviewVisible: bool

    var hostRequests: seq<HostRequest>

    function LeftOrRight(): bool { IsLeftOrRight(display.side) }
    function Scale(): real { display.scaleFactor as real }
    function Padding(): real { settings.previewPadding as real * Scale() }
    function Dimensions(): Size { PreviewDimensions(settings.previewSize as real * Scale(), LeftOrRight()) }
    function Bin(): Size { BinSize(Dimensions(), Padding(), LeftOrRight()) }
    function Offset(): int { TranslationOffset(settings.panelSize, display.side) }
    function Header(): real { HeaderHeight(settings.showTitle, Scale()) }
    /** _updateClip for this menu's settings and display. */
    function Clip(): Rect {
      ClipRect(display.side, display.monitor, settings.panelSize as real, settings.previewSize as real,
               settings.previewPadding as real, Scale(), Header())
    }

    /** Window actors never have a negative size. */
    ghost predicate HostSane() {
      forall w: Window :: host.actorSize(w).width >= 0.0 && host.actorSize(w).height >= 0.0
    }

    /** _resizeClone for a window's actor, within this menu's preview box. */
    function CloneFor(w: Window): CloneSize
      requires HostSane()
    {
      var s := host.actorSize(w);
      ResizeClone(s.width, s.height, Dimensions().width, Dimensions().height)
    }

    /** A Preview as _addNewPreview leaves it: assigned its window, close button still transparent. */
    static function NewPreview(w: Window): Preview {
      Preview(w, false, true, false, false)
    }

    /** Positional reuse: a preview keeps its state when it already shows w, else assignWindow rebinds it. */
    static function Reassigned(p: Preview, w: Window): Preview {
      if p.window == w then p else p.(window := w)
    }

    /** Every child is a preview of the pool. */
    static predicate ChildrenKnown(children: seq<PreviewId>, previews: map<PreviewId, Preview>) {
      forall i :: 0 <= i < |children| ==> children[i] in previews
    }

    /** The windows the children show, in child order. */
    function ChildWindows(): (r: seq<Window>)
      reads this`children, this`previews
      requires ChildrenKnown(children, previews)
      ensures |r| == |children| && forall i :: 0 <= i < |children| ==> r[i] == previews[children[i]].window
    {
      WindowsOf(children, previews)
    }

    /** The windows the previews C of a pool show, in order. */
    static function WindowsOf(C: seq<PreviewId>, pool: map<PreviewId, Preview>): (r: seq<Window>)
      requires ChildrenKnown(C, pool)
      ensures |r| == |C| && forall i :: 0 <= i < |C| ==> r[i] == pool[C[i]].window
    {
      seq(|C|, (i: int) requires 0 <= i < |C| && C[i] in pool => pool[C[i]].window)
    }

    /** The children that are not animating out show pairwise different windows. */
    static predicate LiveDistinct(children: seq<PreviewId>, previews: map<PreviewId, Preview>) {
      && ChildrenKnown(children, previews)
      && forall i, j :: 0 <= i < j < |children| && !previews[children[i]].animatingOut && !previews[children[j]].animatingOut
           ==> previews[children[i]].window != previews[children[j]].window
    }

    /** How the extent computation sees the children. */
    function Slots(): (r: seq<Slot>)
      reads this`children, this`previews
      requires HostSane() && ChildrenKnown(children, previews)
      ensures |r| == |children|
      ensures forall i :: 0 <= i < |children| ==>
        r[i] == Slot(PreviewSize(Bin(), CloneFor(previews[children[i]].window), Padding()), previews[children[i]].animatingOut)
    {
      var c, pool := children, previews;
      seq(|c|, (i: int) requires 0 <= i < |c| && c[i] in pool =>
        Slot(PreviewSize(Bin(), CloneFor(pool[c[i]].window), Padding()), pool[c[i]].animatingOut))
    }

    /** The pool invariant: children are known, duplicate-free previews, and ids are handed out in order. */
    static ghost predicate PoolValid(children: seq<PreviewId>, previews: map<PreviewId, Preview>, nextId: nat) {
      && ChildrenKnown(children, previews)
      && Distinct(children)
      && (forall id :: id in previews ==> id < nextId)
    }

    /** The menu invariant. */
    ghost predicate Valid()
      reads this`children, this`previews, this`nextId, this`focusedPreview, this`timers, this`isOpened, this`menuVisible,
            this`peek
    {
      && HostSane()
      && PoolValid(children, previews, nextId)
      && FocusKnown(focusedPreview, previews)
      && PeekValid(peek, timers)
      && Shown(isOpened, menuVisible)
    }

    /** An open menu is shown: open shows the popup before it marks the menu opened, the hidden-state reset clears both. */
    static predicate Shown(isOpened: bool, menuVisible: bool) {
      isOpened ==> menuVisible
    }

    /** The peek session and the timers are consistent. */
    static ghost predicate PeekValid(ps: PeekState, timers: Table<Action>) {
      Consistent(ps) && TimersWellKept(timers, ps.initialWorkspace)
    }

    /** The focused preview, if any, is one of this menu's. */
    static predicate FocusKnown(focusedPreview: Option<PreviewId>, previews: map<PreviewId, Preview>) {
      focusedPreview.Some? ==> focusedPreview.value in previews
    }

    /** Each timer name carries its own kind of callback; a pending focus belongs to a running peek session. */
    static predicate TimersWellKept(timers: Table<Action>, peekInitialWorkspace: Option<Workspace>) {
      && (OpenMenuTimeout in timers ==> timers[OpenMenuTimeout].action.OpenMenu?)
      && (CloseMenuTimeout in timers ==> timers[CloseMenuTimeout].action.CloseMenu?)
      && (PeekTimeout in timers ==> !timers[PeekTimeout].action.OpenMenu? && !timers[PeekTimeout].action.CloseMenu?)
      && (PeekTimeout in timers && timers[PeekTimeout].action.FocusWindow? ==> peekInitialWorkspace.Some?)
    }

    /**
     * _init followed by enable: nothing open, no timers, the popup hidden,
     * transparent and translated off its edge (_resetHiddenState), at (1, 1),
     * and clipped to the band along the panel (_updateClip).
     */
    constructor (settings: Settings, display: Display, host: Host, stack: seq<Window>,
                 activeWorkspace: Workspace, overviewVisible: bool)
      requires forall w: Window :: host.actorSize(w).width >= 0.0 && host.actorSize(w).height >= 0.0
      requires Distinct(stack)
      ensures Valid()
      ensures this.settings == settings && this.display == display && this.host == host
      ensures peek == PeekState(None, None, stack, activeWorkspace, map[], map[]) && this.overviewVisible == overviewVisible
      ensures currentAppIcon.None? && !isOpened && focusedPreview.None?
      ensures timers == map[]
      ensures children == [] && previews == map[] && hostRequests == []
      ensures !menuVisible && menuOpacity == 0 && menuTranslation == Offset() && !closeAnimationPending
      ensures menuPosition == Point(1.0, 1.0)
      ensures clip == Clip()
    {
      this.settings := settings;
      this.display := display;
      this.host := host;
      peek := PeekState(None, None, stack, activeWorkspace, map[], map[]);
      this.overviewVisible := overviewVisible;
      currentAppIcon := None;
      isOpened := false;
      focusedPreview := None;
      timers := map[];
      previews := map[];
      children := [];
      nextId := 0;
      menuVisible := false;
      menuReactive := true;
      menuOpacity := 0;
      menuTranslation := TranslationOffset(settings.panelSize, display.side);
      menuPosition := Point(1.0, 1.0);
      clip := ClipRect(display.side, display.monitor, settings.panelSize as real, settings.previewSize as real,
                       settings.previewPadding as real, display.scaleFactor as real,
                       HeaderHeight(settings.showTitle, display.scaleFactor as real));
      closeAnimationPending := false;
      hostRequests := [];
    }

    // ---------------------------------------------------------------- timers

    /** requestOpen: cancel a pending open or close, then schedule the open. */
    method RequestOpen(icon: Icon)
      requires PeekValid(peek, timers)
      modifies this`timers
      ensures PeekValid(peek, timers)
      ensures timers == Add(EndOpenClose(old(timers)), OpenMenuTimeout, settings.showPreviewsTimeout, OpenMenu(icon))
    {
      EndOpenCloseTimeouts();
      timers := Add(timers, OpenMenuTimeout, settings.showPreviewsTimeout, OpenMenu(icon));
    }

    /** requestClose: cancel a pending open or close, then schedule the close. */
    method RequestClose()
      requires PeekValid(peek, timers)
      modifies this`timers
      ensures PeekValid(peek, timers)
      ensures timers == Add(EndOpenClose(old(timers)), CloseMenuTimeout, settings.leaveTimeout, CloseMenu)
    {
      EndOpenCloseTimeouts();
      AddCloseTimeout();
    }

    method AddCloseTimeout()
      requires PeekValid(peek, timers)
      modifies this`timers
      ensures PeekValid(peek, timers)
      ensures timers == Add(old(timers), CloseMenuTimeout, settings.leaveTimeout, CloseMenu)
    {
      timers := Add(timers, CloseMenuTimeout, settings.leaveTimeout, CloseMenu);
    }

    method EndOpenCloseTimeouts()
      requires PeekValid(peek, timers)
      modifies this`timers
      ensures PeekValid(peek, timers)
      ensures timers == EndOpenClose(old(timers))
    {
      timers := Remove(timers, OpenMenuTimeout);
      timers := Remove(timers, CloseMenuTimeout);
    }

    // ------------------------------------------------------------------ peek

    /** _switchToWorkspaceImmediate: activate a workspace (without its animation). */
    method SwitchToWorkspaceImmediate(ws: Workspace)
      modifies this`peek
      ensures peek == old(peek).(activeWorkspace := ws)
    {
      peek := peek.(activeWorkspace := ws);
    }

    /**
     * _focusMetaWindow: unless the overview is visible, remember the target
     * as peeked, and walking the window actors bottom to top, save the
     * target's stacking index and raise it, giving every actor its opacity.
     */
    method FocusMetaWindow(dim: int, target: Option<Window>)
      requires Distinct(peek.stack)
      modifies this`peek
      ensures peek == Focus(old(peek), dim, target, overviewVisible)
      ensures Distinct(peek.stack)
    {
      FocusRestoreKeepWindows(peek, dim, target, overviewVisible);
      if overviewVisible {
        FocusSuppressedInOverview(peek, dim, target);
        return;
      }
      peek := peek.(peekedWindow := target);
      DimAndRaise(dim, target);
    }

    /** The walk over the window actors inside _focusMetaWindow. */
    method DimAndRaise(dim: int, target: Option<Window>)
      requires Distinct(peek.stack)
      modifies this`peek
      ensures var raise := target.Some? && target.value in old(peek.stack);
        peek == old(peek).(
          stack := if raise then RaiseToTop(old(peek.stack), target.value) else old(peek.stack),
          peekIndex := if raise then old(peek.peekIndex)[target.value := IndexOf(old(peek.stack), target.value) as nat]
                       else old(peek.peekIndex),
          opacity := Opacities(old(peek.opacity), old(peek.stack), target, dim))
    {
      var actors: seq<Window>, stack: seq<Window> := peek.stack, peek.stack;
      var index: map<Window, nat>, opacity: map<Window, int> := peek.peekIndex, peek.opacity;
      ghost var start := Walk(stack, index, opacity);
      var j := 0;
      while j < |actors|
        modifies {}
        invariant 0 <= j <= |actors|
        invariant Walk(stack, index, opacity) == WalkOver(start, actors[..j], target, dim)
      {
        var w := actors[j];
        var isFocused := target == Some(w);
        WalkOverStep(start, actors, j, target, dim);
        if isFocused {
          // the walk is bottom to top and nothing has been raised yet, so w's index is j
          index := index[w := j];
          stack := RaiseToTop(stack, w);
        }
        opacity := opacity[w := if isFocused then FullOpacity else dim];
        j := j + 1;
      }
      assert actors[..j] == actors;
      WalkOverAll(actors, old(peek.peekIndex), old(peek.opacity), target, dim);
      peek := peek.(stack := stack, peekIndex := index, opacity := opacity);
    }

    /** _restorePeekedWindowStack: put the peeked window back at its saved stacking index. */
    method RestorePeekedWindowStack()
      requires Distinct(peek.stack)
      modifies this`peek
      ensures peek == Restore(old(peek))
      ensures Distinct(peek.stack)
    {
      FocusRestoreKeepWindows(peek, 0, None, true);
      if peek.peekedWindow.Some? && peek.peekedWindow.value in peek.stack {
        var w := peek.peekedWindow.value;
        if w in peek.peekIndex {
          peek := peek.(stack := MoveToIndex(peek.stack, w, peek.peekIndex[w]));
          peek := peek.(peekIndex := peek.peekIndex - {w});
        }
      }
    }

    /**
     * _endPeek: cancel the pending peek; if a window is peeked, restore its
     * stacking, return to the initial workspace unless `stayHere`, undim
     * every window and end the session.
     */
    method EndPeek(stayHere: bool)
      requires PeekValid(peek, timers)
      modifies this`timers, this`peek
      ensures PeekValid(peek, timers)
      ensures timers == Remove(old(timers), PeekTimeout)
      ensures peek == PeekModel.EndPeek(old(peek), stayHere, overviewVisible)
    {
      timers := Remove(timers, PeekTimeout);
      if peek.peekedWindow.Some? {
        EndSession(stayHere);
      }
    }

    /** The body of _endPeek when a window is peeked. */
    method EndSession(stayHere: bool)
      requires Distinct(peek.stack) && peek.initialWorkspace.Some?
      modifies this`peek
      ensures peek == Focus(ReturnTo(Restore(old(peek)), stayHere), FullOpacity, None, overviewVisible)
                              .(peekedWindow := None, initialWorkspace := None)
      ensures Distinct(peek.stack)
    {
      ghost var ps := peek;
      RestorePeekedWindowStack();
      ghost var restored := peek;
      if !stayHere {
        SwitchToWorkspaceImmediate(peek.initialWorkspace.value);
      }
      assert peek == ReturnTo(restored, stayHere);
      FocusMetaWindow(FullOpacity, None);
      peek := peek.(peekedWindow := None, initialWorkspace := None);
    }

    /** endPeekHere: end the session but stay on the peeked window's workspace. */
    method EndPeekHere()
      requires PeekValid(peek, timers)
      modifies this`timers, this`peek
      ensures PeekValid(peek, timers)
      ensures timers == Remove(old(timers), PeekTimeout)
      ensures peek == PeekModel.EndPeek(old(peek), true, overviewVisible)
    {
      EndPeek(true);
    }

    /**
     * _peek: restore the previous peeked stacking; on another workspace switch
     * there now and focus the window 100 ms later by the peek timer, else focus
     * it now; the session's first peek remembers the workspace it started on.
     */
    method Peek(window: Window)
      requires PeekValid(peek, timers)
      modifies this`timers, this`peek
      ensures PeekValid(peek, timers)
      ensures peek == PeekAt(old(peek), window, host.workspaceOf(window), settings.peekModeOpacity, overviewVisible)
      ensures timers == if PeekSwitches(old(peek), host.workspaceOf(window))
                        then Add(old(timers), PeekTimeout, FocusAfterSwitchDelay, FocusWindow(settings.peekModeOpacity, window))
                        else old(timers)
    {
      var currentWorkspace := peek.activeWorkspace;
      var windowWorkspace := host.workspaceOf(window);
      ghost var ps := peek;
      RestorePeekedWindowStack();
      ghost var restored := peek;
      if currentWorkspace != windowWorkspace {
        SwitchToWorkspaceImmediate(windowWorkspace);
        timers := Add(timers, PeekTimeout, FocusAfterSwitchDelay, FocusWindow(settings.peekModeOpacity, window));
      } else {
        FocusMetaWindow(settings.peekModeOpacity, Some(window));
      }
      assert peek == MoveTo(restored, currentWorkspace, window, windowWorkspace, settings.peekModeOpacity, overviewVisible);
      if peek.initialWorkspace.None? {
        peek := peek.(initialWorkspace := Some(currentWorkspace));
      }
    }

    /** The effect of requestPeek(w), `t0` and `ps0` being the timers and the peek state before it. */
    ghost predicate PeekRequested(t0: Table<Action>, ps0: PeekState, w: Window)
      reads this`timers, this`peek, this`overviewVisible
    {
      if !settings.peekMode then
        timers == Remove(t0, PeekTimeout) && peek == ps0
      else if ps0.initialWorkspace.None? then
        timers == Add(Remove(t0, PeekTimeout), PeekTimeout, settings.enterPeekModeTimeout, PeekWindow(w))
        && peek == ps0
      else
        peek == PeekAt(ps0, w, host.workspaceOf(w), settings.peekModeOpacity, overviewVisible)
        && timers == if PeekSwitches(ps0, host.workspaceOf(w))
                     then Add(Remove(t0, PeekTimeout), PeekTimeout, FocusAfterSwitchDelay,
                              FocusWindow(settings.peekModeOpacity, w))
                     else Remove(t0, PeekTimeout)
    }

    /**
     * requestPeek: always cancel the pending peek first; with peek mode off
     * nothing else happens; outside a session schedule the peek after the
     * enter delay, inside one re-target at once.
     */
    method RequestPeek(window: Window)
      requires PeekValid(peek, timers)
      modifies this`timers, this`peek
      ensures PeekValid(peek, timers)
      ensures PeekRequested(old(timers), old(peek), window)
    {
      timers := Remove(timers, PeekTimeout);
      if settings.peekMode {
        if peek.initialWorkspace.None? {
          timers := Add(timers, PeekTimeout, settings.enterPeekModeTimeout, PeekWindow(window));
        } else {
          Peek(window);
        }
      }
    }

    // -------------------------------------------------------- the preview pool

    /** _addNewPreview: a fresh Preview, appended to the box and assigned its window. */
    method AddNewPreview(w: Window)
      requires PoolValid(children, previews, nextId)
      modifies this`previews, this`children, this`nextId
      ensures PoolValid(children, previews, nextId)
      ensures previews == old(previews)[old(nextId) := NewPreview(w)]
      ensures children == old(children) + [old(nextId)] && nextId == old(nextId) + 1
    {
      var id := nextId;
      assert id !in children;
      previews := previews[id := NewPreview(w)];
      children := children + [id];
      nextId := nextId + 1;
    }

    /** assignWindow: rebind a preview to another window (its clone is the one CloneFor sizes for that window). */
    method AssignWindow(id: PreviewId, w: Window)
      requires PoolValid(children, previews, nextId) && id in previews
      modifies this`previews
      ensures PoolValid(children, previews, nextId)
      ensures previews == old(previews)[id := old(previews)[id].(window := w)]
    {
      previews := previews[id := previews[id].(window := w)];
    }

    /** animateOut: mark the preview as leaving; AnimateOutFinished destroys it later. */
    method AnimateOut(id: PreviewId)
      requires PoolValid(children, previews, nextId) && id in previews
      modifies this`previews
      ensures PoolValid(children, previews, nextId)
      ensures previews == old(previews)[id := old(previews)[id].(animatingOut := true)]
    {
      previews := previews[id := previews[id].(animatingOut := true)];
    }

    /** destroy: the preview leaves the box, every other child keeps its place. */
    method DestroyPreview(id: PreviewId)
      requires PoolValid(children, previews, nextId)
      modifies this`children
      ensures PoolValid(children, previews, nextId)
      ensures children == Without(old(children), id)
      ensures forall x :: x in children <==> x in old(children) && x != id
    {
      WithoutDistinct(children, id);
      children := Without(children, id);
    }

    /** The effect of _mergeWindows(windows) on the pool, relative to the state before it. */
    twostate predicate Merged(windows: seq<Window>, wasOpened: bool)
      reads this`children, this`previews, this`nextId
    {
      MergedFrom(old(children), old(previews), old(nextId), windows, wasOpened)
    }

    /** The pool after merging `windows` into the children C of the pool `pool` whose next id was `base`. */
    ghost predicate MergedFrom(C: seq<PreviewId>, pool: map<PreviewId, Preview>, base: nat, windows: seq<Window>, wasOpened: bool)
      reads this`children, this`previews, this`nextId
    {
      MergedState(children, previews, nextId, C, pool, base, windows, wasOpened)
    }

    /** MergedFrom over explicit values of the children, the pool and the next id. */
    static ghost predicate MergedState(children: seq<PreviewId>, previews: map<PreviewId, Preview>, nextId: nat,
                                       C: seq<PreviewId>, pool: map<PreviewId, Preview>, base: nat, windows: seq<Window>, wasOpened: bool)
    {
      var n := |C|;
      var m := |windows|;
      && nextId == base + (if m > n then m - n else 0)
      && previews.Keys == pool.Keys + Fresh(base, nextId)
      && children == (if m >= n then C + Range(base, m - n) else if wasOpened then C else C[..m])
      && (forall id :: id in pool && id !in C ==> id in previews && previews[id] == pool[id])
      && (forall i :: 0 <= i < n && i < m && C[i] in pool ==>
            C[i] in previews && previews[C[i]] == Reassigned(pool[C[i]], windows[i]))
      && (forall i :: m <= i < n && C[i] in pool ==>
            C[i] in previews
            && previews[C[i]] == (if wasOpened then pool[C[i]].(animatingOut := true) else pool[C[i]]))
      && (forall j :: n <= j < m ==> NewId(base, n, j) in previews && previews[NewId(base, n, j)] == NewPreview(windows[j]))
    }

    /**
     * _mergeWindows: positional reuse. The i-th preview is rebound to the
     * i-th window when it shows another one, missing previews are appended,
     * and surplus previews are destroyed while the menu is closed and
     * animated out while it is open.
     */
    method MergeWindows(windows: seq<Window>)
      requires PoolValid(children, previews, nextId)
      modifies this`previews, this`children, this`nextId
      ensures PoolValid(children, previews, nextId)
      ensures Merged(windows, isOpened)
      ensures old(previews).Keys <= previews.Keys
      ensures !isOpened ==> ChildWindows() == windows
      ensures Distinct(windows) ==> LiveDistinct(children, previews)
    {
      var C := children;
      ghost var pool := previews;
      ghost var base := nextId;
      MergeStart(C, windows, pool, base, isOpened);
      MergeAll(C, windows, pool, base, isOpened);
      MergeFinished(children, previews, nextId, C, windows, pool, base, isOpened);
      if !isOpened {
        MergeShowsWindows(children, previews, nextId, C, windows, pool, base);
      }
      if Distinct(windows) {
        MergeLiveDistinct(children, previews, nextId, C, windows, pool, base, isOpened);
      }
    }

    /**
     * After a merge with a duplicate-free list, the children not animating
     * out show pairwise different windows: each child either shows the window
     * at its own position of the list or is animating out.
     */
    static lemma MergeLiveDistinct(children: seq<PreviewId>, previews: map<PreviewId, Preview>, nextId: nat,
                                   C: seq<PreviewId>, windows: seq<Window>, pool: map<PreviewId, Preview>, base: nat, wasOpened: bool)
      requires MergedState(children, previews, nextId, C, pool, base, windows, wasOpened)
      requires forall k :: 0 <= k < |C| ==> C[k] in pool
      requires Distinct(windows)
      ensures LiveDistinct(children, previews)
    {
      var n := |C|;
      var m := |windows|;
      forall k | 0 <= k < |children|
        ensures children[k] in previews
        ensures previews[children[k]].animatingOut || (k < m && previews[children[k]].window == windows[k])
      {
        if k >= n {
          assert children[k] == NewId(base, n, k);
        } else {
          assert children[k] == C[k] && C[k] in pool;
        }
      }
    }

    /** The loop of _mergeWindows, over as many positions as there are previews or windows. */
    method MergeAll(C: seq<PreviewId>, windows: seq<Window>, ghost pool: map<PreviewId, Preview>, ghost base: nat, wasOpened: bool)
      requires MergeInv(children, previews, nextId, C, windows, pool, base, 0, wasOpened)
      modifies this`previews, this`children, this`nextId
      ensures MergeInv(children, previews, nextId, C, windows, pool, base, if |windows| > |C| then |windows| else |C|, wasOpened)
    {
      var l := if |windows| > |C| then |windows| else |C|;
      var i := 0;
      while i < l
        invariant 0 <= i <= l
        invariant MergeInv(children, previews, nextId, C, windows, pool, base, i, wasOpened)
      {
        MergeStep(C, windows, pool, base, i, wasOpened);
        i := i + 1;
      }
    }

    lemma MergeStart(C: seq<PreviewId>, windows: seq<Window>, pool: map<PreviewId, Preview>, base: nat, wasOpened: bool)
      requires PoolValid(children, previews, nextId) && pool == previews && base == nextId && C == children
      ensures MergeInv(children, previews, nextId, C, windows, pool, base, 0, wasOpened)
    {
      assert Fresh(base, nextId) == {};
    }

    /** After the last iteration the loop's state is the merged pool. */
    static lemma MergeFinished(children: seq<PreviewId>, previews: map<PreviewId, Preview>, nextId: nat,
                               C: seq<PreviewId>, windows: seq<Window>, pool: map<PreviewId, Preview>, base: nat, wasOpened: bool)
      requires MergeInv(children, previews, nextId, C, windows, pool, base, if |windows| > |C| then |windows| else |C|, wasOpened)
      ensures MergedState(children, previews, nextId, C, pool, base, windows, wasOpened)
    {
      if |windows| < |C| && !wasOpened {
        assert C[|C|..] == [];
      }
    }

    /** A merge while the menu is closed leaves one child per window, showing it, in order. */
    static lemma MergeShowsWindows(children: seq<PreviewId>, previews: map<PreviewId, Preview>, nextId: nat,
                                   C: seq<PreviewId>, windows: seq<Window>, pool: map<PreviewId, Preview>, base: nat)
      requires MergedState(children, previews, nextId, C, pool, base, windows, false)
      requires forall k :: 0 <= k < |C| ==> C[k] in pool
      ensures |children| == |windows|
      ensures forall k :: 0 <= k < |windows| ==> children[k] in previews && previews[children[k]].window == windows[k]
    {
      var n := |C|;
      forall k | 0 <= k < |windows| ensures children[k] in previews && previews[children[k]].window == windows[k] {
        if k >= n {
          assert children[k] == NewId(base, n, k);
        } else {
          assert children[k] == C[k] && C[k] in pool;
        }
      }
    }

    /** The state of the pool after the first i iterations of the loop in _mergeWindows. */
    static ghost predicate MergeInv(children: seq<PreviewId>, previews: map<PreviewId, Preview>, nextId: nat,
                                    C: seq<PreviewId>, windows: seq<Window>, pool: map<PreviewId, Preview>, base: nat, i: nat, wasOpened: bool)
    {
      && MergeShape(children, previews, nextId, C, windows, pool, base, i, wasOpened)
      && MergeValues(previews, C, windows, pool, base, i, wasOpened)
    }

    /** The child list, the ids in use and the next id after i iterations. */
    static ghost predicate MergeShape(children: seq<PreviewId>, previews: map<PreviewId, Preview>, nextId: nat,
                                      C: seq<PreviewId>, windows: seq<Window>, pool: map<PreviewId, Preview>, base: nat, i: nat, wasOpened: bool)
    {
      var n := |C|;
      var m := |windows|;
      && i <= (if m > n then m else n)
      && PoolValid(children, previews, nextId)
      && (forall k :: 0 <= k < n ==> C[k] in pool)
      && Distinct(C)
      && (forall id :: id in pool ==> id < base)
      && nextId == base + (if i > n then i - n else 0)
      && previews.Keys == pool.Keys + Fresh(base, nextId)
      && (i <= n && (wasOpened || i <= m) ==> children == C)
      && (i <= n && !wasOpened && i > m ==> children == C[..m] + C[i..])
      && (i > n ==> children == C + Range(base, i - n))
    }

    /** What each preview holds after i iterations: rebound, animated out, untouched or new. */
    static ghost predicate MergeValues(previews: map<PreviewId, Preview>,
                                       C: seq<PreviewId>, windows: seq<Window>, pool: map<PreviewId, Preview>, base: nat, i: nat, wasOpened: bool)
    {
      var n := |C|;
      var m := |windows|;
      && (forall k :: 0 <= k < n ==> C[k] in pool)
      && (forall id :: id in pool && id !in C ==> id in previews && previews[id] == pool[id])
      && (forall k :: 0 <= k < n && k < m && k < i ==> C[k] in previews && previews[C[k]] == Reassigned(pool[C[k]], windows[k]))
      && (forall k :: m <= k < n && k < i ==>
            C[k] in previews && previews[C[k]] == (if wasOpened then pool[C[k]].(animatingOut := true) else pool[C[k]]))
      && (forall k :: i <= k < n ==> C[k] in previews && previews[C[k]] == pool[C[k]])
      && (forall j :: n <= j < i && j < m ==> NewId(base, n, j) in previews && previews[NewId(base, n, j)] == NewPreview(windows[j]))
    }

    /** One iteration of the loop in _mergeWindows. */
    method MergeStep(C: seq<PreviewId>, windows: seq<Window>, ghost pool: map<PreviewId, Preview>, ghost base: nat, i: nat, wasOpened: bool)
      requires i < |C| || i < |windows|
      requires MergeInv(children, previews, nextId, C, windows, pool, base, i, wasOpened)
      modifies this`previews, this`children, this`nextId
      ensures MergeInv(children, previews, nextId, C, windows, pool, base, i + 1, wasOpened)
    {
      if i < |C| && i < |windows| {
        MergePaired(C, windows, pool, base, i, wasOpened);
      } else if i >= |C| {
        MergeAppend(C, windows, pool, base, i, wasOpened);
      } else {
        MergeSurplus(C, windows, pool, base, i, wasOpened);
      }
    }

    /** A preview and a window at the same position: rebind only when the window differs. */
    method MergePaired(C: seq<PreviewId>, windows: seq<Window>, ghost pool: map<PreviewId, Preview>, ghost base: nat, i: nat, wasOpened: bool)
      requires i < |C| && i < |windows|
      requires MergeInv(children, previews, nextId, C, windows, pool, base, i, wasOpened)
      modifies this`previews
      ensures MergeInv(children, previews, nextId, C, windows, pool, base, i + 1, wasOpened)
    {
      PairedStep(children, previews, nextId, C, windows, pool, base, i, wasOpened);
      if windows[i] != previews[C[i]].window {
        AssignWindow(C[i], windows[i]);
      }
    }

    static lemma PairedStep(children: seq<PreviewId>, previews: map<PreviewId, Preview>, nextId: nat,
                            C: seq<PreviewId>, windows: seq<Window>, pool: map<PreviewId, Preview>, base: nat, i: nat, wasOpened: bool)
      requires i < |C| && i < |windows|
      requires MergeInv(children, previews, nextId, C, windows, pool, base, i, wasOpened)
      ensures C[i] in previews
      ensures MergeInv(children, if previews[C[i]].window == windows[i] then previews else previews[C[i] := previews[C[i]].(window := windows[i])],
                       nextId, C, windows, pool, base, i + 1, wasOpened)
    {
      var p := if previews[C[i]].window == windows[i] then previews else previews[C[i] := previews[C[i]].(window := windows[i])];
      assert p.Keys == previews.Keys;
      ValuesPaired(previews, C, windows, pool, base, i, wasOpened);
      ShapeKeep(children, previews, p, nextId, C, windows, pool, base, i, wasOpened);
    }

    /** A window past the current previews: a new preview for it. */
    method MergeAppend(C: seq<PreviewId>, windows: seq<Window>, ghost pool: map<PreviewId, Preview>, ghost base: nat, i: nat, wasOpened: bool)
      requires |C| <= i < |windows|
      requires MergeInv(children, previews, nextId, C, windows, pool, base, i, wasOpened)
      modifies this`previews, this`children, this`nextId
      ensures MergeInv(children, previews, nextId, C, windows, pool, base, i + 1, wasOpened)
    {
      AppendStep(children, previews, nextId, C, windows, pool, base, i, wasOpened);
      AddNewPreview(windows[i]);
    }

    static lemma AppendStep(children: seq<PreviewId>, previews: map<PreviewId, Preview>, nextId: nat,
                            C: seq<PreviewId>, windows: seq<Window>, pool: map<PreviewId, Preview>, base: nat, i: nat, wasOpened: bool)
      requires |C| <= i < |windows|
      requires MergeInv(children, previews, nextId, C, windows, pool, base, i, wasOpened)
      ensures PoolValid(children, previews, nextId)
      ensures MergeInv(children + [nextId], previews[nextId := NewPreview(windows[i])], nextId + 1, C, windows, pool, base, i + 1, wasOpened)
    {
      var p := previews[nextId := NewPreview(windows[i])];
      assert p.Keys == previews.Keys + {nextId};
      ValuesAppend(previews, nextId, C, windows, pool, base, i, wasOpened);
      ShapeAppend(children, previews, p, nextId, C, windows, pool, base, i, wasOpened);
    }

    /** A preview past the listed windows: destroyed while closed, animated out while open. */
    method MergeSurplus(C: seq<PreviewId>, windows: seq<Window>, ghost pool: map<PreviewId, Preview>, ghost base: nat, i: nat, wasOpened: bool)
      requires |windows| <= i < |C|
      requires MergeInv(children, previews, nextId, C, windows, pool, base, i, wasOpened)
      modifies this`previews, this`children
      ensures MergeInv(children, previews, nextId, C, windows, pool, base, i + 1, wasOpened)
    {
      if !wasOpened {
        DestroyStep(children, previews, nextId, C, windows, pool, base, i);
        DestroyPreview(C[i]);
      } else {
        AnimateOutStep(children, previews, nextId, C, windows, pool, base, i);
        AnimateOut(C[i]);
      }
    }

    static lemma AnimateOutStep(children: seq<PreviewId>, previews: map<PreviewId, Preview>, nextId: nat,
                            C: seq<PreviewId>, windows: seq<Window>, pool: map<PreviewId, Preview>, base: nat, i: nat)
      requires |windows| <= i < |C|
      requires MergeInv(children, previews, nextId, C, windows, pool, base, i, true)
      ensures C[i] in previews
      ensures MergeInv(children, previews[C[i] := previews[C[i]].(animatingOut := true)], nextId, C, windows, pool, base, i + 1, true)
    {
      var p := previews[C[i] := previews[C[i]].(animatingOut := true)];
      assert p.Keys == previews.Keys;
      ValuesAnimateOut(previews, C, windows, pool, base, i);
      ShapeKeep(children, previews, p, nextId, C, windows, pool, base, i, true);
    }

    static lemma DestroyStep(children: seq<PreviewId>, previews: map<PreviewId, Preview>, nextId: nat,
                            C: seq<PreviewId>, windows: seq<Window>, pool: map<PreviewId, Preview>, base: nat, i: nat)
      requires |windows| <= i < |C|
      requires MergeInv(children, previews, nextId, C, windows, pool, base, i, false)
      ensures PoolValid(children, previews, nextId)
      ensures Without(children, C[i]) == C[..|windows|] + C[i + 1..]
      ensures MergeInv(C[..|windows|] + C[i + 1..], previews, nextId, C, windows, pool, base, i + 1, false)
    {
      assert children == C[..|windows|] + C[i..];
      WithoutAfterPrefix(C, |windows|, i);
      ValuesDestroy(previews, C, windows, pool, base, i);
      ShapeDestroy(children, previews, nextId, C, windows, pool, base, i);
    }

    static lemma ValuesPaired(previews: map<PreviewId, Preview>, C: seq<PreviewId>, windows: seq<Window>, pool: map<PreviewId, Preview>, base: nat, i: nat, wasOpened: bool)
      requires i < |C| && i < |windows| && Distinct(C)
      requires MergeValues(previews, C, windows, pool, base, i, wasOpened)
      ensures C[i] in previews
      ensures MergeValues(if previews[C[i]].window == windows[i] then previews else previews[C[i] := previews[C[i]].(window := windows[i])],
                          C, windows, pool, base, i + 1, wasOpened)
    {
    }

    static lemma ValuesAppend(previews: map<PreviewId, Preview>, nextId: nat,
                              C: seq<PreviewId>, windows: seq<Window>, pool: map<PreviewId, Preview>, base: nat, i: nat, wasOpened: bool)
      requires |C| <= i < |windows| && nextId == base + (i - |C|) && (forall id :: id in pool ==> id < base)
      requires MergeValues(previews, C, windows, pool, base, i, wasOpened)
      ensures MergeValues(previews[nextId := NewPreview(windows[i])], C, windows, pool, base, i + 1, wasOpened)
    {
      var p := previews[nextId := NewPreview(windows[i])];
      forall k | 0 <= k < |C| ensures C[k] != nextId && p[C[k]] == previews[C[k]] { assert C[k] in pool; }
      forall id | id in pool && id !in C ensures id in p && p[id] == pool[id] { assert id != nextId; }
      forall j | |C| <= j < i + 1 && j < |windows| ensures NewId(base, |C|, j) in p && p[NewId(base, |C|, j)] == NewPreview(windows[j]) {
        if j < i { assert NewId(base, |C|, j) != nextId; }
      }
    }

    static lemma ValuesAnimateOut(previews: map<PreviewId, Preview>, C: seq<PreviewId>, windows: seq<Window>, pool: map<PreviewId, Preview>, base: nat, i: nat)
      requires |windows| <= i < |C| && Distinct(C)
      requires MergeValues(previews, C, windows, pool, base, i, true)
      ensures C[i] in previews
      ensures MergeValues(previews[C[i] := previews[C[i]].(animatingOut := true)], C, windows, pool, base, i + 1, true)
    {
    }

    static lemma ValuesDestroy(previews: map<PreviewId, Preview>, C: seq<PreviewId>, windows: seq<Window>, pool: map<PreviewId, Preview>, base: nat, i: nat)
      requires |windows| <= i < |C|
      requires MergeValues(previews, C, windows, pool, base, i, false)
      ensures MergeValues(previews, C, windows, pool, base, i + 1, false)
    {
    }

    static lemma ShapeKeep(children: seq<PreviewId>, previews: map<PreviewId, Preview>, p: map<PreviewId, Preview>, nextId: nat,
                           C: seq<PreviewId>, windows: seq<Window>, pool: map<PreviewId, Preview>, base: nat, i: nat, wasOpened: bool)
      requires i < |C| && (wasOpened || i < |windows|) && p.Keys == previews.Keys
      requires MergeShape(children, previews, nextId, C, windows, pool, base, i, wasOpened)
      ensures MergeShape(children, p, nextId, C, windows, pool, base, i + 1, wasOpened)
    {
    }

    static lemma ShapeAppend(children: seq<PreviewId>, previews: map<PreviewId, Preview>, p: map<PreviewId, Preview>, nextId: nat,
                             C: seq<PreviewId>, windows: seq<Window>, pool: map<PreviewId, Preview>, base: nat, i: nat, wasOpened: bool)
      requires |C| <= i < |windows| && p.Keys == previews.Keys + {nextId}
      requires MergeShape(children, previews, nextId, C, windows, pool, base, i, wasOpened)
      ensures MergeShape(children + [nextId], p, nextId + 1, C, windows, pool, base, i + 1, wasOpened)
    {
      RangeSnoc(base, i - |C|);
      FreshSnoc(base, nextId);
      DistinctSnoc(children, nextId);
    }

    static lemma ShapeDestroy(children: seq<PreviewId>, previews: map<PreviewId, Preview>, nextId: nat,
                            C: seq<PreviewId>, windows: seq<Window>, pool: map<PreviewId, Preview>, base: nat, i: nat)
      requires |windows| <= i < |C|
      requires MergeShape(children, previews, nextId, C, windows, pool, base, i, false)
      ensures MergeShape(C[..|windows|] + C[i + 1..], previews, nextId, C, windows, pool, base, i + 1, false)
    {
      DistinctAfterCut(C, |windows|, i);
      KnownAfterCut(C, previews, |windows|, i);
    }

    /** Dropping a stretch of known children leaves known children. */
    static lemma KnownAfterCut(C: seq<PreviewId>, previews: map<PreviewId, Preview>, m: nat, i: nat)
      requires m <= i < |C| && forall k :: 0 <= k < |C| ==> C[k] in previews
      ensures ChildrenKnown(C[..m] + C[i + 1..], previews)
    {
      var r := C[..m] + C[i + 1..];
      forall k | 0 <= k < |r| ensures r[k] in previews {
        if k < m { assert r[k] == C[k]; } else { assert r[k] == C[k - m + i + 1]; }
      }
    }

    /** Utils.findIndex over a list of previews: the first one showing w, or -1. */
    function FindPreview(cur: seq<PreviewId>, w: Window): (i: int)
      reads this`previews
      requires forall j :: 0 <= j < |cur| ==> cur[j] in previews
      ensures -1 <= i < |cur|
      ensures 0 <= i ==> previews[cur[i]].window == w && forall j :: 0 <= j < i ==> previews[cur[j]].window != w
      ensures i == -1 ==> forall j :: 0 <= j < |cur| ==> previews[cur[j]].window != w
      decreases |cur|
    {
      if cur == [] then -1
      else if previews[cur[0]].window == w then 0
      else
        var k := FindPreview(cur[1..], w);
        if k == -1 then -1 else k + 1
    }

    /** The previews at the given positions of a child list. */
    static function IdsAt(C: seq<PreviewId>, pos: seq<nat>): (r: seq<PreviewId>)
      requires Reconcile.InRange(pos, |C|)
      ensures |r| == |pos| && forall j :: 0 <= j < |pos| ==> r[j] == C[pos[j]]
    {
      seq(|pos|, (j: int) requires 0 <= j < |pos| => C[pos[j]])
    }

    /** The effect of _addAndRemoveWindows(windows) on the pool, `wins` being the windows the children showed. */
    twostate predicate Reconciled(windows: seq<Window>, wins: seq<Window>)
      reads this`children, this`previews, this`nextId
    {
      ReconciledFrom(old(children), old(previews), old(nextId), windows, wins)
    }

    /** The pool after reconciling the children C (showing `wins`) of `pool`, whose next id was `base`, with `windows`. */
    ghost predicate ReconciledFrom(C: seq<PreviewId>, pool: map<PreviewId, Preview>, base: nat, windows: seq<Window>, wins: seq<Window>)
      reads this`children, this`previews, this`nextId
    {
      ReconciledState(children, previews, nextId, C, pool, base, windows, wins)
    }

    /** ReconciledFrom over explicit values of the children, the pool and the next id. */
    static ghost predicate ReconciledState(children: seq<PreviewId>, previews: map<PreviewId, Preview>, nextId: nat,
                                           C: seq<PreviewId>, pool: map<PreviewId, Preview>, base: nat,
                                           windows: seq<Window>, wins: seq<Window>)
    {
      var R := Reconcile.Run(wins, windows);
      && nextId == base + |R.added|
      && children == C + Range(base, |R.added|)
      && previews.Keys == pool.Keys + Fresh(base, nextId)
      && (forall id :: id in pool && id !in C ==> id in previews && previews[id] == pool[id])
      && (forall k: nat :: k < |C| && C[k] in pool ==>
            C[k] in previews
            && previews[C[k]] == (if k in R.cur then pool[C[k]].(animatingOut := true) else pool[C[k]]))
      && (forall j :: 0 <= j < |R.added| ==> base + j in previews && previews[base + j] == NewPreview(R.added[j]))
    }

    /**
     * _addAndRemoveWindows: identity-based reconciliation. Each listed window
     * claims the first unclaimed preview already showing it, or gets a new
     * preview appended; the previews left unclaimed are animated out. A
     * preview is never rebound to another window here.
     */
    method AddAndRemoveWindows(windows: seq<Window>)
      requires PoolValid(children, previews, nextId)
      modifies this`previews, this`children, this`nextId
      ensures PoolValid(children, previews, nextId)
      ensures Reconciled(windows, old(ChildWindows()))
      ensures old(previews).Keys <= previews.Keys
      ensures Distinct(windows) ==> LiveDistinct(children, previews)
    {
      var C := children;
      ghost var wins := ChildWindows();
      ghost var pool := previews;
      ghost var base := nextId;
      ClaimStart(C, wins, windows, pool, base);
      var cur := ClaimAll(C, wins, windows, pool, base);
      ghost var R := Reconcile.Run(wins, windows);
      ClaimFinished(C, wins, windows, pool, base, cur);
      LeaveAll(C, cur, R, pool, base);
      LeaveFinished(C, windows, wins, pool, base);
      if Distinct(windows) {
        ReconcileLiveDistinct(children, previews, nextId, C, pool, base, windows, wins, R);
      }
    }

    /**
     * After reconciling with a duplicate-free list, the children not animating
     * out show pairwise different windows: the claimed ones show different
     * listed windows, the new ones the queued windows, which no old child shows.
     */
    static lemma ReconcileLiveDistinct(children: seq<PreviewId>, previews: map<PreviewId, Preview>, nextId: nat,
                                       C: seq<PreviewId>, pool: map<PreviewId, Preview>, base: nat, windows: seq<Window>,
                                       wins: seq<Window>, R: Reconcile.Pass)
      requires ChildrenKnown(C, pool) && wins == WindowsOf(C, pool) && R == Reconcile.Run(wins, windows)
      requires ReconciledState(children, previews, nextId, C, pool, base, windows, wins)
      requires Distinct(windows)
      ensures LiveDistinct(children, previews)
    {
      Reconcile.RunOnePerWindow(wins, windows);
      ReconciledPositions(children, previews, nextId, C, pool, base, windows, wins, R);
      LiveFromPositions(children, previews, wins, R);
    }

    /** Each child after a reconciliation is animating out, a claimed old child showing its old window, or a new one showing a queued window. */
    static lemma ReconciledPositions(children: seq<PreviewId>, previews: map<PreviewId, Preview>, nextId: nat,
                                     C: seq<PreviewId>, pool: map<PreviewId, Preview>, base: nat, windows: seq<Window>,
                                     wins: seq<Window>, R: Reconcile.Pass)
      requires ChildrenKnown(C, pool) && wins == WindowsOf(C, pool) && R == Reconcile.Run(wins, windows)
      requires ReconciledState(children, previews, nextId, C, pool, base, windows, wins)
      ensures |children| == |wins| + |R.added|
      ensures forall k :: 0 <= k < |children| ==>
             children[k] in previews
             && (previews[children[k]].animatingOut
                 || (k < |wins| && k !in R.cur && previews[children[k]].window == wins[k])
                 || (|wins| <= k && previews[children[k]].window == R.added[k - |wins|]))
    {
      var n := |C|;
      ReconciledOld(children, previews, nextId, C, pool, base, windows, wins, R);
      ReconciledNew(children, previews, nextId, C, pool, base, windows, wins, R);
      forall k | 0 <= k < |children|
        ensures children[k] in previews
        ensures previews[children[k]].animatingOut
          || (k < n && k !in R.cur && previews[children[k]].window == wins[k])
          || (n <= k && previews[children[k]].window == R.added[k - n])
      {
        if k >= n {
          assert children[k] == base + (k - n);
        } else {
          assert children[k] == C[k];
        }
      }
    }

    /** The old children after a reconciliation: animating out when left over, otherwise untouched. */
    static lemma ReconciledOld(children: seq<PreviewId>, previews: map<PreviewId, Preview>, nextId: nat,
                               C: seq<PreviewId>, pool: map<PreviewId, Preview>, base: nat, windows: seq<Window>,
                               wins: seq<Window>, R: Reconcile.Pass)
      requires ChildrenKnown(C, pool) && wins == WindowsOf(C, pool) && R == Reconcile.Run(wins, windows)
      requires ReconciledState(children, previews, nextId, C, pool, base, windows, wins)
      ensures children == C + Range(base, |R.added|)
      ensures forall k :: 0 <= k < |C| ==>
        C[k] in previews && (previews[C[k]].animatingOut || (k !in R.cur && previews[C[k]].window == wins[k]))
    {
      forall k | 0 <= k < |C|
        ensures C[k] in previews && (previews[C[k]].animatingOut || (k !in R.cur && previews[C[k]].window == wins[k]))
      {
        assert C[k] in pool;
      }
    }

    /** The new children after a reconciliation show the queued windows. */
    static lemma ReconciledNew(children: seq<PreviewId>, previews: map<PreviewId, Preview>, nextId: nat,
                               C: seq<PreviewId>, pool: map<PreviewId, Preview>, base: nat, windows: seq<Window>,
                               wins: seq<Window>, R: Reconcile.Pass)
      requires R == Reconcile.Run(wins, windows)
      requires ReconciledState(children, previews, nextId, C, pool, base, windows, wins)
      ensures forall j :: 0 <= j < |R.added| ==> base + j in previews && previews[base + j].window == R.added[j]
    {
    }

    /** The pairwise argument behind ReconcileLiveDistinct, on the positions alone. */
    static lemma LiveFromPositions(children: seq<PreviewId>, previews: map<PreviewId, Preview>, wins: seq<Window>, R: Reconcile.Pass)
      requires |children| == |wins| + |R.added|
      requires forall k :: 0 <= k < |children| ==>
             children[k] in previews
             && (previews[children[k]].animatingOut
                 || (k < |wins| && k !in R.cur && previews[children[k]].window == wins[k])
                 || (|wins| <= k && previews[children[k]].window == R.added[k - |wins|]))
      requires forall k1: nat, k2: nat :: k1 < k2 < |wins| && k1 !in R.cur && k2 !in R.cur ==> wins[k1] != wins[k2]
      requires Distinct(R.added)
      requires forall w :: w in R.added ==> w !in wins
      ensures LiveDistinct(children, previews)
    {
      var n := |wins|;
      forall i, j | 0 <= i < j < |children| && !previews[children[i]].animatingOut && !previews[children[j]].animatingOut
        ensures previews[children[i]].window != previews[children[j]].window
      {
        if j < n {
        } else if i < n {
          assert R.added[j - n] in R.added;
        } else {
          assert R.added[i - n] != R.added[j - n];
        }
      }
    }

    /**
     * Reconciliation is a fixed point: reconciling again with the same list
     * creates no preview, animates out no new one and leaves the children,
     * the pool and the next id exactly as the first pass left them.
     */
    static lemma ReconcileIdempotent(C0: seq<PreviewId>, pool0: map<PreviewId, Preview>, base0: nat,
                                     C1: seq<PreviewId>, pool1: map<PreviewId, Preview>, base1: nat,
                                     C2: seq<PreviewId>, pool2: map<PreviewId, Preview>, base2: nat, windows: seq<Window>)
      requires ChildrenKnown(C0, pool0) && ChildrenKnown(C1, pool1)
      requires ReconciledState(C1, pool1, base1, C0, pool0, base0, windows, WindowsOf(C0, pool0))
      requires ReconciledState(C2, pool2, base2, C1, pool1, base1, windows, WindowsOf(C1, pool1))
      ensures C2 == C1 && pool2 == pool1 && base2 == base1
    {
      var W0 := WindowsOf(C0, pool0);
      var R1 := Reconcile.Run(W0, windows);
      ReconciledWindows(C0, pool0, base0, C1, pool1, base1, windows);
      Reconcile.RunIdempotent(W0, windows);
      PassMarksLeftovers(C0, pool0, base0, C1, pool1, base1, windows);
      PassWithoutEffect(C1, pool1, base1, C2, pool2, base2, windows, WindowsOf(C1, pool1));
    }

    /** The children after a reconciliation show the old windows followed by the queued ones. */
    static lemma ReconciledWindows(C0: seq<PreviewId>, pool0: map<PreviewId, Preview>, base0: nat,
                                   C1: seq<PreviewId>, pool1: map<PreviewId, Preview>, base1: nat, windows: seq<Window>)
      requires ChildrenKnown(C0, pool0) && ChildrenKnown(C1, pool1)
      requires ReconciledState(C1, pool1, base1, C0, pool0, base0, windows, WindowsOf(C0, pool0))
      ensures WindowsOf(C1, pool1) == WindowsOf(C0, pool0) + Reconcile.Run(WindowsOf(C0, pool0), windows).added
    {
      var W0 := WindowsOf(C0, pool0);
      var R := Reconcile.Run(W0, windows);
      var A := R.added;
      var n := |C0|;
      var W1 := WindowsOf(C1, pool1);
      assert |W1| == |W0 + A|;
      forall k | 0 <= k < |C1| ensures W1[k] == (W0 + A)[k] {
        if k >= n {
          var j := k - n;
          assert C1[k] == base0 + j;
          assert pool1[base0 + j] == NewPreview(A[j]);
        } else {
          assert C1[k] == C0[k] && C0[k] in pool0;
          assert pool1[C0[k]].window == pool0[C0[k]].window;
        }
      }
    }

    /** A reconciling pass marks every preview it leaves over as animating out. */
    static lemma PassMarksLeftovers(C0: seq<PreviewId>, pool0: map<PreviewId, Preview>, base0: nat,
                                    C1: seq<PreviewId>, pool1: map<PreviewId, Preview>, base1: nat, windows: seq<Window>)
      requires ChildrenKnown(C0, pool0)
      requires ReconciledState(C1, pool1, base1, C0, pool0, base0, windows, WindowsOf(C0, pool0))
      ensures var R := Reconcile.Run(WindowsOf(C0, pool0), windows);
        forall k :: k in R.cur ==> k < |C1| && C1[k] in pool1 && pool1[C1[k]].animatingOut
    {
      var R := Reconcile.Run(WindowsOf(C0, pool0), windows);
      forall k | k in R.cur ensures k < |C1| && C1[k] in pool1 && pool1[C1[k]].animatingOut {
        var j :| 0 <= j < |R.cur| && R.cur[j] == k;
        assert k < |C0| && C1[k] == C0[k];
      }
    }

    /** A pass that queues nothing and leaves over only previews already animating out changes nothing. */
    static lemma PassWithoutEffect(C1: seq<PreviewId>, pool1: map<PreviewId, Preview>, base1: nat,
                                   C2: seq<PreviewId>, pool2: map<PreviewId, Preview>, base2: nat,
                                   windows: seq<Window>, wins: seq<Window>)
      requires ReconciledState(C2, pool2, base2, C1, pool1, base1, windows, wins)
      requires Reconcile.Run(wins, windows).added == []
      requires forall k :: k in Reconcile.Run(wins, windows).cur ==> k < |C1| && C1[k] in pool1 && pool1[C1[k]].animatingOut
      ensures C2 == C1 && pool2 == pool1 && base2 == base1
    {
      var R := Reconcile.Run(wins, windows);
      assert Range(base1, 0) == [];
      assert Fresh(base1, base2) == {};
      forall id | id in pool1 ensures pool2[id] == pool1[id] {
        if id in C1 {
          var k :| 0 <= k < |C1| && C1[k] == id;
        }
      }
    }

    /**
     * A window that comes back while its only preview is animating out
     * claims that dying preview: with a preview of 7 animating out and a
     * live one of 9, reconciling with [9, 7] creates nothing, so no live
     * preview is left for 7 once the animation ends.
     */
    static lemma ReturningWindowLosesPreview(children: seq<PreviewId>, previews: map<PreviewId, Preview>, nextId: nat)
      requires ReconciledState(children, previews, nextId, [0, 1], DyingAndLive(), 2, [9, 7], [7, 9])
      ensures children == [0, 1] && nextId == 2
      ensures previews[0].window == 7 && previews[0].animatingOut && previews[1].window == 9
      ensures forall k :: 0 <= k < |children| && children[k] in previews && previews[children[k]].window == 7
                ==> previews[children[k]].animatingOut
    {
      var R := Reconcile.Run([7, 9], [9, 7]);
      Reconcile.ClaimsDyingPreview();
      assert R.cur == [] && R.added == [];
      assert Range(2, 0) == [];
      var C: seq<PreviewId> := [0, 1];
      assert C[0] == 0 && C[1] == 1;
      assert 0 !in R.cur && 1 !in R.cur;
      assert previews[C[0]] == DyingAndLive()[C[0]];
      assert previews[C[1]] == DyingAndLive()[C[1]];
    }

    /** Two previews: one of window 7 animating out, one of window 9 still live. */
    static function DyingAndLive(): map<PreviewId, Preview> {
      map[0 := Preview(7, true, true, false, false), 1 := Preview(9, false, true, false, false)]
    }

    /** The claiming loop of _addAndRemoveWindows: returns the previews left unclaimed. */
    method ClaimAll(C: seq<PreviewId>, ghost wins: seq<Window>, windows: seq<Window>, ghost pool: map<PreviewId, Preview>,
                    ghost base: nat) returns (cur: seq<PreviewId>)
      requires ClaimInv(C, wins, windows, pool, base, 0, C)
      modifies this`previews, this`children, this`nextId
      ensures ClaimInv(C, wins, windows, pool, base, |windows|, cur)
    {
      cur := C;
      var i := 0;
      while i < |windows|
        invariant 0 <= i <= |windows|
        invariant ClaimInv(C, wins, windows, pool, base, i, cur)
      {
        cur := ClaimStep(C, wins, windows, pool, base, i, cur);
        i := i + 1;
      }
    }

    /** The final forEach of _addAndRemoveWindows: every unclaimed preview is animated out. */
    method LeaveAll(C: seq<PreviewId>, leftover: seq<PreviewId>, ghost R: Reconcile.Pass, ghost pool: map<PreviewId, Preview>,
                    ghost base: nat)
      requires LeaveInv(C, R, pool, base, 0)
      requires leftover == IdsAt(C, R.cur)
      modifies this`previews
      ensures LeaveInv(C, R, pool, base, |R.cur|)
    {
      var j := 0;
      while j < |leftover|
        invariant 0 <= j <= |leftover|
        invariant LeaveInv(C, R, pool, base, j)
      {
        LeaveStep(C, leftover, R, pool, base, j);
        j := j + 1;
      }
    }

    lemma ClaimStart(C: seq<PreviewId>, wins: seq<Window>, windows: seq<Window>, pool: map<PreviewId, Preview>, base: nat)
      requires PoolValid(children, previews, nextId) && pool == previews && base == nextId && wins == ChildWindows() && C == children
      ensures ClaimInv(C, wins, windows, pool, base, 0, C)
    {
      assert windows[..0] == [];
      assert C == IdsAt(C, Reconcile.Run(wins, windows[..0]).cur);
      assert Fresh(base, nextId) == {};
    }

    lemma ClaimFinished(C: seq<PreviewId>, wins: seq<Window>, windows: seq<Window>, pool: map<PreviewId, Preview>,
                        base: nat, cur: seq<PreviewId>)
      requires ClaimInv(C, wins, windows, pool, base, |windows|, cur)
      ensures LeaveInv(C, Reconcile.Run(wins, windows), pool, base, 0)
      ensures cur == IdsAt(C, Reconcile.Run(wins, windows).cur)
    {
      assert windows[..|windows|] == windows;
      var R := Reconcile.Run(wins, windows);
      assert R.cur[..0] == [];
    }

    lemma LeaveFinished(C: seq<PreviewId>, windows: seq<Window>, wins: seq<Window>, pool: map<PreviewId, Preview>, base: nat)
      requires LeaveInv(C, Reconcile.Run(wins, windows), pool, base, |Reconcile.Run(wins, windows).cur|)
      ensures ReconciledFrom(C, pool, base, windows, wins)
    {
      var R := Reconcile.Run(wins, windows);
      assert R.cur[..|R.cur|] == R.cur;
    }

    /** The state after the first i iterations of the claiming loop of _addAndRemoveWindows. */
    ghost predicate ClaimInv(C: seq<PreviewId>, wins: seq<Window>, windows: seq<Window>, pool: map<PreviewId, Preview>,
                             base: nat, i: nat, cur: seq<PreviewId>)
      reads this`children, this`previews, this`nextId
    {
      ClaimState(children, previews, nextId, C, wins, windows, pool, base, i, cur)
    }

    /** ClaimInv over explicit values of the children, the pool and the next id. */
    static ghost predicate ClaimState(children: seq<PreviewId>, previews: map<PreviewId, Preview>, nextId: nat,
                                      C: seq<PreviewId>, wins: seq<Window>, windows: seq<Window>, pool: map<PreviewId, Preview>,
                                      base: nat, i: nat, cur: seq<PreviewId>)
    {
      && i <= |windows|
      && |wins| == |C|
      && PoolValid(children, previews, nextId)
      && Distinct(C)
      && (forall k :: 0 <= k < |C| ==> C[k] in pool && wins[k] == pool[C[k]].window)
      && (forall id :: id in pool ==> id < base)
      && ClaimedBy(children, previews, nextId, C, pool, base, cur, Reconcile.Run(wins, windows[..i]))
    }

    /** The pool after the claiming loop has reached pass R: old previews untouched, one new preview per queued window. */
    static ghost predicate ClaimedBy(children: seq<PreviewId>, previews: map<PreviewId, Preview>, nextId: nat,
                                     C: seq<PreviewId>, pool: map<PreviewId, Preview>, base: nat, cur: seq<PreviewId>,
                                     R: Reconcile.Pass)
    {
      && Reconcile.InRange(R.cur, |C|)
      && cur == IdsAt(C, R.cur)
      && nextId == base + |R.added|
      && children == C + Range(base, |R.added|)
      && previews.Keys == pool.Keys + Fresh(base, nextId)
      && (forall id :: id in pool ==> previews[id] == pool[id])
      && (forall t :: 0 <= t < |R.added| ==> previews[base + t] == NewPreview(R.added[t]))
    }

    /** One listed window: claim the first unclaimed preview showing it, or append a new preview. */
    method ClaimStep(C: seq<PreviewId>, ghost wins: seq<Window>, windows: seq<Window>, ghost pool: map<PreviewId, Preview>,
                     ghost base: nat, i: nat, cur: seq<PreviewId>) returns (cur': seq<PreviewId>)
      requires i < |windows|
      requires ClaimInv(C, wins, windows, pool, base, i, cur)
      modifies this`previews, this`children, this`nextId
      ensures ClaimInv(C, wins, windows, pool, base, i + 1, cur')
    {
      ghost var R := Reconcile.Run(wins, windows[..i]);
      var idx := FindPreview(cur, windows[i]);
      FindAgrees(C, wins, pool, cur, R.cur, windows[i]);
      if idx < 0 {
        ClaimNew(C, wins, windows, pool, base, i, cur);
        cur' := cur;
      } else {
        cur' := cur[..idx] + cur[idx + 1..];
        ClaimFoundStep(children, previews, nextId, C, wins, windows, pool, base, i, cur, idx);
      }
    }

    /** A listed window an unclaimed preview shows: that preview leaves the unclaimed list, nothing else changes. */
    static lemma ClaimFoundStep(children: seq<PreviewId>, previews: map<PreviewId, Preview>, nextId: nat,
                                C: seq<PreviewId>, wins: seq<Window>, windows: seq<Window>, pool: map<PreviewId, Preview>,
                                base: nat, i: nat, cur: seq<PreviewId>, idx: nat)
      requires i < |windows|
      requires ClaimState(children, previews, nextId, C, wins, windows, pool, base, i, cur)
      requires idx == Reconcile.FindIndex(Reconcile.Run(wins, windows[..i]).cur, wins, windows[i])
      ensures idx < |cur|
      ensures ClaimState(children, previews, nextId, C, wins, windows, pool, base, i + 1, cur[..idx] + cur[idx + 1..])
    {
      var R := Reconcile.Run(wins, windows[..i]);
      Reconcile.RunSnoc(wins, windows, i);
      Reconcile.StepClaimAt(R, wins, windows[i], idx);
      IdsAtSplice(C, R.cur, idx);
    }

    /** Over the unclaimed previews, searching by preview and searching by position agree. */
    lemma FindAgrees(C: seq<PreviewId>, wins: seq<Window>, pool: map<PreviewId, Preview>, cur: seq<PreviewId>,
                     pos: seq<nat>, w: Window)
      requires |wins| == |C| && Reconcile.InRange(pos, |C|) && cur == IdsAt(C, pos)
      requires forall k :: 0 <= k < |C| ==> C[k] in pool && wins[k] == pool[C[k]].window
      requires forall id :: id in pool ==> id in previews && previews[id] == pool[id]
      ensures FindPreview(cur, w) == Reconcile.FindIndex(pos, wins, w)
    {
      assert forall j :: 0 <= j < |cur| ==> previews[cur[j]].window == wins[pos[j]];
    }

    /** Splicing out an unclaimed preview is splicing out its position. */
    static lemma IdsAtSplice(C: seq<PreviewId>, pos: seq<nat>, idx: nat)
      requires Reconcile.InRange(pos, |C|) && idx < |pos|
      ensures Reconcile.InRange(pos[..idx] + pos[idx + 1..], |C|)
      ensures IdsAt(C, pos)[..idx] + IdsAt(C, pos)[idx + 1..] == IdsAt(C, pos[..idx] + pos[idx + 1..])
    {
      var r := pos[..idx] + pos[idx + 1..];
      assert forall j :: 0 <= j < |r| ==> r[j] == (if j < idx then pos[j] else pos[j + 1]);
    }

    /** A listed window no unclaimed preview shows: a new preview for it. */
    method ClaimNew(C: seq<PreviewId>, ghost wins: seq<Window>, windows: seq<Window>, ghost pool: map<PreviewId, Preview>,
                    ghost base: nat, i: nat, cur: seq<PreviewId>)
      requires i < |windows|
      requires ClaimInv(C, wins, windows, pool, base, i, cur)
      requires Reconcile.FindIndex(Reconcile.Run(wins, windows[..i]).cur, wins, windows[i]) < 0
      modifies this`previews, this`children, this`nextId
      ensures ClaimInv(C, wins, windows, pool, base, i + 1, cur)
    {
      ghost var ch, pv, n := children, previews, nextId;
      AddNewPreview(windows[i]);
      ClaimNewStep(ch, pv, n, children, previews, nextId, C, wins, windows, pool, base, i, cur);
    }

    static lemma ClaimNewStep(children: seq<PreviewId>, previews: map<PreviewId, Preview>, nextId: nat,
                              children': seq<PreviewId>, previews': map<PreviewId, Preview>, nextId': nat,
                              C: seq<PreviewId>, wins: seq<Window>, windows: seq<Window>, pool: map<PreviewId, Preview>,
                              base: nat, i: nat, cur: seq<PreviewId>)
      requires i < |windows|
      requires ClaimState(children, previews, nextId, C, wins, windows, pool, base, i, cur)
      requires Reconcile.FindIndex(Reconcile.Run(wins, windows[..i]).cur, wins, windows[i]) < 0
      requires children' == children + [nextId] && previews' == previews[nextId := NewPreview(windows[i])]
      requires nextId' == nextId + 1
      ensures ClaimState(children', previews', nextId', C, wins, windows, pool, base, i + 1, cur)
    {
      var R := Reconcile.Run(wins, windows[..i]);
      Reconcile.RunSnoc(wins, windows, i);
      Reconcile.StepQueues(R, wins, windows[i]);
      ClaimedSnoc(children, previews, nextId, C, pool, base, cur, R, windows[i]);
    }

    /** Appending a new preview for w extends a claimed pool by one queued window. */
    static lemma ClaimedSnoc(children: seq<PreviewId>, previews: map<PreviewId, Preview>, nextId: nat,
                             C: seq<PreviewId>, pool: map<PreviewId, Preview>, base: nat, cur: seq<PreviewId>,
                             R: Reconcile.Pass, w: Window)
      requires PoolValid(children, previews, nextId)
      requires forall id :: id in pool ==> id < base
      requires ClaimedBy(children, previews, nextId, C, pool, base, cur, R)
      ensures PoolValid(children + [nextId], previews[nextId := NewPreview(w)], nextId + 1)
      ensures ClaimedBy(children + [nextId], previews[nextId := NewPreview(w)], nextId + 1,
                        C, pool, base, cur, Reconcile.Pass(R.cur, R.added + [w]))
    {
      RangeSnoc(base, |R.added|);
      FreshSnoc(base, nextId);
      assert nextId !in children;
      DistinctSnoc(children, nextId);
      var p := previews[nextId := NewPreview(w)];
      assert p.Keys == previews.Keys + {nextId};
      forall id | id in pool ensures p[id] == pool[id] { assert id != nextId; }
      forall t | 0 <= t < |R.added| + 1 ensures p[base + t] == NewPreview((R.added + [w])[t]) {
        if t < |R.added| { assert base + t != nextId; }
      }
    }

    /** The state after animating out the first j unclaimed previews. */
    ghost predicate LeaveInv(C: seq<PreviewId>, R: Reconcile.Pass, pool: map<PreviewId, Preview>, base: nat, j: nat)
      reads this`children, this`previews, this`nextId
    {
      && j <= |R.cur|
      && Reconcile.InRange(R.cur, |C|)
      && PoolValid(children, previews, nextId)
      && Distinct(C)
      && (forall k :: 0 <= k < |C| ==> C[k] in pool)
      && (forall id :: id in pool ==> id < base)
      && nextId == base + |R.added|
      && children == C + Range(base, |R.added|)
      && previews.Keys == pool.Keys + Fresh(base, nextId)
      && (forall id :: id in pool && id !in C ==> previews[id] == pool[id])
      && (forall k: nat :: k < |C| ==>
            previews[C[k]] == (if k in R.cur[..j] then pool[C[k]].(animatingOut := true) else pool[C[k]]))
      && (forall t :: 0 <= t < |R.added| ==> previews[base + t] == NewPreview(R.added[t]))
    }

    /** One unclaimed preview animated out. */
    method LeaveStep(C: seq<PreviewId>, leftover: seq<PreviewId>, ghost R: Reconcile.Pass, ghost pool: map<PreviewId, Preview>,
                     ghost base: nat, j: nat)
      requires j < |R.cur|
      requires LeaveInv(C, R, pool, base, j)
      requires leftover == IdsAt(C, R.cur)
      modifies this`previews
      ensures LeaveInv(C, R, pool, base, j + 1)
    {
      assert R.cur[..j + 1] == R.cur[..j] + [R.cur[j]];
      AnimateOut(leftover[j]);
    }

    // ----------------------------------------------------------------- focus

    /** The highlight and close-button part of setFocus. */
    method Highlight(id: PreviewId, focused: bool)
      requires id in previews
      modifies this`previews
      ensures previews == WithFocus(old(previews), id, focused)
      ensures old(PoolValid(children, previews, nextId)) ==> PoolValid(children, previews, nextId)
      ensures old(FocusKnown(focusedPreview, previews)) ==> FocusKnown(focusedPreview, previews)
    {
      previews := WithFocus(previews, id, focused);
    }

    /**
     * setFocus: the preview shows its highlight and close button iff focused;
     * gaining the focus requests a peek at its window.
     */
    method SetFocus(id: PreviewId, focused: bool)
      requires PeekValid(peek, timers) && id in previews
      modifies this`previews, this`timers, this`peek
      ensures PeekValid(peek, timers)
      ensures previews == WithFocus(old(previews), id, focused)
      ensures focused ==> PeekRequested(old(timers), old(peek), old(previews)[id].window)
      ensures !focused ==> timers == old(timers) && peek == old(peek)
    {
      Highlight(id, focused);
      if focused {
        RequestPeek(previews[id].window);
      }
    }

    /** _removeFocus: the focused preview, if any, loses the focus and the menu forgets it. */
    method RemoveFocus()
      requires PoolValid(children, previews, nextId) && FocusKnown(focusedPreview, previews)
      modifies this`focusedPreview, this`previews
      ensures PoolValid(children, previews, nextId) && FocusKnown(focusedPreview, previews)
      ensures focusedPreview.None?
      ensures previews == Unfocused(old(previews), old(focusedPreview))
    {
      if focusedPreview.Some? {
        Highlight(focusedPreview.value, false);
        focusedPreview := None;
      }
    }

    /** The focused preview's index among the children, -1 when there is none or it is no child. */
    function FocusedIndex(): (i: int)
      reads this`focusedPreview, this`children
      ensures -1 <= i < |children|
      ensures 0 <= i ==> focusedPreview == Some(children[i])
      ensures i == -1 <==> focusedPreview.None? || focusedPreview.value !in children
    {
      if focusedPreview.Some? then IndexOf(children, focusedPreview.value) else -1
    }

    /**
     * focusNext: with children, the one after the focused preview (cyclically,
     * the first when none is focused) becomes the focused preview and its index
     * is returned; with no children nothing changes and 0 is returned.
     */
    method FocusNext() returns (next: int)
      requires Valid()
      modifies this`focusedPreview, this`previews, this`timers, this`peek
      ensures Valid()
      ensures |children| == 0 ==> next == 0 && focusedPreview == old(focusedPreview) && previews == old(previews)
                                  && timers == old(timers) && peek == old(peek)
      ensures |children| > 0 ==> 0 <= next < |children| && next == (old(FocusedIndex()) + 1) % |children|
      ensures |children| > 0 ==> focusedPreview == Some(children[next]) && FocusedIndex() == next
      ensures |children| > 0 ==>
        previews == WithFocus(Unfocused(old(previews), old(focusedPreview)), children[next], true)
        && PeekRequested(old(timers), old(peek), old(previews)[children[next]].window)
    {
      var currentIndex := FocusedIndex();
      next := currentIndex + 1;
      if next >= |children| {
        next := 0;
      }
      if next < |children| {
        CyclicSuccessor(currentIndex, |children|);
        FocusChild(next);
        IndexOfDistinct(children, next);
      }
    }

    /** The index after i among n, wrapping past the end. */
    static lemma CyclicSuccessor(i: int, n: nat)
      requires n > 0 && -1 <= i < n
      ensures (i + 1) % n == if i + 1 < n then i + 1 else 0
    {
      if i + 1 == n {
        assert (i + 1) % n == n % n == 0;
      }
    }

    /** The second half of focusNext: move the focus to the k-th child. */
    method FocusChild(k: nat)
      requires Valid() && k < |children|
      modifies this`focusedPreview, this`previews, this`timers, this`peek
      ensures Valid()
      ensures focusedPreview == Some(children[k])
      ensures previews == WithFocus(Unfocused(old(previews), old(focusedPreview)), children[k], true)
      ensures PeekRequested(old(timers), old(peek), old(previews)[children[k]].window)
    {
      var target := children[k];
      ghost var t0, ps0, w := timers, peek, previews[target].window;
      RemoveFocus();
      assert timers == t0 && peek == ps0 && previews[target].window == w;
      FocusPreview(target);
      assert PeekRequested(t0, ps0, w);
    }

    /** Give one preview the focus: setFocus(true), then remember it as the focused preview. */
    method FocusPreview(id: PreviewId)
      requires PeekValid(peek, timers) && id in previews
      modifies this`focusedPreview, this`previews, this`timers, this`peek
      ensures PeekValid(peek, timers)
      ensures focusedPreview == Some(id)
      ensures previews == WithFocus(old(previews), id, true)
      ensures PeekRequested(old(timers), old(peek), old(previews)[id].window)
    {
      SetFocus(id, true);
      focusedPreview := Some(id);
    }

    // ------------------------------------------------------- opening, closing

    /**
     * _animateOpenOrClose: the popup's opacity and slide translation head for
     * their shown or hidden values; a close animation's completion is due
     * (CloseAnimationFinished), while an open animation replaces a pending one.
     */
    method AnimateOpenOrClose(show: bool)
      modifies this`menuOpacity, this`menuTranslation, this`closeAnimationPending
      ensures menuOpacity == (if show then FullOpacity else 0)
      ensures menuTranslation == (if show then 0 else Offset())
      ensures closeAnimationPending == !show
    {
      menuOpacity := if show then FullOpacity else 0;
      menuTranslation := if show then 0 else Offset();
      closeAnimationPending := !show;
    }

    /** _resetHiddenState: hide the popup, mark it closed, and destroy every child. */
    method ResetHiddenState()
      requires PoolValid(children, previews, nextId)
      modifies this`menuVisible, this`isOpened, this`menuOpacity, this`menuTranslation, this`children
      ensures PoolValid(children, previews, nextId)
      ensures !menuVisible && !isOpened && menuOpacity == 0 && menuTranslation == Offset()
      ensures children == []
    {
      menuVisible := false;
      isOpened := false;
      menuOpacity := 0;
      menuTranslation := Offset();
      DestroyChildren();
    }

    /** The forEach of _resetHiddenState: each child, in order, is destroyed. */
    method DestroyChildren()
      requires PoolValid(children, previews, nextId)
      modifies this`children
      ensures PoolValid(children, previews, nextId) && children == []
    {
      var cs := children;
      var j := 0;
      while j < |cs|
        invariant 0 <= j <= |cs|
        invariant PoolValid(children, previews, nextId)
        invariant children == cs[j..]
      {
        assert cs[j..][0] == cs[j];
        IndexOfDistinct(cs[j..], 0);
        DestroyPreview(cs[j]);
        assert cs[j..][1..] == cs[j + 1..];
        j := j + 1;
      }
    }

    /** The forEach at the end of close: no child reacts to input any more. */
    method SetChildrenUnreactive()
      requires PoolValid(children, previews, nextId) && FocusKnown(focusedPreview, previews)
      modifies this`previews
      ensures PoolValid(children, previews, nextId) && FocusKnown(focusedPreview, previews)
      ensures previews == Unreactive(old(previews), children)
    {
      var j := 0;
      while j < |children|
        invariant 0 <= j <= |children|
        invariant previews.Keys == old(previews).Keys
        invariant previews == Unreactive(old(previews), children[..j])
      {
        var c := children[j];
        UnreactiveSnoc(old(previews), children[..j], c);
        assert children[..j + 1] == children[..j] + [c];
        previews := previews[c := previews[c].(reactive := false)];
        j := j + 1;
      }
      assert children[..j] == children;
    }

    /** One more preview made unreactive is one more map update. */
    static lemma UnreactiveSnoc(pool: map<PreviewId, Preview>, ids: seq<PreviewId>, c: PreviewId)
      requires c in pool
      ensures Unreactive(pool, ids + [c]) == Unreactive(pool, ids)[c := pool[c].(reactive := false)]
    {
      var a := Unreactive(pool, ids + [c]);
      var b := Unreactive(pool, ids)[c := pool[c].(reactive := false)];
      forall k | k in pool ensures a[k] == b[k] {
        if k != c && k in ids { assert k in ids + [c]; }
        if k != c && k !in ids { assert k !in ids + [c]; }
      }
    }

    /**
     * close: cancel the open and close timers, drop the focus, end the peek
     * session (back to its initial workspace), then either reset the hidden
     * state now or animate the popup out and reset once the animation ends;
     * the children stop reacting, the popup stops reacting, and no icon is
     * current any more.
     */
    method Close(immediate: bool)
      requires Valid()
      modifies this`timers, this`peek, this`focusedPreview, this`previews, this`children,
               this`menuVisible, this`isOpened, this`menuOpacity, this`menuTranslation, this`closeAnimationPending,
               this`menuReactive, this`currentAppIcon
      ensures Valid()
      ensures timers == Remove(EndOpenClose(old(timers)), PeekTimeout)
      ensures peek == PeekModel.EndPeek(old(peek), false, overviewVisible)
      ensures focusedPreview.None? && currentAppIcon.None? && !menuReactive
      ensures menuOpacity == 0 && menuTranslation == Offset()
      ensures immediate ==>
        && !isOpened && !menuVisible && children == [] && closeAnimationPending == old(closeAnimationPending)
        && previews == Unfocused(old(previews), old(focusedPreview))
      ensures !immediate ==>
        && isOpened == old(isOpened) && menuVisible == old(menuVisible) && children == old(children) && closeAnimationPending
        && previews == Unreactive(Unfocused(old(previews), old(focusedPreview)), old(children))
    {
      EndTimersFocusAndPeek();
      Hide(immediate);
      menuReactive := false;
      currentAppIcon := None;
    }

    /**
     * What an animated close leaves of the popup: no icon current, no focus,
     * the popup unreactive and heading for transparency off its edge, the
     * close completion due; the children, the opened flag, the visibility,
     * the next id and the position stay as they were until that completion.
     */
    twostate predicate ClosingAnimated()
      reads this`currentAppIcon, this`focusedPreview, this`menuReactive, this`closeAnimationPending, this`menuOpacity,
            this`menuTranslation, this`children, this`isOpened, this`menuVisible, this`nextId, this`menuPosition
    {
      && currentAppIcon.None? && focusedPreview.None? && !menuReactive && closeAnimationPending
      && menuOpacity == 0 && menuTranslation == Offset()
      && children == old(children) && isOpened == old(isOpened) && menuVisible == old(menuVisible)
      && nextId == old(nextId) && menuPosition == old(menuPosition)
    }

    /** The first steps of close: cancel the open and close timers, drop the focus, end the peek session. */
    method EndTimersFocusAndPeek()
      requires Valid()
      modifies this`timers, this`peek, this`focusedPreview, this`previews
      ensures Valid()
      ensures timers == Remove(EndOpenClose(old(timers)), PeekTimeout)
      ensures peek == PeekModel.EndPeek(old(peek), false, overviewVisible)
      ensures focusedPreview.None? && previews == Unfocused(old(previews), old(focusedPreview))
    {
      EndOpenCloseTimeouts();
      RemoveFocus();
      EndPeek(false);
    }

    /** The middle of close: reset now or animate out, then make the children unreactive. */
    method Hide(immediate: bool)
      requires Valid()
      modifies this`previews, this`children, this`menuVisible, this`isOpened, this`menuOpacity, this`menuTranslation,
               this`closeAnimationPending
      ensures Valid()
      ensures menuOpacity == 0 && menuTranslation == Offset()
      ensures immediate ==>
        && !isOpened && !menuVisible && children == [] && closeAnimationPending == old(closeAnimationPending)
        && previews == old(previews)
      ensures !immediate ==>
        && isOpened == old(isOpened) && menuVisible == old(menuVisible) && children == old(children) && closeAnimationPending
        && previews == Unreactive(old(previews), old(children))
    {
      if immediate {
        ResetHiddenState();
      } else {
        AnimateOpenOrClose(false);
      }
      SetChildrenUnreactive();
      if immediate {
        assert previews == old(previews);
      }
    }

    // --------------------------------------------------- size and position

    /** _getPreviewsSize: the extent of the children not animating out, stacked along the layout. */
    method GetPreviewsSize() returns (size: Size)
      requires HostSane() && ChildrenKnown(children, previews)
      ensures size == PreviewsSize(Slots(), LeftOrRight())
    {
      ghost var slots := Slots();
      var width, height := 0.0, 0.0;
      var i := 0;
      while i < |children|
        invariant 0 <= i <= |children|
        invariant Size(width, height) == PreviewsSize(slots[..i], LeftOrRight())
      {
        var c := previews[children[i]];
        if !c.animatingOut {
          // getSize
          var s := PreviewSize(Bin(), CloneFor(c.window), Padding());
          if LeftOrRight() {
            width := Max(s.width, width);
            height := height + s.height;
          } else {
            width := width + s.width;
            height := Max(s.height, height);
          }
        }
        assert slots[..i + 1][..i] == slots[..i];
        i := i + 1;
      }
      assert slots[..i] == slots;
      size := Size(width, height);
    }

    /**
     * _updatePosition: centre the popup on the current icon along the panel,
     * clamped to the monitor (set at once while closed, tweened while open).
     */
    method UpdatePosition()
      requires HostSane() && ChildrenKnown(children, previews) && currentAppIcon.Some?
      modifies this`menuPosition
      ensures menuPosition == PopupPosition(LeftOrRight(), display.monitor, host.iconBox(currentAppIcon.value),
                                            PreviewsSize(Slots(), LeftOrRight()))
    {
      var size := GetPreviewsSize();
      menuPosition := PopupPosition(LeftOrRight(), display.monitor, host.iconBox(currentAppIcon.value), size);
    }

    // ----------------------------------------------------------- opening

    /**
     * open: for an icon that is not the current one, make it current, show
     * the popup unless it is already open, merge in the icon's windows, place
     * the popup, animate it in and mark it reactive and opened. For the
     * current icon nothing happens.
     */
    method Open(icon: Icon)
      requires Valid()
      modifies this`currentAppIcon, this`menuVisible, this`previews, this`children, this`nextId, this`menuPosition,
               this`menuOpacity, this`menuTranslation, this`closeAnimationPending, this`menuReactive, this`isOpened
      ensures Valid()
      ensures old(currentAppIcon) == Some(icon) ==> unchanged(this)
      ensures old(currentAppIcon) != Some(icon) ==> OpenedOn(icon)
    {
      if currentAppIcon != Some(icon) {
        ShowIcon(icon);
        Present();
      }
    }

    /**
     * What open leaves for a new icon: the icon current, the popup shown,
     * opaque, untranslated, reactive and opened, the icon's windows merged in
     * (shown exactly, in order, when the menu was closed) and the popup placed
     * on the icon.
     */
    twostate predicate OpenedOn(icon: Icon)
      reads this
    {
      && HostSane() && ChildrenKnown(children, previews)
      && currentAppIcon == Some(icon) && isOpened && menuVisible && menuReactive
      && menuOpacity == FullOpacity && menuTranslation == 0 && !closeAnimationPending
      && MergedFrom(old(children), old(previews), old(nextId), host.iconWindows(icon), old(isOpened))
      && (!old(isOpened) ==> ChildWindows() == host.iconWindows(icon))
      && (Distinct(host.iconWindows(icon)) ==> LiveDistinct(children, previews))
      && menuPosition == PopupPosition(LeftOrRight(), display.monitor, host.iconBox(icon), PreviewsSize(Slots(), LeftOrRight()))
    }

    /** The first half of open: the icon becomes current, the popup is shown and the icon's windows merged in. */
    method ShowIcon(icon: Icon)
      requires Valid()
      modifies this`currentAppIcon, this`menuVisible, this`previews, this`children, this`nextId
      ensures Valid()
      ensures currentAppIcon == Some(icon) && menuVisible
      ensures MergedFrom(old(children), old(previews), old(nextId), host.iconWindows(icon), isOpened)
      ensures !isOpened ==> ChildWindows() == host.iconWindows(icon)
      ensures Distinct(host.iconWindows(icon)) ==> LiveDistinct(children, previews)
    {
      ghost var C, pool, base := children, previews, nextId;
      currentAppIcon := Some(icon);
      if !isOpened {
        menuVisible := true;
      }
      MergeWindows(host.iconWindows(icon));
      assert MergedFrom(C, pool, base, host.iconWindows(icon), isOpened);
      assert FocusKnown(focusedPreview, previews);
    }

    /** The second half of open: place the popup, animate it in, mark it reactive and opened. */
    method Present()
      requires Valid() && currentAppIcon.Some? && menuVisible
      modifies this`menuPosition, this`menuOpacity, this`menuTranslation, this`closeAnimationPending, this`menuReactive,
               this`isOpened
      ensures Valid()
      ensures isOpened && menuReactive && menuOpacity == FullOpacity && menuTranslation == 0 && !closeAnimationPending
      ensures menuPosition == PopupPosition(LeftOrRight(), display.monitor, host.iconBox(currentAppIcon.value),
                                            PreviewsSize(Slots(), LeftOrRight()))
    {
      UpdatePosition();
      AnimateOpenOrClose(true);
      MarkOpened();
    }

    /** The last steps of open: the popup reacts to input and the menu counts as opened. */
    method MarkOpened()
      requires Valid() && menuVisible
      modifies this`menuReactive, this`isOpened
      ensures Valid() && menuReactive && isOpened
    {
      menuReactive := true;
      isOpened := true;
    }

    /**
     * update: only for the current icon. An empty window list closes the menu
     * (animated); otherwise the list is reconciled with the children and the
     * popup re-placed.
     */
    method Update(icon: Icon, windows: seq<Window>)
      requires Valid()
      modifies this`timers, this`peek, this`focusedPreview, this`previews, this`children, this`nextId,
               this`menuVisible, this`isOpened, this`menuOpacity, this`menuTranslation, this`closeAnimationPending,
               this`menuReactive, this`currentAppIcon, this`menuPosition
      ensures Valid()
      ensures old(currentAppIcon) != Some(icon) ==> unchanged(this)
      ensures old(currentAppIcon) == Some(icon) && windows == [] ==>
        && ClosingAnimated()
        && timers == Remove(EndOpenClose(old(timers)), PeekTimeout)
        && peek == PeekModel.EndPeek(old(peek), false, overviewVisible)
        && previews == Unreactive(Unfocused(old(previews), old(focusedPreview)), old(children))
      ensures old(currentAppIcon) == Some(icon) && windows != [] ==>
        && ReconciledFrom(old(children), old(previews), old(nextId), windows, old(ChildWindows()))
        && (Distinct(windows) ==> LiveDistinct(children, previews))
        && menuPosition == PopupPosition(LeftOrRight(), display.monitor, host.iconBox(icon), PreviewsSize(Slots(), LeftOrRight()))
        && currentAppIcon == old(currentAppIcon) && timers == old(timers) && peek == old(peek)
        && focusedPreview == old(focusedPreview) && isOpened == old(isOpened) && menuVisible == old(menuVisible)
        && menuReactive == old(menuReactive) && menuOpacity == old(menuOpacity) && menuTranslation == old(menuTranslation)
        && closeAnimationPending == old(closeAnimationPending)
    {
      if currentAppIcon == Some(icon) {
        if windows == [] {
          Close(false);
        } else {
          UpdateWindows(windows);
        }
      }
    }

    /** The non-empty case of update: reconcile the children with the windows, then re-place the popup. */
    method UpdateWindows(windows: seq<Window>)
      requires Valid() && currentAppIcon.Some?
      modifies this`previews, this`children, this`nextId, this`menuPosition
      ensures Valid()
      ensures ReconciledFrom(old(children), old(previews), old(nextId), windows, old(ChildWindows()))
      ensures Distinct(windows) ==> LiveDistinct(children, previews)
      ensures menuPosition == PopupPosition(LeftOrRight(), display.monitor, host.iconBox(currentAppIcon.value),
                                            PreviewsSize(Slots(), LeftOrRight()))
    {
      ReconcileWindows(windows);
      UpdatePosition();
    }

    /** _addAndRemoveWindows within the menu: the menu invariant survives the reconciliation. */
    method ReconcileWindows(windows: seq<Window>)
      requires Valid()
      modifies this`previews, this`children, this`nextId
      ensures Valid()
      ensures Reconciled(windows, old(ChildWindows()))
      ensures Distinct(windows) ==> LiveDistinct(children, previews)
    {
      AddAndRemoveWindows(windows);
      assert FocusKnown(focusedPreview, previews);
    }

    /** _onHoverChanged of the popup: cancel the open and close timers; leaving it with an icon current schedules a close. */
    method MenuHoverChanged(hover: bool)
      requires PeekValid(peek, timers)
      modifies this`timers
      ensures PeekValid(peek, timers)
      ensures timers == if currentAppIcon.Some? && !hover
                        then Add(EndOpenClose(old(timers)), CloseMenuTimeout, settings.leaveTimeout, CloseMenu)
                        else EndOpenClose(old(timers))
    {
      EndOpenCloseTimeouts();
      if currentAppIcon.Some? && !hover {
        AddCloseTimeout();
      }
    }

    // ------------------------------------------------ animation completions

    /** The close animation's onComplete: the hidden-state reset, if that animation is still the current one. */
    method CloseAnimationFinished()
      requires Valid()
      modifies this`closeAnimationPending, this`menuVisible, this`isOpened, this`menuOpacity, this`menuTranslation,
               this`children
      ensures Valid()
      ensures !old(closeAnimationPending) ==> unchanged(this)
      ensures old(closeAnimationPending) ==>
        && !closeAnimationPending && !menuVisible && !isOpened && menuOpacity == 0 && menuTranslation == Offset()
        && children == []
    {
      if closeAnimationPending {
        closeAnimationPending := false;
        ResetHiddenState();
      }
    }

    /** animateOut's onComplete: the preview is destroyed, leaving the box. */
    method AnimateOutFinished(id: PreviewId)
      requires Valid() && id in previews && previews[id].animatingOut
      modifies this`children
      ensures Valid()
      ensures children == Without(old(children), id)
      ensures forall x :: x in children <==> x in old(children) && x != id
    {
      DestroyPreview(id);
    }

    // ---------------------------------------------------------- timer firing

    /**
     * A pending timer fires: its entry is dropped first, then its callback
     * runs (open the icon, close animated, peek, or focus after a switch).
     */
    method FireTimer(name: TimerName)
      requires Valid() && name in timers
      modifies this`timers, this`peek, this`focusedPreview, this`previews, this`children, this`nextId,
               this`menuVisible, this`isOpened, this`menuOpacity, this`menuTranslation, this`closeAnimationPending,
               this`menuReactive, this`currentAppIcon, this`menuPosition
      ensures Valid()
      ensures old(timers)[name].action.OpenMenu? ==>
        var icon := old(timers)[name].action.icon;
        && timers == Remove(old(timers), name) && peek == old(peek) && focusedPreview == old(focusedPreview)
        && (old(currentAppIcon) == Some(icon) ==> PopupUntouched())
        && (old(currentAppIcon) != Some(icon) ==> OpenedOn(icon))
      ensures old(timers)[name].action.CloseMenu? ==>
        && timers == Remove(EndOpenClose(old(timers)), PeekTimeout)
        && peek == PeekModel.EndPeek(old(peek), false, overviewVisible)
        && ClosingAnimated()
        && previews == Unreactive(Unfocused(old(previews), old(focusedPreview)), old(children))
      ensures old(timers)[name].action.PeekWindow? ==>
        var w := old(timers)[name].action.window;
        && peek == PeekAt(old(peek), w, host.workspaceOf(w), settings.peekModeOpacity, overviewVisible)
        && timers == (if PeekSwitches(old(peek), host.workspaceOf(w))
                      then Add(Remove(old(timers), name), PeekTimeout, FocusAfterSwitchDelay, FocusWindow(settings.peekModeOpacity, w))
                      else Remove(old(timers), name))
        && PopupUntouched() && focusedPreview == old(focusedPreview)
      ensures old(timers)[name].action.FocusWindow? ==>
        var a := old(timers)[name].action;
        && peek == Focus(old(peek), a.dim, Some(a.window), overviewVisible)
        && timers == Remove(old(timers), name)
        && PopupUntouched() && focusedPreview == old(focusedPreview)
    {
      match timers[name].action {
        case OpenMenu(icon) => FireOpen(name, icon);
        case CloseMenu => FireClose(name);
        case PeekWindow(w) => FirePeek(name, w);
        case FocusWindow(dim, w) => FireFocus(name, dim, w);
      }
    }

    /** Neither the current icon nor the pool nor the popup's own targets have changed. */
    twostate predicate PopupUntouched()
      reads this
    {
      && currentAppIcon == old(currentAppIcon) && isOpened == old(isOpened)
      && previews == old(previews) && children == old(children) && nextId == old(nextId)
      && menuVisible == old(menuVisible) && menuReactive == old(menuReactive) && menuOpacity == old(menuOpacity)
      && menuTranslation == old(menuTranslation) && menuPosition == old(menuPosition)
      && closeAnimationPending == old(closeAnimationPending)
    }

    /** The open timer fires. */
    method FireOpen(name: TimerName, icon: Icon)
      requires Valid() && name in timers && timers[name].action == OpenMenu(icon)
      modifies this`timers, this`currentAppIcon, this`menuVisible, this`previews, this`children, this`nextId,
               this`menuPosition, this`menuOpacity, this`menuTranslation, this`closeAnimationPending, this`menuReactive,
               this`isOpened
      ensures Valid()
      ensures timers == Remove(old(timers), name)
      ensures old(currentAppIcon) == Some(icon) ==> PopupUntouched()
      ensures old(currentAppIcon) != Some(icon) ==> OpenedOn(icon)
    {
      timers := Remove(timers, name);
      Open(icon);
    }

    /** The close timer fires: close, animated. */
    method FireClose(name: TimerName)
      requires Valid() && name in timers && timers[name].action == CloseMenu
      modifies this`timers, this`peek, this`focusedPreview, this`previews, this`children,
               this`menuVisible, this`isOpened, this`menuOpacity, this`menuTranslation, this`closeAnimationPending,
               this`menuReactive, this`currentAppIcon
      ensures Valid()
      ensures timers == Remove(EndOpenClose(old(timers)), PeekTimeout)
      ensures peek == PeekModel.EndPeek(old(peek), false, overviewVisible)
      ensures ClosingAnimated()
      ensures previews == Unreactive(Unfocused(old(previews), old(focusedPreview)), old(children))
    {
      EndOpenCloseAbsorbs(timers, name);
      timers := Remove(timers, name);
      Close(false);
    }

    /** The peek timer fires with a peek at a window. */
    method FirePeek(name: TimerName, w: Window)
      requires Valid() && name in timers && timers[name].action == PeekWindow(w)
      modifies this`timers, this`peek
      ensures Valid()
      ensures peek == PeekAt(old(peek), w, host.workspaceOf(w), settings.peekModeOpacity, overviewVisible)
      ensures timers == if PeekSwitches(old(peek), host.workspaceOf(w))
                        then Add(Remove(old(timers), name), PeekTimeout, FocusAfterSwitchDelay, FocusWindow(settings.peekModeOpacity, w))
                        else Remove(old(timers), name)
    {
      timers := Remove(timers, name);
      Peek(w);
    }

    /** The peek timer fires with the focus that follows a workspace switch. */
    method FireFocus(name: TimerName, dim: int, w: Window)
      requires Valid() && name in timers && timers[name].action == FocusWindow(dim, w)
      modifies this`timers, this`peek
      ensures Valid()
      ensures peek == Focus(old(peek), dim, Some(w), overviewVisible)
      ensures timers == Remove(old(timers), name)
    {
      timers := Remove(timers, name);
      FocusMetaWindow(dim, Some(w));
    }

    // ------------------------------------------------- preview interaction

    /** A preview's _onHoverChanged: it takes the focus highlight while hovered (the menu's focused preview is untouched). */
    method PreviewHoverChanged(id: PreviewId, hover: bool)
      requires Valid() && id in previews
      modifies this`previews, this`timers, this`peek
      ensures Valid()
      ensures previews == WithFocus(old(previews), id, hover)
      ensures hover ==> PeekRequested(old(timers), old(peek), old(previews)[id].window)
      ensures !hover ==> timers == old(timers) && peek == old(peek)
    {
      SetFocus(id, hover);
    }

    /**
     * What activating a preview showing w leaves: the host asked to activate
     * w, the peek session ended on the current workspace, all three timers
     * cancelled, the menu closing (animated) and the previews unfocused and
     * unreactive.
     */
    twostate predicate Activated(w: Window)
      reads this
    {
      && hostRequests == old(hostRequests) + [ActivateWindow(w)]
      && peek == PeekModel.EndPeek(old(peek), true, overviewVisible)
      && timers == Remove(EndOpenClose(old(timers)), PeekTimeout)
      && ClosingAnimated()
      && previews == Unreactive(Unfocused(old(previews), old(focusedPreview)), old(children))
    }

    /**
     * activate: end the peek session staying on the window's workspace, close
     * the menu (animated) and ask the host to activate the window.
     */
    method Activate(id: PreviewId)
      requires Valid() && id in previews
      modifies this`timers, this`peek, this`focusedPreview, this`previews, this`children,
               this`menuVisible, this`isOpened, this`menuOpacity, this`menuTranslation, this`closeAnimationPending,
               this`menuReactive, this`currentAppIcon, this`hostRequests
      ensures Valid()
      ensures Activated(old(previews)[id].window)
    {
      var w := previews[id].window;
      EndOpenCloseCommutes(timers);
      EndPeekEnds(peek, true, overviewVisible);
      EndPeekHere();
      EndAndClose();
      hostRequests := hostRequests + [ActivateWindow(w)];
    }

    /** close (animated) once the peek session has ended: the session stays ended and the peek timer cancelled. */
    method EndAndClose()
      requires Valid() && peek.peekedWindow.None? && PeekTimeout !in timers
      modifies this`timers, this`peek, this`focusedPreview, this`previews, this`children,
               this`menuVisible, this`isOpened, this`menuOpacity, this`menuTranslation, this`closeAnimationPending,
               this`menuReactive, this`currentAppIcon
      ensures Valid()
      ensures peek == old(peek) && timers == EndOpenClose(old(timers))
      ensures ClosingAnimated()
      ensures previews == Unreactive(Unfocused(old(previews), old(focusedPreview)), old(children))
    {
      EndPeekIdle(peek, false, overviewVisible);
      RemoveAbsent(EndOpenClose(timers), PeekTimeout);
      Close(false);
    }

    /**
     * What a click on the close button of preview id leaves: the host asked
     * to delete its window, its close button hidden and the preview no longer
     * reacting; with grouped apps nothing else changes, otherwise the menu is
     * closing (animated) as close leaves it.
     */
    twostate predicate CloseClicked(id: PreviewId)
      requires id in old(previews)
      reads this
    {
      var marked := old(previews)[id := old(previews)[id].(closeButtonShown := false, reactive := false)];
      && hostRequests == old(hostRequests) + [DeleteWindow(old(previews)[id].window)]
      && (settings.groupApps ==>
            && previews == marked && timers == old(timers) && peek == old(peek) && focusedPreview == old(focusedPreview)
            && currentAppIcon == old(currentAppIcon) && isOpened == old(isOpened) && children == old(children)
            && nextId == old(nextId) && menuVisible == old(menuVisible) && menuReactive == old(menuReactive)
            && menuOpacity == old(menuOpacity) && menuTranslation == old(menuTranslation)
            && menuPosition == old(menuPosition) && closeAnimationPending == old(closeAnimationPending))
      && (!settings.groupApps ==>
            && timers == Remove(EndOpenClose(old(timers)), PeekTimeout)
            && peek == PeekModel.EndPeek(old(peek), false, overviewVisible)
            && ClosingAnimated()
            && previews == Unreactive(Unfocused(marked, old(focusedPreview)), old(children)))
    }

    /**
     * _onCloseBtnClick: ask the host to delete the window, hide the close
     * button, stop the preview reacting, and close the menu (animated) unless
     * windows are grouped by application.
     */
    method CloseButtonClicked(id: PreviewId)
      requires Valid() && id in previews
      modifies this`timers, this`peek, this`focusedPreview, this`previews, this`children,
               this`menuVisible, this`isOpened, this`menuOpacity, this`menuTranslation, this`closeAnimationPending,
               this`menuReactive, this`currentAppIcon, this`hostRequests
      ensures Valid()
      ensures CloseClicked(id)
    {
      var w := previews[id].window;
      hostRequests := hostRequests + [DeleteWindow(w)];
      previews := previews[id := previews[id].(closeButtonShown := false, reactive := false)];
      if !settings.groupApps {
        Close(false);
      }
    }

    /** _onButtonReleaseEvent: the left button activates, the middle one closes the window when so configured. */
    method ButtonReleased(id: PreviewId, button: int)
      requires Valid() && id in previews
      modifies this`timers, this`peek, this`focusedPreview, this`previews, this`children,
               this`menuVisible, this`isOpened, this`menuOpacity, this`menuTranslation, this`closeAnimationPending,
               this`menuReactive, this`currentAppIcon, this`hostRequests
      ensures Valid()
      ensures button == 1 ==> Activated(old(previews)[id].window)
      ensures button == 2 && settings.middleClickClose ==> CloseClicked(id)
      ensures button != 1 && !(button == 2 && settings.middleClickClose) ==> unchanged(this)
    {
      if button == 1 {
        Activate(id);
      } else if button == 2 {
        if settings.middleClickClose {
          CloseButtonClicked(id);
        }
      }
    }

    /** activateFocused: while open, activate the focused preview, if any. */
    method ActivateFocused()
      requires Valid()
      modifies this`timers, this`peek, this`focusedPreview, this`previews, this`children,
               this`menuVisible, this`isOpened, this`menuOpacity, this`menuTranslation, this`closeAnimationPending,
               this`menuReactive, this`currentAppIcon, this`hostRequests
      ensures Valid()
      ensures old(isOpened) && old(focusedPreview).Some? ==> Activated(old(previews)[old(focusedPreview).value].window)
      ensures !(old(isOpened) && old(focusedPreview).Some?) ==> unchanged(this)
    {
      if isOpened && focusedPreview.Some? {
        Activate(focusedPreview.value);
      }
    }

    /** The overview being shown or hidden, as the host reports it. */
    method SetOverviewVisible(visible: bool)
      modifies this`overviewVisible
      ensures overviewVisible == visible
    {
      overviewVisible := visible;
    }
  }
}
