# Window previews of the taskbar

This project models the window-preview popup of a GNOME Shell taskbar extension: `windowPreview.js`.

A **PreviewMenu** is a single popup attached to the panel. While the pointer rests on a launcher icon, the popup shows one **Preview** thumbnail per window of that icon: in a row for a horizontal panel, in a column for a vertical one. Opening and closing are debounced through three named timers: `openMenuTimeout`, `closeMenuTimeout` and `peekTimeout`. The keyboard can cycle the focus through the previews. Hovering a preview sets the focus on it, and after a delay that starts a **peek** session:
- the focused window is raised above the others;
- every other window is dimmed;
- the workspace is switched when the window lives elsewhere.

Ending the peek puts the stacking order back. It undims every window and returns to the workspace the session started from, unless the user activated the window, in which case it stays where it is. When the icon's window list changes, the previews are reconciled with it by window identity. Opening the popup on another icon reuses the existing previews by position.

Modules:

- `HostTypes`: windows, workspaces and icons as identities, and `Option`.
- `Sequences`: duplicate freedom, `indexOf`, removal of one element.
- `Stacking`: the window stacking order as a sequence, bottom first. It covers raising to the top (`set_child_above_sibling(actor, null)`) and moving back to an index (`set_child_at_index`).
- `Timers`: the `TimeoutsHandler` table as a map from timer name to pending callback.
- `Geometry`: the placement and sizing arithmetic, over exact rationals. `Math.floor` is modelled as `.Floor`.
- `PeekModel`: the peek sub-machine, written as functions on the state it changes. That state is:
  - the peeked window;
  - the initial workspace;
  - the stacking order;
  - the active workspace;
  - the actor opacities;
  - the saved stacking indices.
- `Reconcile`: the identity-based reconciliation of `_addAndRemoveWindows`, as a function on positions.
- `WindowPreview`: the class `PreviewMenu`.
  - Its fields are the menu's state (current icon, opened flag, focused preview, timers), the popup actor's target values, and the peek state.
  - The previews are a pool `previews: map<PreviewId, Preview>` with the box's children `children: seq<PreviewId>` in order.
  - Every method states its whole new state against the old one, or against the functions of the modules above. The class also keeps the invariant `Valid()`.

Some host interaction is modelled as data, and some happens in explicit steps:
- The host's answers form the constant `host`: a window's workspace and actor size, an icon's windows, and the icon's geometry.
- Settings and display parameters are constants.
- Requests to activate or delete a window are appended to `hostRequests`.
- A timer firing is the explicit step `FireTimer`. A running tween is its target value. Its completion is an explicit step: `CloseAnimationFinished` or `AnimateOutFinished`.

## Model

| member | source | states |
|---|---|---|
| Timers.Add | windowPreview.js:138 | scheduling under a name replaces only that name's pending callback; every other timer is kept |
| Timers.Remove | windowPreview.js:216 | cancelling a name drops exactly that timer and keeps every other one unchanged |
| Timers.EndOpenClose | windowPreview.js:322-325 | no open or close timer is left pending; the peek timer is untouched |
| Timers.EndOpenCloseCommutes | windowPreview.js:657-659 | cancelling the peek timer and the open/close timers gives the same table in either order |
| Timers.EndOpenCloseAbsorbs | windowPreview.js:322-325 | cancelling the open or close timer just before `_endOpenCloseTimeouts` makes no difference |
| Timers.RemoveAbsent | windowPreview.js:463 | cancelling a timer that is not pending leaves the table as it was |
| Timers.OpenThenCloseCancelsOpen | windowPreview.js:136-144 | debounce: requestOpen then requestClose leaves only the close pending (and any peek timer), so the open never fires |
| Timers.CloseThenOpenCancelsClose | windowPreview.js:136-144 | the converse order leaves only the open pending |
| WindowPreview.PreviewMenu.constructor | windowPreview.js:55-95 | after `_init` and `enable`: no icon, not opened, no focus, no timers, no previews, popup hidden, transparent, translated off its edge, at (1, 1), and clipped to `Geometry.ClipRect` for the panel side and the preview size (`_updateClip`) |
| WindowPreview.PreviewMenu.RequestOpen | windowPreview.js:136-139 | a pending open or close is cancelled and exactly one open for the icon is pending, after `show-window-previews-timeout`; the peek timer is untouched |
| WindowPreview.PreviewMenu.RequestClose | windowPreview.js:141-144 | a pending open or close is cancelled and exactly one close is pending, after `leave-timeout` |
| WindowPreview.PreviewMenu.AddCloseTimeout | windowPreview.js:286-288 | the close timer is (re)scheduled with `leave-timeout`, nothing else changes |
| WindowPreview.PreviewMenu.EndOpenCloseTimeouts | windowPreview.js:322-325 | the timers become `EndOpenClose` of the old ones |
| WindowPreview.PreviewMenu.MenuHoverChanged | windowPreview.js:290-296 | open and close timers cancelled; leaving the popup while an icon is current schedules the close, entering it schedules nothing |
| WindowPreview.PreviewMenu.SwitchToWorkspaceImmediate | windowPreview.js:478-482 | only the active workspace changes, to the given one |
| WindowPreview.PreviewMenu.FocusMetaWindow | windowPreview.js:484-508 | the peek state becomes `PeekModel.Focus` of the old one (nothing at all while the overview is visible); the stacking stays duplicate-free |
| WindowPreview.PreviewMenu.DimAndRaise | windowPreview.js:489-507 | the bottom-to-top walk over the actors raises the target to the top, saves its old stacking index and gives the target full and every other actor the dim opacity |
| WindowPreview.PreviewMenu.RestorePeekedWindowStack | windowPreview.js:510-523 | the peek state becomes `PeekModel.Restore` of the old one; the stacking stays duplicate-free |
| WindowPreview.PreviewMenu.EndPeek | windowPreview.js:462-476 | the peek timer is cancelled and the peek state becomes `PeekModel.EndPeek` of the old one |
| WindowPreview.PreviewMenu.EndSession | windowPreview.js:465-475 | with a peeked window: restore the stacking, return to the initial workspace unless staying, undim all, clear the session |
| WindowPreview.PreviewMenu.EndPeekHere | windowPreview.js:227-229 | `_endPeek(true)`: the session ends, staying on the current workspace |
| WindowPreview.PreviewMenu.Peek | windowPreview.js:443-460 | the peek state becomes `PeekModel.PeekAt`; a peek on another workspace schedules the focus 100 ms later under the peek timer, otherwise no timer changes |
| WindowPreview.PreviewMenu.RequestPeek | windowPreview.js:215-225 | the pending peek is always cancelled; with peek mode off nothing else changes; outside a session a peek is scheduled after `enter-peek-mode-timeout`; inside one the peek happens at once |
| WindowPreview.PreviewMenu.AddNewPreview | windowPreview.js:274-280 | a new preview with a fresh id, showing the window, is appended as the last child |
| WindowPreview.PreviewMenu.AssignWindow | windowPreview.js:619-628 | only the preview's window changes |
| WindowPreview.PreviewMenu.AnimateOut | windowPreview.js:630-637 | only the preview's animating-out flag is set |
| WindowPreview.PreviewMenu.DestroyPreview | windowPreview.js:251 | the preview leaves the box; every other child keeps its place and the children stay duplicate-free |
| WindowPreview.PreviewMenu.MergeWindows | windowPreview.js:238-254 | positional reuse (`MergedState`): the i-th child is rebound to the i-th window when it shows another one and kept as it is otherwise, missing previews are appended with fresh ids, surplus children are removed while closed and animated out while open; no preview leaves the pool; while closed the children then show exactly the windows, in order; for a duplicate-free list the children not animating out show pairwise different windows |
| WindowPreview.PreviewMenu.MergeFinished | windowPreview.js:243-253 | after the last loop iteration the pool is the merged pool |
| WindowPreview.PreviewMenu.MergeShowsWindows | windowPreview.js:243-251 | a merge while closed leaves one child per window, showing it, in order |
| WindowPreview.PreviewMenu.FindPreview | windowPreview.js:262 | `Utils.findIndex` over previews: the first preview showing the window, or -1 exactly when none does |
| WindowPreview.PreviewMenu.AddAndRemoveWindows | windowPreview.js:256-272 | identity-based reconciliation (`ReconciledFrom`): the old children stay in place and in the pool, new previews for the windows `Reconcile.Run` queued are appended with fresh ids, the children it leaves unclaimed are animated out, and no preview is rebound; for a duplicate-free list the children not animating out show pairwise different windows |
| WindowPreview.PreviewMenu.ReconcileWindows | windowPreview.js:187 | `_addAndRemoveWindows` within an open menu keeps the menu invariant and the one-live-preview-per-window property for a duplicate-free list |
| WindowPreview.PreviewMenu.MergeLiveDistinct | windowPreview.js:243-251 | after a merge with a duplicate-free list, every child is either animating out or shows the window at its position, so the live children show pairwise different windows |
| WindowPreview.PreviewMenu.ReconciledPositions | windowPreview.js:258-271 | each child after a reconciliation is animating out, a claimed old child showing its old window, or a new child showing its queued window |
| WindowPreview.PreviewMenu.ReconcileLiveDistinct | windowPreview.js:258-271 | after reconciling with a duplicate-free window list, the children not animating out show pairwise different windows |
| WindowPreview.PreviewMenu.ReconcileIdempotent | windowPreview.js:256-272 | a second `_addAndRemoveWindows` with the same list creates no preview, animates out nothing new and leaves children, pool and next id as they were |
| WindowPreview.PreviewMenu.ReconciledWindows | windowPreview.js:256-272 | after a reconciliation the children show the old windows followed by the queued new ones |
| WindowPreview.PreviewMenu.PassWithoutEffect | windowPreview.js:258-271 | a pass that queues nothing and leaves over only previews already animating out changes nothing |
| WindowPreview.PreviewMenu.ReturningWindowLosesPreview | windowPreview.js:258-271 | a window whose preview is animating out gets that dying preview back: with previews [7 dying, 9] and the list [9, 7], every child showing 7 is animating out |
| WindowPreview.PreviewMenu.SetFocus | windowPreview.js:648-655 | the preview is highlighted and shows its close button iff focused; gaining the focus requests a peek at its window, losing it touches no timer or peek state |
| WindowPreview.PreviewMenu.RemoveFocus | windowPreview.js:231-236 | the focused preview, if any, loses its highlight and the menu has no focused preview |
| WindowPreview.PreviewMenu.FocusedIndex | windowPreview.js:195 | the focused preview's index among the children, -1 exactly when there is none or it is no child |
| WindowPreview.PreviewMenu.FocusNext | windowPreview.js:193-207 | with children: the focus moves to child (old index + 1) mod count (the first when none was focused), the old focus loses its highlight, the new one gains it and a peek at its window is requested, and the index is returned; with no children nothing changes and 0 is returned |
| WindowPreview.PreviewMenu.CyclicSuccessor | windowPreview.js:196-198 | the successor index wraps to 0 exactly past the last child |
| WindowPreview.PreviewMenu.FocusChild | windowPreview.js:200-204 | the old focus is dropped and the k-th child becomes the focused, highlighted preview with a peek requested |
| WindowPreview.PreviewMenu.AnimateOpenOrClose | windowPreview.js:420-437 | opacity heads for 255 or 0 and the translation for 0 or the off-edge offset; a close leaves its completion due |
| WindowPreview.PreviewMenu.ResetHiddenState | windowPreview.js:333-339 | hidden, not opened, transparent, translated off-edge, and no children |
| WindowPreview.PreviewMenu.DestroyChildren | windowPreview.js:338 | every child is destroyed; the box is empty |
| WindowPreview.PreviewMenu.SetChildrenUnreactive | windowPreview.js:177 | every child, and no other preview, stops reacting to input |
| WindowPreview.PreviewMenu.Close | windowPreview.js:166-180 | open, close and peek timers cancelled, focus dropped, the peek ended back on its initial workspace, no icon current, popup unreactive; immediate: hidden state now; otherwise a close animation due and the children unreactive |
| WindowPreview.PreviewMenu.EndTimersFocusAndPeek | windowPreview.js:167-169 | the first three steps of close, each as its own contract states |
| WindowPreview.PreviewMenu.Hide | windowPreview.js:171-177 | reset at once or animate out; then the children stop reacting |
| WindowPreview.PreviewMenu.GetPreviewsSize | windowPreview.js:399-418 | the extent is `Geometry.PreviewsSize` of the children (visible ones summed along the layout, the largest across it) |
| WindowPreview.PreviewMenu.UpdatePosition | windowPreview.js:372-397 | the popup's position is `Geometry.PopupPosition` for the current icon and the children's extent |
| WindowPreview.PreviewMenu.Open | windowPreview.js:146-164 | for the current icon nothing changes; otherwise (`OpenedOn`) the icon becomes current, the icon's windows are merged in (shown exactly, in order, when the menu was closed; live children distinct for a duplicate-free list), the popup is placed on the icon, shown, opaque, untranslated, reactive and opened, with no close animation due |
| WindowPreview.PreviewMenu.ShowIcon | windowPreview.js:147-157 | the icon becomes current, the popup is shown, the windows merged in; for a duplicate-free list the live children show distinct windows |
| WindowPreview.PreviewMenu.Present | windowPreview.js:158-162 | placed on the icon, animated in, reactive and opened |
| WindowPreview.PreviewMenu.MarkOpened | windowPreview.js:160-161 | reactive and opened, the invariant kept |
| WindowPreview.PreviewMenu.Update | windowPreview.js:182-191 | only for the current icon; an empty list closes the menu (animated: timers, peek, previews, opacity and translation as close sets them; children, next id, position and visibility kept); any other list is reconciled with the children and the popup re-placed, with timers, peek, icon, focus, opened and visible flags, reactivity, opacity, translation and the due completion unchanged |
| WindowPreview.PreviewMenu.UpdateWindows | windowPreview.js:187-188 | reconciled, then the popup placed for the new extent |
| WindowPreview.PreviewMenu.CloseAnimationFinished | windowPreview.js:426-434 | the hidden-state reset when a close animation is due; nothing otherwise |
| WindowPreview.PreviewMenu.AnimateOutFinished | windowPreview.js:631 | the animated-out preview leaves the box; the others keep their places |
| WindowPreview.PreviewMenu.FireTimer | windowPreview.js:136-144 | the fired entry is dropped, then: an open of the current icon changes nothing else, of another icon opens it as Open states; a close closes (animated) as Close states; a peek peeks at its window and a focus focuses it, the popup and focus untouched |
| WindowPreview.PreviewMenu.FireOpen | windowPreview.js:138 | the entry is dropped; the current icon leaves the popup untouched, another icon is opened as Open states |
| WindowPreview.PreviewMenu.FireClose | windowPreview.js:287 | close (animated): all three timers cancelled, the session ended, no icon or focus, the popup unreactive and heading for transparent and off-edge with its completion due, children, visibility and position kept, the children unreactive and unfocused |
| WindowPreview.PreviewMenu.FirePeek | windowPreview.js:220 | the entry is dropped, then `_peek` as Peek states |
| WindowPreview.PreviewMenu.FireFocus | windowPreview.js:446-452 | the entry is dropped, then `_focusMetaWindow` with the peek opacity |
| WindowPreview.PreviewMenu.PreviewHoverChanged | windowPreview.js:667-669 | setFocus(hover) on that preview |
| WindowPreview.PreviewMenu.Activate | windowPreview.js:657-661 | (`Activated`) the host is asked to activate the window, the session ends staying here, the peek timer and the open and close timers are cancelled, and the menu closes (animated) with the children unfocused and unreactive |
| WindowPreview.PreviewMenu.EndAndClose | windowPreview.js:658-659 | once the session has ended, close leaves the peek state and the (absent) peek timer as they are and closes the menu (animated) as Close states |
| WindowPreview.PreviewMenu.CloseButtonClicked | windowPreview.js:671-679 | (`CloseClicked`) the host is asked to delete the window, the close button hides and the preview stops reacting; with grouped apps nothing else changes; otherwise the menu closes (animated) as Close states |
| WindowPreview.PreviewMenu.ButtonReleased | windowPreview.js:681-694 | button 1 activates as Activate states; button 2 deletes the window as CloseButtonClicked states when middle-click close is on; anything else changes nothing |
| WindowPreview.PreviewMenu.ActivateFocused | windowPreview.js:209-213 | while opened with a focused preview, that preview is activated as Activate states; otherwise nothing changes |
| WindowPreview.PreviewMenu.SetOverviewVisible | windowPreview.js:485 | the host's overview-visibility input: only the flag `_focusMetaWindow` reads changes |
| WindowPreview.WithFocus | windowPreview.js:649 | the preview's highlight and close button follow `focused`; nothing else in the pool changes |
| WindowPreview.Unfocused | windowPreview.js:231-236 | the focused preview, if any, loses the highlight; otherwise the pool is unchanged |
| WindowPreview.Unreactive | windowPreview.js:177 | exactly the listed previews become unreactive |
| Stacking.RaiseToTop | windowPreview.js:498 | a present window ends on top with the length kept; an absent one changes nothing |
| Stacking.MoveToIndex | windowPreview.js:515 | the window ends at the index (on top when the index is past the end), length kept |
| Stacking.RestoreAfterRaise | windowPreview.js:497-516 | raising a window and moving it back to the index it had restores the stacking order exactly |
| Stacking.RaiseToTopPermutes | windowPreview.js:498 | raising keeps the same windows, duplicate-free |
| Stacking.MoveToIndexPermutes | windowPreview.js:515 | moving keeps the same windows, duplicate-free |
| PeekModel.OpacitiesTargets | windowPreview.js:491-507 | after the walk, every actor has full opacity if it is the target and the dim value otherwise; windows without an actor keep theirs |
| PeekModel.Focus | windowPreview.js:484-508 | `_focusMetaWindow`: nothing while in the overview; otherwise the target is peeked, raised to the top with its old index saved, and workspaces and stack length are kept |
| PeekModel.Restore | windowPreview.js:510-523 | `_restorePeekedWindowStack`: a peeked window with a saved index is moved back there and its index dropped; otherwise nothing changes |
| PeekModel.EndPeek | windowPreview.js:462-476 | `_endPeek`: no window is peeked afterwards, a running session forgets its initial workspace, and without one nothing changes |
| PeekModel.PeekAt | windowPreview.js:443-460 | `_peek`: the active workspace becomes the window's, the initial workspace is remembered the first time, and the window is peeked when it is already on the active workspace |
| PeekModel.MoveTo | windowPreview.js:450-455 | a window elsewhere only switches workspace; one here is focused |
| PeekModel.WalkOverAll | windowPreview.js:491-507 | the step-by-step walk equals raise-to-top with the index saved, plus the opacity targets |
| PeekModel.FocusSuppressedInOverview | windowPreview.js:485-487 | while the overview is visible, focusing changes nothing |
| PeekModel.FocusRestoreKeepWindows | windowPreview.js:484-523 | focusing and restoring keep the stacking order a duplicate-free arrangement of the same windows |
| PeekModel.FocusThenRestore | windowPreview.js:497-516 | focusing a window then restoring its stacking gives back the original order and drops the saved index |
| PeekModel.EndPeekClears | windowPreview.js:462-476 | ending a session clears the peeked window and initial workspace, stays on the current workspace iff asked (or nothing to return to), and gives every actor full opacity |
| PeekModel.EndPeekEnds | windowPreview.js:473 | after ending a peek no window is peeked |
| PeekModel.EndPeekIdle | windowPreview.js:465 | without a peeked window ending a peek changes nothing |
| PeekModel.PeekStartsSession | windowPreview.js:443-459 | the first peek at a window on another workspace only switches there and remembers the starting workspace |
| PeekModel.EndPeekRestores | windowPreview.js:466 | ending a session leaves the stacking as restoring the peeked window does |
| PeekModel.PeekRoundTrip | windowPreview.js:443-476 | peek at a window on another workspace, focus it after the switch, then end: stacking order and saved indices restored, all windows at full opacity; ending here stays on the window's workspace, the full end returns to the start |
| Reconcile.FindIndex | windowPreview.js:262 | the first unclaimed preview showing the window, or -1 exactly when none does |
| Reconcile.Step | windowPreview.js:261-268 | one listed window: it is queued exactly when no unclaimed preview shows it, otherwise one unclaimed position is claimed |
| Reconcile.Run | windowPreview.js:256-272 | the unclaimed positions stay in range, and unclaimed plus listed equals shown plus queued |
| Reconcile.RunOnePerWindow | windowPreview.js:258-271 | with a duplicate-free list, claimed previews show pairwise different listed windows, and the queued windows are duplicate-free, listed and not shown |
| Reconcile.RunClaimsOnce | windowPreview.js:258-271 | with a duplicate-free list, every claimed position shows a listed window and no two claimed positions show the same window |
| Reconcile.ClaimsDyingPreview | windowPreview.js:262-267 | previews showing [7, 9] and the list [9, 7]: both previews are claimed and nothing is queued |
| Reconcile.NewWindows | windowPreview.js:261-268 | exactly the listed windows no current preview shows |
| Reconcile.NewWindowsDistinct | windowPreview.js:261-268 | a duplicate-free list queues each new window once |
| Reconcile.RunCharacterised | windowPreview.js:256-272 | the queued windows are exactly the listed windows no preview shows, in list order; every preview whose window is not listed is left over; with distinct shown windows, a preview is left over iff its window is not listed |
| Reconcile.RunIdempotent | windowPreview.js:256-272 | reconciling again with the same list, over the result of the first pass, adds nothing and leaves the same previews over, for any shown windows, duplicates included |
| Reconcile.IncreasingUnique | windowPreview.js:267 | the unclaimed positions, being increasing, are determined by their set |
| Reconcile.SpliceIncreasing | windowPreview.js:267 | claiming a preview drops exactly its position and keeps the order |
| Geometry.TranslationOffset | windowPreview.js:68-69 | the panel size capped at 40, negative for top and left panels, positive for bottom and right |
| Geometry.PreviewDimensions | windowPreview.js:830-843 | 160:90 box with the configured size along the cross axis, never below the 160 x 90 default |
| Geometry.BinSize | windowPreview.js:802-815 | the box plus padding across the layout; natural size (-1) along it |
| Geometry.CloneRatio | windowPreview.js:818-822 | scale at most 1 that fits the window into the box and touches it on one side unless natural |
| Geometry.ResizeClone | windowPreview.js:817-828 | both sides are the window's sides scaled by the one `CloneRatio` and floored, so the aspect ratio is kept; the thumbnail fits the box and the window, and fills the box on one side unless shown at natural size |
| Geometry.ResizeCloneExample | windowPreview.js:817-828 | an 800 x 600 window in a 160 x 90 box is shown 120 x 90 |
| Geometry.PreviewSize | windowPreview.js:639-646 | each axis is the larger of the bin size and the clone plus padding |
| Geometry.PreviewsSize | windowPreview.js:399-418 | non-negative sizes give a non-negative extent, and each visible preview fits inside it across the layout |
| Geometry.PreviewSizeAlongLayout | windowPreview.js:639-646 | for a fitting clone: the cross axis is the fixed bin, the layout axis the clone plus padding |
| Geometry.PreviewsSizeCovers | windowPreview.js:399-418 | the extent sums the visible previews along the layout, covers each of them across it, and its cross extent is zero or that of one of them |
| Geometry.LayoutSumBelow | windowPreview.js:407-413 | one visible preview's layout extent is at most the sum |
| Geometry.ClampOffset | windowPreview.js:383-389 | the centred offset clamped into [0, bound]; unchanged when already within |
| Geometry.PopupPosition | windowPreview.js:372-391 | centred on the icon along the panel after capping the extent at the monitor, clamped so the popup never leaves the monitor; 0 across |
| Geometry.ClipRect | windowPreview.js:341-370 | a band as long as the monitor and one slot (plus header for a row) thick, against the panel's inner edge |
| Geometry.ClipRectOnMonitor | windowPreview.js:341-370 | when the panel and one slot fit, the clip band lies on the monitor |
| Sequences.IndexOf | windowPreview.js:195 | the first position of an element, -1 exactly when absent |
| Sequences.WithoutDistinct | windowPreview.js:498 | removing one element leaves the others, each once |

## Left out

- Actor styling: CSS, colours, the header with title and workspace indicator, and the close button's padding (`adjustOnStage`, `_updateHeader`, `_getBackgroundColor`). They change no state the model follows.
- Tweens: easing, durations, per-frame values and the `_queueUpdateRegions` call. A tween is reduced to its target value plus, where it carries a completion, an explicit completion step.
- `enable` and `disable`: the signal wiring, chrome tracking and `_refreshGlobals`. The values `_refreshGlobals` reads are the constant `settings` and `display`, and `open`'s refresh of them is therefore not a separate step.
- `TimeoutsHandler` internals. A fired timer's entry is dropped before its callback runs, which is what the handler's callbacks rely on.
- Window sorting: both the merge and the reconciliation sort the list in place with `Taskbar.sortWindowsCompareFunction`. The model takes the icon's windows already in taskbar order. taskbar.js is not part of this model.
- Showing a minimized peeked actor, and hiding it again after restoring; `Main.wm._blockAnimations` around a workspace switch. Neither affects the state the model follows.
- `_onScrollEvent`, `_addClone`, `_getWindowClone` and the clone actor itself. A preview's thumbnail is `CloneFor` of its window.
- `Main.activateWindow` and `window.delete` are host calls; they are appended to `hostRequests`.
- Update: a window list the caller leaves undefined is not modelled. The source passes it on and `_addAndRemoveWindows` would fail on it.
- Open: an open started while a close animation runs replaces that animation (Tweener overwrite). The model clears the due completion, so the reset never runs afterwards.
- UpdatePosition: whether the position is set at once (closed) or tweened (open) is not distinguished; both reach the same target.
- One preview per window: the source does not keep it, and neither does the model. `assignWindow` (windowPreview.js:619-628) neither clears `animatingOut` nor stops the destroy tween. So a merge that rebinds an animating-out child, or a reconciliation that claims one (windowPreview.js:262-267), leaves that window without a surviving preview. `ReturningWindowLosesPreview` shows the reconciliation case. What the model proves instead is that, after a merge or a reconciliation with a duplicate-free list, the children not animating out show pairwise different windows.
- Stacking indices: the source saves the actor's index among all children of its parent (windowPreview.js:497). The model saves the index in the window-actor stack, so it treats the parent's children and the window actors as the same sequence.
- Valid: a running session is only required to have an initial workspace when a window is peeked, not "neither or both". After `_peek` switches workspace, the initial workspace is set while no window is peeked until the delayed focus.
- `getTweenOpts`, `_checkIfLeftOrRight` and `getSize` of one preview are modelled as parts of the members above, not as members of their own.
