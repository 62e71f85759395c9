/**
 * The menu's named debounce timers. At most one callback is pending per
 * name: adding under a name replaces what was pending there, removing
 * cancels it. Time itself is not modelled; a timer fires by an explicit step.
 */
module Timers {

  /** 'openMenuTimeout', 'closeMenuTimeout' and 'peekTimeout'. */
  datatype TimerName = OpenMenuTimeout | CloseMenuTimeout | PeekTimeout

  /** A pending callback: its delay in milliseconds and what it will do. */
  datatype Timer<A> = Timer(delay: int, action: A)

  type Table<A> = map<TimerName, Timer<A>>

  /** Schedule an action under a name, replacing whatever was pending under that name. */
  function Add<A>(t: Table<A>, name: TimerName, delay: int, action: A): (r: Table<A>)
    ensures r.Keys == t.Keys + {name}
    ensures r[name] == Timer(delay, action)
    ensures forall n :: n in t && n != name ==> r[n] == t[n]
  {
    t[name := Timer(delay, action)]
  }

  /** Cancel whatever is pending under a name; other timers are untouched. */
  function Remove<A>(t: Table<A>, name: TimerName): (r: Table<A>)
    ensures r.Keys == t.Keys - {name}
    ensures forall n :: n in r ==> r[n] == t[n]
  {
    t - {name}
  }

  /** _endOpenCloseTimeouts: cancel the pending open and close, leave the peek timer alone. */
  function EndOpenClose<A>(t: Table<A>): (r: Table<A>)
    ensures OpenMenuTimeout !in r && CloseMenuTimeout !in r
    ensures PeekTimeout in r <==> PeekTimeout in t
    ensures PeekTimeout in t ==> r[PeekTimeout] == t[PeekTimeout]
  {
    Remove(Remove(t, OpenMenuTimeout), CloseMenuTimeout)
  }

  /** Cancelling the peek timer and the open and close timers, in either order. */
  lemma EndOpenCloseCommutes<A>(t: Table<A>)
    ensures EndOpenClose(Remove(t, PeekTimeout)) == Remove(EndOpenClose(t), PeekTimeout)
  {
    assert EndOpenClose(Remove(t, PeekTimeout)).Keys == Remove(EndOpenClose(t), PeekTimeout).Keys;
  }

  /** Cancelling a timer that is not pending changes nothing. */
  lemma RemoveAbsent<A>(t: Table<A>, name: TimerName)
    requires name !in t
    ensures Remove(t, name) == t
  {
  }

  /** Cancelling the open or close timer just before _endOpenCloseTimeouts makes no difference. */
  lemma EndOpenCloseAbsorbs<A>(t: Table<A>, name: TimerName)
    requires name != PeekTimeout
    ensures EndOpenClose(Remove(t, name)) == EndOpenClose(t)
  {
    assert EndOpenClose(Remove(t, name)).Keys == EndOpenClose(t).Keys;
  }

  /**
   * Debounce: a request to open followed by a request to close leaves only
   * the close pending (plus any untouched peek timer), so the open never fires.
   */
  lemma OpenThenCloseCancelsOpen<A>(t: Table<A>, openDelay: int, open: A, closeDelay: int, close: A)
    ensures var r := Add(EndOpenClose(Add(EndOpenClose(t), OpenMenuTimeout, openDelay, open)),
                         CloseMenuTimeout, closeDelay, close);
      OpenMenuTimeout !in r && r[CloseMenuTimeout] == Timer(closeDelay, close) &&
      r.Keys == (t.Keys * {PeekTimeout}) + {CloseMenuTimeout}
  {
  }

  /** The converse order: a close request followed by an open request leaves only the open pending. */
  lemma CloseThenOpenCancelsClose<A>(t: Table<A>, openDelay: int, open: A, closeDelay: int, close: A)
    ensures var r := Add(EndOpenClose(Add(EndOpenClose(t), CloseMenuTimeout, closeDelay, close)),
                         OpenMenuTimeout, openDelay, open);
      CloseMenuTimeout !in r && r[OpenMenuTimeout] == Timer(openDelay, open) &&
      r.Keys == (t.Keys * {PeekTimeout}) + {OpenMenuTimeout}
  {
  }
}
