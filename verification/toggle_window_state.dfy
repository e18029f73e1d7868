/** The window-state toggle of the Rust window manager: given the state a
    window is asked to take, either move it there, or, when it is already
    there, send it back to its previous state (tiling when it has none).
    The toggle always queues the window for redraw when it succeeds.

    `update_window_state` is not part of this model: it is a parameter of
    the toggle, an arbitrary total function from window, new state and
    manager state to the resulting manager state and an optional error. */
module ToggleWindowState {
  import opened Wrappers

  type WindowId = nat

  /** The states a window can be in. The floating and fullscreen variants
      carry a configuration that the toggle only compares for equality, so
      it is kept abstract. */
  datatype WindowState = Tiling | Floating(floatingConfig: nat) | Fullscreen(fullscreenConfig: nat) | Minimized

  /** What the toggle reads of a window. */
  datatype Window = Window(id: WindowId, state: WindowState, prevState: Option<WindowState>)

  /** The manager state, reduced to the redraw queue the toggle appends to;
      `rest` is everything else, which only `update_window_state` touches. */
  datatype WmState<S> = WmState(containersToRedraw: seq<WindowId>, rest: S)

  /** The manager state after a fallible step, and the error it raised. */
  datatype Outcome<S, E> = Outcome(state: WmState<S>, error: Option<E>)

  /** How many times `x` occurs in `s`. */
  function Count(s: seq<WindowId>, x: WindowId): nat {
    multiset(s)[x]
  }

  /** The state the toggle hands to `update_window_state`, or `None` when it
      leaves the window as it is. */
  function NextState(current: WindowState, requested: WindowState, prev: Option<WindowState>): (r: Option<WindowState>)
    ensures current != requested ==> r == Some(requested)
    ensures current == requested && prev.Some? ==> r == prev
    ensures current == requested && prev.None? && current != Tiling ==> r == Some(Tiling)
    ensures r.None? <==> current == requested && prev.None? && current == Tiling
  {
    if current != requested then Some(requested)
    else
      match prev
      case Some(p) => Some(p)
      case None => if current != Tiling then Some(Tiling) else None
  }

  /** A window is never "updated" to the state it is in unless that is
      exactly what its previous state says: toggling either changes the
      state or replays the recorded one. */
  lemma NextStateChanges(current: WindowState, requested: WindowState, prev: Option<WindowState>)
    ensures NextState(current, requested, prev) == Some(current) ==> prev == Some(current)
  {
  }

  /** Toggling into a state and toggling the same request again brings the
      window back, provided the update records the state it left as the
      previous state. */
  lemma ToggleBack(current: WindowState, requested: WindowState, prev: Option<WindowState>)
    requires current != requested
    ensures NextState(current, requested, prev) == Some(requested)
    ensures NextState(requested, requested, Some(current)) == Some(current)
  {
  }

  /** `state.pending_sync.containers_to_redraw.push(window)`. */
  function QueueRedraw<S>(st: WmState<S>, id: WindowId): (r: WmState<S>)
    ensures r.rest == st.rest
    ensures |r.containersToRedraw| == |st.containersToRedraw| + 1
    ensures r.containersToRedraw[..|st.containersToRedraw|] == st.containersToRedraw
    ensures Count(r.containersToRedraw, id) == Count(st.containersToRedraw, id) + 1
    ensures forall y :: y != id ==> Count(r.containersToRedraw, y) == Count(st.containersToRedraw, y)
  {
    var q := st.containersToRedraw + [id];
    assert q[..|st.containersToRedraw|] == st.containersToRedraw;
    assert multiset(q) == multiset(st.containersToRedraw) + multiset{id};
    st.(containersToRedraw := q)
  }

  /** `toggle_window_state`: runs `update` towards the state `NextState`
      picks (if any), propagates its error with `?`, and otherwise queues
      the window for redraw. */
  function Toggle<S, E>(w: Window, requested: WindowState, st: WmState<S>,
                        update: (Window, WindowState, WmState<S>) -> Outcome<S, E>): (r: Outcome<S, E>)
    ensures var next := NextState(w.state, requested, w.prevState);
      r.error.Some? <==> next.Some? && update(w, next.value, st).error.Some?
    ensures var next := NextState(w.state, requested, w.prevState);
      r.error.Some? ==> r == update(w, next.value, st)
    ensures var next := NextState(w.state, requested, w.prevState);
      var before := if next.None? then st else update(w, next.value, st).state;
      r.error.None? ==>
        && r.state.rest == before.rest
        && |r.state.containersToRedraw| == |before.containersToRedraw| + 1
        && r.state.containersToRedraw[..|before.containersToRedraw|] == before.containersToRedraw
        && Count(r.state.containersToRedraw, w.id) == Count(before.containersToRedraw, w.id) + 1
        && forall y :: y != w.id ==> Count(r.state.containersToRedraw, y) == Count(before.containersToRedraw, y)
  {
    match NextState(w.state, requested, w.prevState)
    case None => Outcome(QueueRedraw(st, w.id), None)
    case Some(t) =>
      var u := update(w, t, st);
      if u.error.Some? then u
      else Outcome(QueueRedraw(u.state, w.id), None)
  }

  /** When the state update cannot fail, the toggle succeeds in
      every branch and the window is the last entry of the redraw queue. */
  lemma ToggleAlwaysRedraws<S, E>(w: Window, requested: WindowState, st: WmState<S>,
                                  update: (Window, WindowState, WmState<S>) -> Outcome<S, E>)
    requires forall v, t, s :: update(v, t, s).error.None?
    ensures var r := Toggle(w, requested, st, update);
      && r.error.None?
      && w.id in r.state.containersToRedraw
      && r.state.containersToRedraw[|r.state.containersToRedraw| - 1] == w.id
  {
  }
}
