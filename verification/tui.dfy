/** The key handlers of src/tui.go, reduced to what they do to the viewer
    state. Every call of updateEmailList reloads the list from the store, and
    SetLayout calls it, so a handler that redraws the list takes the store
    and reloads. Drawing itself is not modelled. */
module Tui {
  import opened Types
  import opened Database
  import opened Display

  /** The number of rows of the keybindings table the popup scrolls over. */
  const KeybindingCount := 9

  /** What a handler leaves behind: a state to continue with, or the quit
      request that ends the main loop. */
  datatype Handled = Continue(state: AppState) | Quit

  // ---------------------------------------------------------------------------
  // Invariants
  // ---------------------------------------------------------------------------

  /** -1 means nothing is selected; otherwise the index is a row of the list. */
  predicate SelectionValid(st: AppState) {
    -1 <= st.selectedEmailIndex <= |st.emails| - 1
  }

  /** The displayed list is never longer than the store: records are removed
      only through the delete key, which reloads. */
  predicate Tracks(st: AppState, store: Store) {
    |st.emails| <= CountEmails(store)
  }

  predicate ModeValid(st: AppState) {
    st.mode == "text" || st.mode == "html"
  }

  predicate Inv(st: AppState, store: Store) {
    SelectionValid(st) && Tracks(st, store) && ModeValid(st) && st.popupScroll >= 0
  }

  /** The popup's last scroll position: `maxScroll` of the popup j handler
      for a popup view of inner height `height`. */
  function MaxScroll(height: int): int {
    KeybindingCount - (height - 6)
  }

  predicate ScrollBounded(st: AppState, height: int) {
    0 <= st.popupScroll <= if MaxScroll(height) > 0 then MaxScroll(height) else 0
  }

  // ---------------------------------------------------------------------------
  // Handlers
  // ---------------------------------------------------------------------------

  /** updateEmailList's reload of the list from the store. */
  function Reload(st: AppState, store: Store): (r: AppState)
    ensures r.emails == GetAllEmails(store)
    ensures r.selectedEmailIndex == st.selectedEmailIndex && r.mode == st.mode
    ensures r.showPopup == st.showPopup && r.popupScroll == st.popupScroll
    ensures Inv(st, store) ==> Inv(r, store)
  {
    st.(emails := GetAllEmails(store))
  }

  /** j: moves the selection down when the stored list has a row below it
      (from nothing selected to the first row). */
  function KeyDown(st: AppState, store: Store): (r: AppState)
    ensures var n := CountEmails(store);
      if n > 0 && st.selectedEmailIndex < n - 1 then
        r.selectedEmailIndex == st.selectedEmailIndex + 1 && r.emails == GetAllEmails(store)
      else r == st
    ensures r.selectedEmailIndex != st.selectedEmailIndex ==>
      r.selectedEmailIndex <= |r.emails| - 1
    ensures r.mode == st.mode && r.showPopup == st.showPopup && r.popupScroll == st.popupScroll
    ensures Inv(st, store) ==> Inv(r, store)
  {
    var emails := GetAllEmails(store);
    if |emails| > 0 && st.selectedEmailIndex < |emails| - 1 then
      Reload(st.(selectedEmailIndex := st.selectedEmailIndex + 1), store)
    else st
  }

  /** k: moves the selection up, never past the first row; nothing selected
      stays nothing selected. */
  function KeyUp(st: AppState, store: Store): (r: AppState)
    ensures st.selectedEmailIndex > 0 ==>
      r.selectedEmailIndex == st.selectedEmailIndex - 1 && r.emails == GetAllEmails(store)
    ensures st.selectedEmailIndex <= 0 ==> r == st
    ensures st.selectedEmailIndex >= 0 ==> r.selectedEmailIndex >= 0
    ensures r.mode == st.mode && r.showPopup == st.showPopup && r.popupScroll == st.popupScroll
    ensures Inv(st, store) ==> Inv(r, store)
  {
    if st.selectedEmailIndex > 0 then
      Reload(st.(selectedEmailIndex := st.selectedEmailIndex - 1), store)
    else st
  }

  /** What the delete key changes: the viewer state and the store. */
  datatype Deleted = Deleted(state: AppState, store: Store)

  /** d: deletes the selected record, reloads, and pulls the selection back
      onto the last row when it fell off the end (-1 when none is left). An
      out-of-range selection changes nothing. */
  function KeyDelete(st: AppState, store: Store): (r: Deleted)
    ensures !(0 <= st.selectedEmailIndex < |st.emails|) ==> r == Deleted(st, store)
    ensures 0 <= st.selectedEmailIndex < |st.emails| ==>
      var gone := st.emails[st.selectedEmailIndex].id;
      GetEmailByID(r.store, gone).Failure? &&
      (forall id | id != gone :: GetEmailByID(r.store, id) == GetEmailByID(store, id)) &&
      r.state.emails == GetAllEmails(r.store) &&
      r.state.selectedEmailIndex ==
        (if st.selectedEmailIndex >= |r.state.emails| then |r.state.emails| - 1
         else st.selectedEmailIndex)
    ensures r.state.mode == st.mode && r.state.showPopup == st.showPopup
    ensures r.state.popupScroll == st.popupScroll
    ensures Inv(st, store) ==> Inv(r.state, r.store)
    ensures Valid(store) ==> Valid(r.store)
  {
    if 0 <= st.selectedEmailIndex < |st.emails| then
      var store' := DeleteEmail(store, st.emails[st.selectedEmailIndex].id);
      var emails := GetAllEmails(store');
      var index := if st.selectedEmailIndex >= |emails| then |emails| - 1
                   else st.selectedEmailIndex;
      Deleted(Reload(st.(emails := emails, selectedEmailIndex := index), store'), store')
    else Deleted(st, store)
  }

  /** Closing the popup, shared by Esc, x, q and Ctrl+C: hide it, rewind
      its scroll, and lay the screen out again. */
  function ClosePopup(st: AppState, store: Store): (r: AppState)
    ensures !r.showPopup && r.popupScroll == 0
    ensures r.selectedEmailIndex == st.selectedEmailIndex && r.mode == st.mode
    ensures r.emails == GetAllEmails(store)
    ensures Inv(st, store) ==> Inv(r, store)
  {
    Reload(st.(showPopup := false, popupScroll := 0), store)
  }

  /** Esc: closes the popup when it is shown; otherwise clears the selection. */
  function KeyEscape(st: AppState, store: Store): (r: AppState)
    ensures st.showPopup ==> r == ClosePopup(st, store)
    ensures st.showPopup ==> r.selectedEmailIndex == st.selectedEmailIndex
    ensures !st.showPopup ==>
      r.selectedEmailIndex == -1 && !r.showPopup && r.popupScroll == st.popupScroll
    ensures r.mode == st.mode && r.emails == GetAllEmails(store)
    ensures Inv(st, store) ==> Inv(r, store)
  {
    if st.showPopup then ClosePopup(st, store)
    else Reload(st.(selectedEmailIndex := -1), store)
  }

  /** x: shows or hides the popup, starting from its top either way. */
  function KeyPopup(st: AppState, store: Store): (r: AppState)
    ensures r.showPopup == !st.showPopup && r.popupScroll == 0
    ensures r.selectedEmailIndex == st.selectedEmailIndex && r.mode == st.mode
    ensures r.emails == GetAllEmails(store)
    ensures Inv(st, store) ==> Inv(r, store)
  {
    if st.showPopup then ClosePopup(st, store)
    else Reload(st.(showPopup := true, popupScroll := 0), store)
  }

  /** q and Ctrl+C: close the popup when it is shown; otherwise quit. */
  function KeyQuit(st: AppState, store: Store): (r: Handled)
    ensures r.Quit? <==> !st.showPopup
    ensures r.Continue? ==> r.state == ClosePopup(st, store)
  {
    if st.showPopup then Continue(ClosePopup(st, store)) else Quit
  }

  /** m: switches between text and html; anything else becomes text. */
  function KeyMode(st: AppState): (r: AppState)
    ensures r.mode == if st.mode == "text" then "html" else "text"
    ensures r.mode != st.mode || st.mode != "text"
    ensures r == st.(mode := r.mode)
    ensures ModeValid(r)
  {
    st.(mode := if st.mode == "text" then "html" else "text")
  }

  /** Popup j: scrolls down one row while rows remain hidden below. */
  function PopupDown(st: AppState, height: int): (r: AppState)
    ensures var m := MaxScroll(height);
      r.popupScroll == if m > 0 && st.popupScroll < m then st.popupScroll + 1 else st.popupScroll
    ensures r == st.(popupScroll := r.popupScroll)
    ensures ScrollBounded(st, height) ==> ScrollBounded(r, height)
  {
    var m := MaxScroll(height);
    if m > 0 && st.popupScroll < m then st.(popupScroll := st.popupScroll + 1) else st
  }

  /** Popup k: scrolls up one row, never above the top. */
  function PopupUp(st: AppState): (r: AppState)
    ensures r.popupScroll == if st.popupScroll > 0 then st.popupScroll - 1 else st.popupScroll
    ensures r == st.(popupScroll := r.popupScroll)
    ensures forall height :: ScrollBounded(st, height) ==> ScrollBounded(r, height)
  {
    if st.popupScroll > 0 then st.(popupScroll := st.popupScroll - 1) else st
  }

  /** m twice restores a valid mode. */
  lemma KeyModeTwice(st: AppState)
    requires ModeValid(st)
    ensures KeyMode(KeyMode(st)) == st
  {
  }

  // ---------------------------------------------------------------------------
  // Runs of events
  // ---------------------------------------------------------------------------

  /** What can happen between two frames: a key, a message captured into the
      store, or the arrival goroutine reloading the list. */
  datatype Event =
    | Down | Up | Delete | Escape | TogglePopup | QuitKey | ModeKey
    | ScrollDown | ScrollUp
    | Captured(e: Email, now: int)
    | Drained

  datatype World = World(state: AppState, store: Store)

  datatype Next = Running(world: World) | Exited

  /** One event; `height` is the popup's inner height. */
  function Step(w: World, ev: Event, height: int): Next {
    var st := w.state;
    match ev
    case Down => Running(w.(state := KeyDown(st, w.store)))
    case Up => Running(w.(state := KeyUp(st, w.store)))
    case Delete =>
      var d := KeyDelete(st, w.store);
      Running(World(d.state, d.store))
    case Escape => Running(w.(state := KeyEscape(st, w.store)))
    case TogglePopup => Running(w.(state := KeyPopup(st, w.store)))
    case QuitKey =>
      (match KeyQuit(st, w.store)
       case Quit => Exited
       case Continue(next) => Running(w.(state := next)))
    case ModeKey => Running(w.(state := KeyMode(st)))
    case ScrollDown => Running(w.(state := PopupDown(st, height)))
    case ScrollUp => Running(w.(state := PopupUp(st)))
    case Captured(e, now) =>
      (match SaveEmail(w.store, e, now)
       case Success(store') => Running(w.(store := store'))
       case Failure(_) => Running(w))
    case Drained => Running(w.(state := Reload(st, w.store)))
  }

  function Run(w: World, evs: seq<Event>, height: int): Next
    decreases |evs|
  {
    if |evs| == 0 then Running(w)
    else match Step(w, evs[0], height)
      case Exited => Exited
      case Running(w') => Run(w', evs[1..], height)
  }

  predicate Good(w: World, height: int) {
    Inv(w.state, w.store) && Valid(w.store) && ScrollBounded(w.state, height)
  }

  /** The state main starts the viewer with is good for any store. */
  lemma InitialGood(store: Store, height: int)
    requires Valid(store)
    ensures Good(World(InitialState(), store), height)
  {
  }

  lemma StepGood(w: World, ev: Event, height: int)
    requires Good(w, height)
    ensures Step(w, ev, height).Running? ==> Good(Step(w, ev, height).world, height)
  {
  }

  /** Whatever keys are pressed and whatever arrives, the selection stays in
      range of the list, the list never outgrows the store, the mode stays
      text or html, and the popup scroll stays within its bounds. */
  lemma {:induction false} RunGood(w: World, evs: seq<Event>, height: int)
    requires Good(w, height)
    ensures Run(w, evs, height).Running? ==> Good(Run(w, evs, height).world, height)
    decreases |evs|
  {
    if |evs| > 0 {
      StepGood(w, evs[0], height);
      match Step(w, evs[0], height)
      case Exited =>
      case Running(w') => RunGood(w', evs[1..], height);
    }
  }
}
