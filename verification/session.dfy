/** The page state around the roster in src/App.tsx: who is signed in as
    admin, which card is selected, whether the camera may orbit, which player
    is being dragged and whether the login dialog is open, and how each user
    event changes it. */
module Session {
  import opened Wrappers
  import opened Text
  import opened Formation
  import opened Roster

  /** The state the page keeps: `players`, `selectedId`, `isAdmin`,
      `orbitEnabled` and `showLoginModal` of the top-level component, and
      `dragId` of the scene. */
  datatype State = State(
    players: seq<Player>,
    selected: Option<string>,
    admin: bool,
    orbitEnabled: bool,
    dragId: Option<string>,
    loginOpen: bool)

  /** The page as it first renders: no players, nothing selected, not admin,
      orbiting allowed, no drag, dialog closed. */
  const Initial: State := State([], None, false, true, None, false)

  // ---------------------------------------------------------------------
  // Admin login
  // ---------------------------------------------------------------------

  /** The three ways `handleAdminLogin` ends: no password configured, a
      wrong password, or success. */
  datatype LoginOutcome = NotConfigured | WrongPassword | Accepted

  /** The outcome of `handleAdminLogin(password)` when the configured admin
      password is `configured` (the empty string when none is set). */
  function Outcome(configured: string, password: string): (o: LoginOutcome)
    ensures o == Accepted <==> configured != "" && password == configured
    ensures o == NotConfigured <==> configured == ""
  {
    if configured == "" then NotConfigured
    else if password == configured then Accepted
    else WrongPassword
  }

  /** `handleAdminLogin`: on success the admin flag is set and the dialog
      closes; otherwise only an alert is shown. */
  function HandleAdminLogin(s: State, configured: string, password: string): (r: State)
    ensures r.admin <==> s.admin || Outcome(configured, password) == Accepted
    ensures r.loginOpen <==> s.loginOpen && Outcome(configured, password) != Accepted
    ensures r.(admin := s.admin, loginOpen := s.loginOpen) == s
  {
    match Outcome(configured, password)
    case Accepted => s.(admin := true, loginOpen := false)
    case _ => s
  }

  /** `handleAdminLogout`: the admin flag and the selection are cleared;
      the roster, the camera flag and the drag are kept. */
  function HandleAdminLogout(s: State): (r: State)
    ensures !r.admin && r.selected == None
    ensures r.(admin := s.admin, selected := s.selected) == s
  {
    s.(admin := false, selected := None)
  }

  // ---------------------------------------------------------------------
  // Dragging and the camera
  // ---------------------------------------------------------------------

  /** `dragId` as a JavaScript condition: set and not the empty string. */
  predicate DragActive(s: State) {
    s.dragId.Some? && s.dragId.value != ""
  }

  /** Whether the invisible plane that follows the pointer is mounted
      (`dragId && isAdmin`). */
  predicate PlaneShown(s: State) {
    DragActive(s) && s.admin
  }

  /** The orbit controls' `enabled` flag: the camera may orbit when the user
      wants it and no admin drag is under way, so dragging a player never
      also turns the camera. */
  function OrbitControlsEnabled(s: State): (on: bool)
    ensures on ==> s.orbitEnabled && !PlaneShown(s)
    ensures !PlaneShown(s) && s.orbitEnabled ==> on
  {
    (!DragActive(s) || !s.admin) && s.orbitEnabled
  }

  /** Pressing on a player: an admin starts dragging it; for anyone else the
      player has no press handler. */
  function PressPlayer(s: State, id: string): (r: State)
    ensures s.admin ==> (PlaneShown(r) <==> id != "")
    ensures s.admin ==> r == s.(dragId := Some(id))
    ensures !s.admin ==> r == s
  {
    if s.admin then s.(dragId := Some(id)) else s
  }

  /** A pointer move over the plane: while the plane is shown, the dragged
      player goes to (x, z); otherwise nothing happens. */
  function MovePointer(s: State, x: real, z: real): (r: State)
    ensures r.(players := s.players) == s
    ensures !PlaneShown(s) ==> r == s
  {
    if !DragActive(s) || !s.admin then s
    else s.(players := UpdatePosition(s.players, s.dragId.value, x, z))
  }

  /** `stopDrag`, run on every mouse-up and context-menu event: an admin
      drag ends; otherwise the drag state is left as it is. */
  function StopDrag(s: State): (r: State)
    ensures !DragActive(r) || !r.admin
    ensures r.(dragId := s.dragId) == s
    ensures !PlaneShown(s) ==> r == s
  {
    if DragActive(s) && s.admin then s.(dragId := None) else s
  }

  // ---------------------------------------------------------------------
  // Events
  // ---------------------------------------------------------------------

  /** What the user can do. The side panel (add, remove, edit, select, the
      camera toggle) and the logout button are only on screen for an admin;
      the login button only for everyone else. `now` is the clock reading an
      add takes its ids from, `configured` (see `Step`) the admin password. */
  datatype Event =
    | AddClicked(team: int, now: nat)
    | AddTeam7Clicked(now: nat)
    | RemoveClicked(id: string)
    | FieldChanged(id: string, edit: Edit, draw: Draw)
    | CardSelected(id: string)
    | OrbitToggled(on: bool)
    | PlayerPressed(id: string)
    | PlaneMoved(x: real, z: real)
    | MouseReleased
    | LoginOpened
    | LoginClosed
    | PasswordSubmitted(password: string)
    | LogoutClicked

  /** The events the page can produce: the add buttons pass team 1 or 2, the
      team selector offers 1 and 2, and `Math.random` draws from [0, 1). */
  predicate Admissible(s: State, ev: Event) {
    match ev
    case AddClicked(team, _) => ValidTeam(team)
    case FieldChanged(id, edit, draw) => EditPlaceable(s.players, id, edit) && draw.Valid()
    case _ => true
  }

  /** The ids an add creates are not yet in use (they come from distinct
      clock readings). */
  predicate FreshIds(s: State, ev: Event) {
    match ev
    case AddClicked(_, now) =>
      forall i :: 0 <= i < |s.players| ==> s.players[i].id != NatToString(now)
    case AddTeam7Clicked(now) =>
      forall i, k :: 0 <= i < |s.players| && 0 <= k < 14 ==> s.players[i].id != RecruitId(now, k)
    case _ => true
  }

  /** The state after one event, with `configured` the admin password the
      page was built with. */
  function Step(s: State, ev: Event, configured: string): (r: State)
    requires Admissible(s, ev)
    ensures !s.admin ==> r.players == s.players
    ensures r.admin != s.admin ==> ev.PasswordSubmitted? || ev.LogoutClicked?
    ensures (s.admin ==> !s.loginOpen) ==> (r.admin ==> !r.loginOpen)
  {
    match ev
    case AddClicked(team, now) =>
      if s.admin then s.(players := AddPlayer(s.players, team, now), selected := Some(NatToString(now))) else s
    case AddTeam7Clicked(now) =>
      if s.admin then s.(players := AddTeam7(s.players, now)) else s
    case RemoveClicked(id) =>
      if s.admin then s.(players := RemovePlayer(s.players, id), selected := None) else s
    case FieldChanged(id, edit, draw) =>
      if s.admin then s.(players := UpdatePlayer(s.players, id, edit, draw)) else s
    case CardSelected(id) =>
      if s.admin then s.(selected := Some(id)) else s
    case OrbitToggled(on) =>
      if s.admin then s.(orbitEnabled := on) else s
    case PlayerPressed(id) => PressPlayer(s, id)
    case PlaneMoved(x, z) => MovePointer(s, x, z)
    case MouseReleased => StopDrag(s)
    case LoginOpened =>
      if !s.admin then s.(loginOpen := true) else s
    case LoginClosed => s.(loginOpen := false)
    case PasswordSubmitted(password) =>
      // The dialog only forwards a password equal to the configured one.
      if s.loginOpen && password == configured then HandleAdminLogin(s, configured, password) else s
    case LogoutClicked =>
      if s.admin then HandleAdminLogout(s) else s
  }

  // ---------------------------------------------------------------------
  // Properties of the page
  // ---------------------------------------------------------------------

  /** What every reachable state satisfies: consistent players with unique
      ids, and the login dialog never open for an admin. */
  predicate Good(s: State) {
    ValidRoster(s.players) && UniqueIds(s.players) && (s.admin ==> !s.loginOpen)
  }

  lemma InitialGood()
    ensures Good(Initial) && !Initial.admin && OrbitControlsEnabled(Initial)
  {
  }

  /** Every page event keeps the state good, given that adds use fresh ids. */
  lemma StepKeepsGood(s: State, ev: Event, configured: string)
    requires Good(s) && Admissible(s, ev) && FreshIds(s, ev)
    ensures Good(Step(s, ev, configured))
  {
    if s.admin {
      match ev
      case AddClicked(team, now) =>
        AddPlayerKeepsIdsUnique(s.players, team, now);
      case AddTeam7Clicked(now) =>
        AddTeam7KeepsIdsUnique(s.players, now);
      case RemoveClicked(id) =>
        RemoveKeepsRosterValid(s.players, id);
      case FieldChanged(id, edit, draw) =>
        UpdatePlayerKeepsRosterValid(s.players, id, edit, draw);
      case PlaneMoved(x, z) =>
        if DragActive(s) {
          UpdatePositionKeepsIds(s.players, s.dragId.value, x, z);
        }
      case _ =>
    }
  }

  /** Moving players keeps the ids, so unique ids stay unique. */
  lemma UpdatePositionKeepsIds(players: seq<Player>, id: string, x: real, z: real)
    requires UniqueIds(players)
    ensures UniqueIds(UpdatePosition(players, id, x, z))
  {
    var r := UpdatePosition(players, id, x, z);
    forall i, j | 0 <= i < j < |r|
      ensures r[i].id != r[j].id
    {
      assert r[i].id == players[i].id && r[j].id == players[j].id;
    }
  }

  /** Without admin rights no event changes the roster, the selection or
      the camera flag; only logging in can change anything beyond the drag
      and the dialog. */
  lemma VisitorCannotEdit(s: State, ev: Event, configured: string)
    requires !s.admin && Admissible(s, ev)
    ensures var r := Step(s, ev, configured);
      r.players == s.players && r.selected == s.selected && r.orbitEnabled == s.orbitEnabled && r.dragId == s.dragId
  {
  }

  /** For an admin, the panel's roster buttons apply the roster operations:
      adding selects the new player, removing clears the selection whichever
      card was selected, editing keeps it, and nothing else on the page
      changes. */
  lemma AdminRosterEvents(s: State, ev: Event, configured: string)
    requires s.admin && Admissible(s, ev)
    requires ev.AddClicked? || ev.AddTeam7Clicked? || ev.RemoveClicked? || ev.FieldChanged?
    ensures var r := Step(s, ev, configured);
      && r.(players := s.players, selected := s.selected) == s
      && (ev.AddClicked? ==> r.players == AddPlayer(s.players, ev.team, ev.now) && r.selected == Some(NatToString(ev.now)))
      && (ev.AddTeam7Clicked? ==> r.players == AddTeam7(s.players, ev.now) && r.selected == s.selected)
      && (ev.RemoveClicked? ==> r.players == RemovePlayer(s.players, ev.id) && r.selected == None)
      && (ev.FieldChanged? ==> r.players == UpdatePlayer(s.players, ev.id, ev.edit, ev.draw) && r.selected == s.selected)
  {
  }

  /** For an admin, selecting a card selects exactly that player and the
      camera toggle sets the orbit flag to the toggle's new value; nothing
      else on the page changes. */
  lemma AdminPanelChoices(s: State, ev: Event, configured: string)
    requires s.admin
    requires ev.CardSelected? || ev.OrbitToggled?
    ensures var r := Step(s, ev, configured);
      && (ev.CardSelected? ==> r == s.(selected := Some(ev.id)))
      && (ev.OrbitToggled? ==> r == s.(orbitEnabled := ev.on))
  {
  }

  /** Signing in succeeds exactly when the dialog is open, a password is
      configured and the submitted one matches it. */
  lemma LoginSucceedsIff(s: State, password: string, configured: string)
    requires !s.admin
    ensures Step(s, PasswordSubmitted(password), configured).admin
        <==> s.loginOpen && configured != "" && password == configured
  {
  }

  /** Signing out and in again leaves the roster as it was, with nothing
      selected. */
  lemma LogoutThenLogin(s: State, configured: string)
    requires s.admin && configured != ""
    ensures var out := Step(s, LogoutClicked, configured);
      var back := Step(Step(out, LoginOpened, configured), PasswordSubmitted(configured), configured);
      && !out.admin && out.selected == None && out.players == s.players
      && back.admin && !back.loginOpen && back.players == s.players && back.selected == None
  {
  }

  /** While an admin drags a player the camera cannot orbit, and releasing
      the mouse gives the camera back exactly as it was before the press. */
  lemma PressAndRelease(s: State, id: string, configured: string)
    requires s.admin && !DragActive(s) && id != ""
    ensures var pressed := Step(s, PlayerPressed(id), configured);
      var released := Step(pressed, MouseReleased, configured);
      && PlaneShown(pressed) && !OrbitControlsEnabled(pressed)
      && released == s.(dragId := None)
      && OrbitControlsEnabled(released) == OrbitControlsEnabled(s)
  {
  }

  /** Logging out in the middle of a drag stops the drag's effect: the plane
      disappears and pointer moves no longer move anyone. */
  lemma LogoutStopsDragEffect(s: State, x: real, z: real, configured: string)
    requires s.admin
    ensures var out := Step(s, LogoutClicked, configured);
      !PlaneShown(out) && Step(out, PlaneMoved(x, z), configured) == out
  {
  }

  // ---------------------------------------------------------------------
  // A drag gesture
  // ---------------------------------------------------------------------

  /** The state after the pointer passes over each point of `path` in turn. */
  function Drag(s: State, path: seq<Slot>): (r: State)
    ensures !PlaneShown(s) ==> r == s
    decreases |path|
  {
    if |path| == 0 then s
    else
      var last := path[|path| - 1];
      MovePointer(Drag(s, path[..|path| - 1]), last.x, last.z)
  }

  /** A whole drag gesture amounts to one move to the last point: only the
      dragged player's `x` and `z` change, and only the last point counts. */
  lemma {:induction false} DragEndsAtLastPoint(s: State, path: seq<Slot>)
    requires PlaneShown(s) && |path| > 0
    ensures var last := path[|path| - 1];
      Drag(s, path) == s.(players := UpdatePosition(s.players, s.dragId.value, last.x, last.z))
    decreases |path|
  {
    var last := path[|path| - 1];
    var init := path[..|path| - 1];
    if |init| > 0 {
      DragEndsAtLastPoint(s, init);
      var prev := init[|init| - 1];
      LastMoveWins(s.players, s.dragId.value, prev.x, prev.z, last.x, last.z);
    }
  }
}
