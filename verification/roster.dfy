/** The roster operations of the side panel and the scene (`updatePosition`,
    `updatePlayer`, `addPlayer`, `addTeam7`, `removePlayer` in src/App.tsx),
    each a whole-list replacement. Admin gating is applied by `Session`. */
module Roster {
  import opened Wrappers
  import opened Text
  import opened Formation

  /** A player as every operation leaves it: on team 1 or 2, facing the way
      its team faces, at ground level. */
  predicate Consistent(p: Player) {
    ValidTeam(p.team) && p.facing == FacingFor(p.team) && p.y == 0.0
  }

  predicate ValidRoster(players: seq<Player>) {
    forall i :: 0 <= i < |players| ==> Consistent(players[i])
  }

  /** No two players share an id (ids come from distinct clock readings). */
  predicate UniqueIds(players: seq<Player>) {
    forall i, j :: 0 <= i < j < |players| ==> players[i].id != players[j].id
  }

  /** The ids of `r` are those of `players`, position by position. */
  predicate SameIds(players: seq<Player>, r: seq<Player>) {
    |r| == |players| && forall i :: 0 <= i < |r| ==> r[i].id == players[i].id
  }

  /** The draw handed to placement by the add operations: they only place
      roles that have a table entry, so it is never read
      (`Formation.DrawOnlyForUnmappedRole`). */
  const UnusedDraw: Draw := Draw(0.0, 0.0)

  /** `p` moved to a placement. */
  function Placed(p: Player, pos: Placement): Player {
    p.(x := pos.x, z := pos.z, facing := pos.facing)
  }

  /** `prev.map(pp => pp.id === id ? f(pp) : pp)`. */
  function MapMatching(players: seq<Player>, id: string, f: Player -> Player): (r: seq<Player>)
    ensures |r| == |players|
    ensures forall i :: 0 <= i < |r| ==> r[i] == if players[i].id == id then f(players[i]) else players[i]
  {
    seq(|players|, i requires 0 <= i < |players| => if players[i].id == id then f(players[i]) else players[i])
  }

  /** The first player with the given id, as `players.find` returns it. */
  function Find(players: seq<Player>, id: string): (r: Option<Player>)
    ensures r.None? <==> forall i :: 0 <= i < |players| ==> players[i].id != id
    ensures r.Some? ==> (r.value.id == id &&
      exists i :: 0 <= i < |players| && players[i] == r.value && forall j :: 0 <= j < i ==> players[j].id != id)
    decreases |players|
  {
    if |players| == 0 then None
    else if players[0].id == id then Some(players[0])
    else
      var r := Find(players[1..], id);
      assert forall i :: 0 <= i < |players| - 1 ==> players[1..][i] == players[i + 1];
      r
  }

  // ---------------------------------------------------------------------
  // Drag update
  // ---------------------------------------------------------------------

  /** Moving the players with `id` to (x, z): only their `x` and `z` change;
      every other player, the length and the order stay as they were. */
  function UpdatePosition(players: seq<Player>, id: string, x: real, z: real): (r: seq<Player>)
    ensures |r| == |players|
    ensures forall i :: 0 <= i < |r| && players[i].id == id ==>
      r[i].x == x && r[i].z == z && r[i].(x := players[i].x, z := players[i].z) == players[i]
    ensures forall i :: 0 <= i < |r| && players[i].id != id ==> r[i] == players[i]
    ensures SameIds(players, r)
    ensures ValidRoster(players) ==> ValidRoster(r)
  {
    MapMatching(players, id, (p: Player) => p.(x := x, z := z))
  }

  /** Only the last of two moves of the same player counts. */
  lemma LastMoveWins(players: seq<Player>, id: string, x1: real, z1: real, x2: real, z2: real)
    ensures UpdatePosition(UpdatePosition(players, id, x1, z1), id, x2, z2) == UpdatePosition(players, id, x2, z2)
  {
  }

  /** Moving a player back to where it stood restores the roster. */
  lemma MoveBackRestores(players: seq<Player>, i: nat, x: real, z: real)
    requires i < |players|
    requires forall j :: 0 <= j < |players| && j != i ==> players[j].id != players[i].id
    ensures UpdatePosition(UpdatePosition(players, players[i].id, x, z), players[i].id, players[i].x, players[i].z) == players
  {
  }

  // ---------------------------------------------------------------------
  // Removal
  // ---------------------------------------------------------------------

  /** `removePlayer(id)`: the players whose id differs, in their order. */
  function RemovePlayer(players: seq<Player>, id: string): (r: seq<Player>)
    ensures |r| <= |players|
    ensures forall i :: 0 <= i < |r| ==> r[i].id != id
    decreases |players|
  {
    if |players| == 0 then []
    else
      var last := players[|players| - 1];
      RemovePlayer(players[..|players| - 1], id) + (if last.id != id then [last] else [])
  }

  /** Removal works on each part of a concatenation separately. */
  lemma {:induction false} RemoveAppend(a: seq<Player>, b: seq<Player>, id: string)
    ensures RemovePlayer(a + b, id) == RemovePlayer(a, id) + RemovePlayer(b, id)
    decreases |b|
  {
    if |b| == 0 {
      assert a + b == a;
    } else {
      var b' := b[..|b| - 1];
      assert (a + b)[..|a + b| - 1] == a + b';
      assert (a + b)[|a + b| - 1] == b[|b| - 1];
      RemoveAppend(a, b', id);
    }
  }

  /** A reference for `filter(p => p.id !== id)` scanning from the front, as
      `Array.prototype.filter` visits elements. */
  function KeepOthers(players: seq<Player>, id: string): seq<Player>
    decreases |players|
  {
    if |players| == 0 then []
    else (if players[0].id != id then [players[0]] else []) + KeepOthers(players[1..], id)
  }

  /** Removal is exactly the front-to-back filter: the players with another
      id, each once, in their order. */
  lemma {:induction false} RemoveIsFilter(players: seq<Player>, id: string)
    ensures RemovePlayer(players, id) == KeepOthers(players, id)
    decreases |players|
  {
    if |players| > 0 {
      assert players == [players[0]] + players[1..];
      RemoveAppend([players[0]], players[1..], id);
      RemoveIsFilter(players[1..], id);
      assert [players[0]][..0] == [];
    }
  }

  /** Removing an id nobody has changes nothing. */
  lemma {:induction false} RemoveAbsent(players: seq<Player>, id: string)
    requires forall i :: 0 <= i < |players| ==> players[i].id != id
    ensures RemovePlayer(players, id) == players
    decreases |players|
  {
    if |players| > 0 {
      RemoveAbsent(players[..|players| - 1], id);
      assert players[..|players| - 1] + [players[|players| - 1]] == players;
    }
  }

  /** Removal keeps exactly the players with another id: every kept player
      was in the roster, every player with another id is kept, and removing
      an id somebody has shortens the roster. */
  lemma {:induction false} RemoveKeepsOthers(players: seq<Player>, id: string)
    ensures forall i :: 0 <= i < |RemovePlayer(players, id)| ==> RemovePlayer(players, id)[i] in players
    ensures forall i :: 0 <= i < |players| && players[i].id != id ==> players[i] in RemovePlayer(players, id)
    ensures (exists i :: 0 <= i < |players| && players[i].id == id) ==> |RemovePlayer(players, id)| < |players|
    decreases |players|
  {
    if |players| > 0 {
      var init, last := players[..|players| - 1], players[|players| - 1];
      RemoveKeepsOthers(init, id);
      var r', r := RemovePlayer(init, id), RemovePlayer(players, id);
      assert r == r' + (if last.id != id then [last] else []);
      forall i | 0 <= i < |r|
        ensures r[i] in players
      {
        if i < |r'| {
          assert r[i] == r'[i];
          var j :| 0 <= j < |init| && init[j] == r'[i];
          assert players[j] == r[i];
        } else {
          assert r[i] == players[|players| - 1];
        }
      }
      forall i | 0 <= i < |players| && players[i].id != id
        ensures players[i] in r
      {
        if i < |players| - 1 {
          assert players[i] == init[i];
          var j :| 0 <= j < |r'| && r'[j] == init[i];
          assert r[j] == players[i];
        } else {
          assert r[|r| - 1] == players[i];
        }
      }
      if exists i :: 0 <= i < |players| && players[i].id == id {
        var i :| 0 <= i < |players| && players[i].id == id;
        if i < |players| - 1 {
          assert init[i].id == id;
        }
      }
    }
  }

  /** Removing players keeps the roster consistent and its ids unique. */
  lemma {:induction false} RemoveKeepsRosterValid(players: seq<Player>, id: string)
    ensures ValidRoster(players) ==> ValidRoster(RemovePlayer(players, id))
    ensures UniqueIds(players) ==> UniqueIds(RemovePlayer(players, id))
    decreases |players|
  {
    if |players| > 0 {
      var init, last := players[..|players| - 1], players[|players| - 1];
      assert forall i :: 0 <= i < |init| ==> init[i] == players[i];
      RemoveKeepsRosterValid(init, id);
      RemoveKeepsOthers(init, id);
      var r', r := RemovePlayer(init, id), RemovePlayer(players, id);
      assert r == r' + (if last.id != id then [last] else []);
      if UniqueIds(players) && last.id != id {
        forall i, j | 0 <= i < j < |r|
          ensures r[i].id != r[j].id
        {
          if j == |r| - 1 {
            var k :| 0 <= k < |init| && init[k] == r'[i];
            assert players[k] == r[i];
          } else {
            assert r[i] == r'[i] && r[j] == r'[j];
          }
        }
      }
    }
  }

  // ---------------------------------------------------------------------
  // Field edits
  // ---------------------------------------------------------------------

  /** The edits the player card sends: `field` is "team", "role" or "name". */
  datatype Edit = SetTeam(team: int) | SetRole(role: string) | SetName(name: string)

  /** The new team and role a player gets under an edit: the other fields of
      the first player with the id, with the edited one replaced. */
  function Edited(p: Player, edit: Edit): Player {
    match edit
    case SetTeam(t) => p.(team := t)
    case SetRole(role) => p.(role := role)
    case SetName(name) => p.(name := name)
  }

  /** Whether the source can evaluate the edit: placement needs a team of 1
      or 2 for the player being re-placed. */
  predicate EditPlaceable(players: seq<Player>, id: string, edit: Edit) {
    match edit
    case SetTeam(t) => ValidTeam(t)
    case SetRole(_) => Find(players, id).Some? ==> ValidTeam(Find(players, id).value.team)
    case SetName(_) => true
  }

  /** Editing a player field. A team or role change re-places the player with
      the team and role the first player with that id ends up with, counted
      against the roster without that id; a name change touches the name only.
      An unknown id changes nothing. */
  function UpdatePlayer(players: seq<Player>, id: string, edit: Edit, draw: Draw): (r: seq<Player>)
    requires EditPlaceable(players, id, edit)
    requires draw.Valid()
    ensures |r| == |players|
    ensures forall i :: 0 <= i < |r| && players[i].id != id ==> r[i] == players[i]
    ensures Find(players, id).None? ==> r == players
    ensures edit.SetName? ==> forall i :: 0 <= i < |r| && players[i].id == id ==>
      r[i] == players[i].(name := edit.name)
    ensures !edit.SetName? && Find(players, id).Some? ==>
      var q := Edited(Find(players, id).value, edit);
      var pos := AutoPosition(q.team, q.role, RemovePlayer(players, id), draw);
      forall i :: 0 <= i < |r| && players[i].id == id ==>
        r[i] == Placed(Edited(players[i], edit), pos)
  {
    match edit
    case SetName(name) =>
      MapMatching(players, id, (p: Player) => p.(name := name))
    case _ =>
      match Find(players, id)
      case None => MapMatching(players, id, (p: Player) => p)
      case Some(found) =>
        var q := Edited(found, edit);
        var pos := AutoPosition(q.team, q.role, RemovePlayer(players, id), draw);
        MapMatching(players, id, (p: Player) => Placed(Edited(p, edit), pos))
  }

  /** With unique ids, the player `Find` returns is the one at the index. */
  lemma FindUnique(players: seq<Player>, id: string, i: nat)
    requires UniqueIds(players)
    requires i < |players| && players[i].id == id
    ensures Find(players, id) == Some(players[i])
  {
    var j :| 0 <= j < |players| && players[j] == Find(players, id).value &&
      forall k :: 0 <= k < j ==> players[k].id != id;
    assert j < i ==> players[j].id != players[i].id;
  }

  /** Edits keep every player consistent: a re-placed player faces the way
      its (possibly new) team faces. */
  lemma UpdatePlayerKeepsRosterValid(players: seq<Player>, id: string, edit: Edit, draw: Draw)
    requires EditPlaceable(players, id, edit) && draw.Valid()
    requires ValidRoster(players) && UniqueIds(players)
    ensures ValidRoster(UpdatePlayer(players, id, edit, draw))
    ensures UniqueIds(UpdatePlayer(players, id, edit, draw))
  {
    var r := UpdatePlayer(players, id, edit, draw);
    forall i | 0 <= i < |r|
      ensures Consistent(r[i])
    {
      if players[i].id == id && !edit.SetName? {
        FindUnique(players, id, i);
      }
    }
    UpdatePlayerKeepsIds(players, id, edit, draw);
    forall i, j | 0 <= i < j < |r|
      ensures r[i].id != r[j].id
    {
      assert players[i].id != players[j].id;
    }
  }

  /** Edits never change an id, nor the length or order of the roster. */
  lemma UpdatePlayerKeepsIds(players: seq<Player>, id: string, edit: Edit, draw: Draw)
    requires EditPlaceable(players, id, edit) && draw.Valid()
    ensures SameIds(players, UpdatePlayer(players, id, edit, draw))
  {
    var r := UpdatePlayer(players, id, edit, draw);
    forall i | 0 <= i < |r|
      ensures r[i].id == players[i].id
    {
      if players[i].id == id && !edit.SetName? {
        var q := Edited(Find(players, id).value, edit);
        var pos := AutoPosition(q.team, q.role, RemovePlayer(players, id), draw);
        assert r[i] == Placed(Edited(players[i], edit), pos);
      }
    }
  }

  // ---------------------------------------------------------------------
  // Adding players
  // ---------------------------------------------------------------------

  /** `addPlayer(team)` at clock reading `now`: one midfielder named after the
      new roster size, appended after the players already there and placed
      among them. */
  function AddPlayer(players: seq<Player>, team: int, now: nat): (r: seq<Player>)
    requires ValidTeam(team)
    ensures |r| == |players| + 1
    ensures r[..|players|] == players
    ensures var p := r[|players|];
      && p.id == NatToString(now)
      && p.name == "Oyuncu " + NatToString(|players| + 1)
      && p.role == RoleName(Midfield) && p.team == team && p.y == 0.0
      && Consistent(p)
      && Slot(p.x, p.z) == MidfieldSlots(team)[Wrap(GroupCount(players, team, RoleName(Midfield)), 4)]
    ensures ValidRoster(players) ==> ValidRoster(r)
  {
    var pos := AutoPosition(team, RoleName(Midfield), players, UnusedDraw);
    players + [Player(NatToString(now), "Oyuncu " + NatToString(|players| + 1), RoleName(Midfield), team, pos.x, pos.z, pos.facing, 0.0)]
  }

  /** The midfield slots of a team, in table order. */
  function MidfieldSlots(team: int): (slots: seq<Slot>)
    requires ValidTeam(team)
    ensures |slots| == 4
  {
    TableEntry(team, Midfield).slots
  }

  /** The roles `addTeam7` fills for each team, in order. */
  const Roles7: seq<Role> := [Goalkeeper, Defence, Defence, Defence, Midfield, Midfield, Forward]

  /** The team of the `k`-th recruit of `addTeam7`: team 1 first. */
  function RecruitTeam(k: nat): int {
    if k < 7 then 1 else 2
  }

  /** The id of the `k`-th recruit at clock reading `now`:
      `${team}-${now}-${idx}`. */
  function RecruitId(now: nat, k: nat): string
    requires k < 14
  {
    Join([NatToString(RecruitTeam(k)), "-", NatToString(now), "-", NatToString(k % 7)])
  }

  /** The fourteen ids of one `addTeam7` call are pairwise distinct: the team
      digit leads each id and the role index digit ends it. */
  lemma RecruitIdsDistinct(now: nat, k1: nat, k2: nat)
    requires k1 < 14 && k2 < 14
    ensures RecruitId(now, k1) == RecruitId(now, k2) <==> k1 == k2
  {
    if k1 != k2 {
      var p1 := [NatToString(RecruitTeam(k1)), "-", NatToString(now), "-", NatToString(k1 % 7)];
      var p2 := [NatToString(RecruitTeam(k2)), "-", NatToString(now), "-", NatToString(k2 % 7)];
      if RecruitTeam(k1) != RecruitTeam(k2) {
        JoinFirst(p1);
        JoinFirst(p2);
        assert RecruitId(now, k1)[0] != RecruitId(now, k2)[0];
      } else {
        JoinLast(p1);
        JoinLast(p2);
        assert RecruitId(now, k1)[|RecruitId(now, k1)| - 1] != RecruitId(now, k2)[|RecruitId(now, k2)| - 1];
      }
    }
  }

  /** The name of the `k`-th recruit: `${role} ${team}-${idx + 1}`. */
  function RecruitName(k: nat): string
    requires k < 14
  {
    Join([RoleName(Roles7[k % 7]), " ", NatToString(RecruitTeam(k)), "-", NatToString(k % 7 + 1)])
  }

  /** The fourteen names of one `addTeam7` call are pairwise distinct: the
      role index digit ends each name, and recruits with the same index share
      the role, so the team digit right after the role and the space tells
      them apart. */
  lemma RecruitNamesDistinct(k1: nat, k2: nat)
    requires k1 < 14 && k2 < 14
    ensures RecruitName(k1) == RecruitName(k2) <==> k1 == k2
  {
    if k1 != k2 {
      var role1, role2 := RoleName(Roles7[k1 % 7]), RoleName(Roles7[k2 % 7]);
      var t1, t2 := NatToString(RecruitTeam(k1)), NatToString(RecruitTeam(k2));
      var d1, d2 := NatToString(k1 % 7 + 1), NatToString(k2 % 7 + 1);
      JoinFive(role1, " ", t1, "-", d1);
      JoinFive(role2, " ", t2, "-", d2);
      if k1 % 7 != k2 % 7 {
        assert RecruitName(k1)[|RecruitName(k1)| - 1] == d1[0];
        assert RecruitName(k2)[|RecruitName(k2)| - 1] == d2[0];
      } else {
        assert role1 == role2;
        assert RecruitName(k1)[|role1| + 1] == t1[0];
        assert RecruitName(k2)[|role1| + 1] == t2[0];
      }
    }
  }

  /** The `k`-th of the fourteen players `addTeam7` creates at clock reading
      `now` (team 1 first, then team 2), placed against `existing`. */
  function Recruit(existing: seq<Player>, now: nat, k: nat): (p: Player)
    requires k < 14
    ensures p.id == RecruitId(now, k) && p.name == RecruitName(k)
    ensures p.team == RecruitTeam(k) && p.role == RoleName(Roles7[k % 7])
    ensures Consistent(p)
  {
    var team := RecruitTeam(k);
    var idx := k % 7;
    var role := RoleName(Roles7[idx]);
    var pos := AutoPosition(team, role, existing, UnusedDraw);
    Player(
      RecruitId(now, k),
      RecruitName(k),
      role, team, pos.x, pos.z, pos.facing, 0.0)
  }

  /** A recruit takes the slot its group count in `existing` selects, so
      recruits of one team and role fill the table list in order. */
  lemma RecruitPlacement(existing: seq<Player>, now: nat, k: nat)
    requires k < 14
    ensures var team := RecruitTeam(k);
      var role := Roles7[k % 7];
      var p := Recruit(existing, now, k);
      var slots := EntrySlots(TableEntry(team, role));
      && |slots| > 0
      && Slot(p.x, p.z) == slots[Wrap(GroupCount(existing, team, RoleName(role)), |slots|)]
  {
    PlacementBySlotIndex(RecruitTeam(k), RoleName(Roles7[k % 7]), existing, UnusedDraw);
  }

  /** The first `n` players of `addTeam7`, each placed against the roster
      plus the players generated before it. */
  function Recruits(base: seq<Player>, now: nat, n: nat): (r: seq<Player>)
    requires n <= 14
    ensures |r| == n
    ensures forall k :: 0 <= k < n ==> r[k].team == RecruitTeam(k) && r[k].role == RoleName(Roles7[k % 7])
    ensures ValidRoster(r)
    decreases n
  {
    if n == 0 then []
    else
      var prev := Recruits(base, now, n - 1);
      prev + [Recruit(base + prev, now, n - 1)]
  }

  /** `addTeam7` at clock reading `now`: seven players for team 1 in the
      order of `Roles7`, then seven for team 2, appended to the roster. */
  function AddTeam7(players: seq<Player>, now: nat): (r: seq<Player>)
    ensures |r| == |players| + 14
    ensures r[..|players|] == players
    ensures forall k :: 0 <= k < 14 ==>
      r[|players| + k].team == RecruitTeam(k) && r[|players| + k].role == RoleName(Roles7[k % 7])
    ensures forall k :: 0 <= k < 14 ==> r[|players| + k].name == RecruitName(k)
    ensures ValidRoster(players) ==> ValidRoster(r)
  {
    var added := Recruits(players, now, 14);
    var r := players + added;
    forall k | 0 <= k < 14
      ensures r[|players| + k] == added[k]
    {
    }
    forall k | 0 <= k < 14
      ensures r[|players| + k].name == RecruitName(k)
    {
      RecruitAt(players, now, k, 14);
    }
    assert ValidRoster(players) ==> ValidRoster(r) by {
      if ValidRoster(players) {
        forall i | 0 <= i < |r|
          ensures Consistent(r[i])
        {
          if i < |players| {
            assert r[i] == players[i];
          } else {
            assert r[i] == added[i - |players|];
          }
        }
      }
    }
    r
  }

  // ---------------------------------------------------------------------
  // Relations between the operations
  // ---------------------------------------------------------------------

  /** Removing the player just added, under a fresh id, gives back the roster
      as it was. */
  lemma RemoveUndoesAdd(players: seq<Player>, team: int, now: nat)
    requires ValidTeam(team)
    requires forall i :: 0 <= i < |players| ==> players[i].id != NatToString(now)
    ensures RemovePlayer(AddPlayer(players, team, now), NatToString(now)) == players
  {
    var id := NatToString(now);
    var added := AddPlayer(players, team, now);
    assert added == players + [added[|players|]];
    RemoveAppend(players, [added[|players|]], id);
    RemoveAbsent(players, id);
    assert RemovePlayer([added[|players|]], id) == [];
  }

  /** Adding a player under a fresh id keeps the ids unique. */
  lemma AddPlayerKeepsIdsUnique(players: seq<Player>, team: int, now: nat)
    requires ValidTeam(team) && UniqueIds(players)
    requires forall i :: 0 <= i < |players| ==> players[i].id != NatToString(now)
    ensures UniqueIds(AddPlayer(players, team, now))
  {
    var r := AddPlayer(players, team, now);
    forall i, j | 0 <= i < j < |r|
      ensures r[i].id != r[j].id
    {
      if j < |players| {
        assert players[i].id != players[j].id;
      }
    }
  }

  /** Each added player joins its team's midfield group, so successive
      additions to one team walk the midfield slots round-robin. */
  lemma AddPlayerGrowsMidfield(players: seq<Player>, team: int, now: nat)
    requires ValidTeam(team)
    ensures GroupCount(AddPlayer(players, team, now), team, RoleName(Midfield)) == GroupCount(players, team, RoleName(Midfield)) + 1
  {
    var r := AddPlayer(players, team, now);
    assert r == players + [r[|players|]];
    GroupCountAppend(players, [r[|players|]], team, RoleName(Midfield));
    assert [r[|players|]] == [] + [r[|players|]];
  }

  /** Removing the id only the player at `i` has lowers the count of that
      player's group by one and leaves every other group's count alone. */
  lemma {:induction false} RemoveSoleHolderCount(players: seq<Player>, i: nat, team: int, role: string)
    requires i < |players|
    requires forall j :: 0 <= j < |players| && j != i ==> players[j].id != players[i].id
    ensures GroupCount(RemovePlayer(players, players[i].id), team, role) ==
      GroupCount(players, team, role) - (if InGroup(players[i], team, role) then 1 else 0)
    decreases |players|
  {
    var id := players[i].id;
    var init, last := players[..|players| - 1], players[|players| - 1];
    if i == |players| - 1 {
      assert forall j :: 0 <= j < |init| ==> init[j] == players[j];
      RemoveAbsent(init, id);
      assert RemovePlayer(players, id) == init by {
        assert RemovePlayer(players, id) == RemovePlayer(init, id) + [];
      }
      assert GroupCount(players, team, role) == GroupCount(init, team, role) + (if InGroup(last, team, role) then 1 else 0);
    } else {
      assert forall j :: 0 <= j < |init| ==> init[j] == players[j];
      RemoveSoleHolderCount(init, i, team, role);
      var r' := RemovePlayer(init, id);
      var r := r' + [last];
      assert r[..|r| - 1] == r' && r[|r| - 1] == last;
    }
  }

  /** Removing a player (ids unique) lowers the count of its own group by
      one and leaves every other group's count alone. */
  lemma RemoveLowersGroupCount(players: seq<Player>, i: nat, team: int, role: string)
    requires UniqueIds(players) && i < |players|
    ensures GroupCount(RemovePlayer(players, players[i].id), team, role) ==
      GroupCount(players, team, role) - (if players[i].team == team && players[i].role == role then 1 else 0)
  {
    forall j | 0 <= j < |players| && j != i
      ensures players[j].id != players[i].id
    {
      if j < i {
        assert players[j].id != players[i].id;
      } else {
        assert players[i].id != players[j].id;
      }
    }
    RemoveSoleHolderCount(players, i, team, role);
  }

  /** With unique ids, a role change keeps the player where it is in the list
      and places it against the roster without it. */
  lemma RoleEditPlacesAgainstRest(players: seq<Player>, i: nat, role: string, draw: Draw)
    requires UniqueIds(players) && i < |players| && ValidTeam(players[i].team) && draw.Valid()
    ensures (FindUnique(players, players[i].id, i);
      var pos := AutoPosition(players[i].team, role, RemovePlayer(players, players[i].id), draw);
      UpdatePlayer(players, players[i].id, SetRole(role), draw)[i] == Placed(players[i].(role := role), pos))
  {
    FindUnique(players, players[i].id, i);
  }

  /** A role change does not count the player itself: the slot it gets is
      chosen by the number of OTHER players of its team already in the new
      role. */
  lemma RoleEditCountsOthersOnly(players: seq<Player>, i: nat, role: string, draw: Draw)
    requires UniqueIds(players) && i < |players| && ValidTeam(players[i].team) && draw.Valid()
    requires Lookup(players[i].team, role).Some?
    ensures var team := players[i].team;
      var slots := EntrySlots(Lookup(team, role).value);
      var others := GroupCount(RemovePlayer(players, players[i].id), team, role);
      var r := UpdatePlayer(players, players[i].id, SetRole(role), draw);
      && |slots| > 0
      && Slot(r[i].x, r[i].z) == slots[Wrap(others, |slots|)]
      && others == GroupCount(players, team, role) - (if players[i].role == role then 1 else 0)
  {
    var team := players[i].team;
    RoleEditSlot(players, i, role, draw);
    RemoveLowersGroupCount(players, i, team, role);
  }

  /** The slot a role change gives: the one the group count of the roster
      without the edited player selects. */
  lemma RoleEditSlot(players: seq<Player>, i: nat, role: string, draw: Draw)
    requires UniqueIds(players) && i < |players| && ValidTeam(players[i].team) && draw.Valid()
    requires Lookup(players[i].team, role).Some?
    ensures var team := players[i].team;
      var slots := EntrySlots(Lookup(team, role).value);
      var r := UpdatePlayer(players, players[i].id, SetRole(role), draw);
      |slots| > 0 && Slot(r[i].x, r[i].z) == slots[Wrap(GroupCount(RemovePlayer(players, players[i].id), team, role), |slots|)]
  {
    var team := players[i].team;
    var rest := RemovePlayer(players, players[i].id);
    FindUnique(players, players[i].id, i);
    RoleEditPlacesAgainstRest(players, i, role, draw);
    PlacementBySlotIndex(team, role, rest, draw);
  }

  // ---------------------------------------------------------------------
  // Placement within addTeam7
  // ---------------------------------------------------------------------

  /** How many of the first `k` recruits of `addTeam7` are of the given team
      and role. */
  function EarlierRecruits(k: nat, team: int, role: Role): nat
    requires k <= 14
  {
    if k == 0 then 0
    else
      var matches := RecruitTeam(k - 1) == team && Roles7[(k - 1) % 7] == role;
      EarlierRecruits(k - 1, team, role) + (if matches then 1 else 0)
  }

  /** Generating fewer recruits gives a prefix of generating more. */
  lemma {:induction false} RecruitsPrefix(base: seq<Player>, now: nat, k: nat, n: nat)
    requires k <= n <= 14
    ensures Recruits(base, now, n)[..k] == Recruits(base, now, k)
    decreases n - k
  {
    if k < n {
      RecruitsPrefix(base, now, k, n - 1);
      RecruitsStep(base, now, n - 1);
      var r := Recruits(base, now, n);
      assert r[..k] == r[..n - 1][..k];
    }
  }

  /** One more recruit extends the list by one player placed against the
      roster plus the recruits before it. */
  lemma RecruitsStep(base: seq<Player>, now: nat, k: nat)
    requires k < 14
    ensures Recruits(base, now, k + 1)[..k] == Recruits(base, now, k)
    ensures Recruits(base, now, k + 1)[k] == Recruit(base + Recruits(base, now, k), now, k)
  {
  }

  /** The `k`-th recruit is placed against the roster plus the `k` recruits
      before it. */
  lemma RecruitAt(base: seq<Player>, now: nat, k: nat, n: nat)
    requires k < n <= 14
    ensures Recruits(base, now, n)[k] == Recruit(base + Recruits(base, now, k), now, k)
  {
    RecruitsPrefix(base, now, k + 1, n);
    RecruitsStep(base, now, k);
    assert Recruits(base, now, n)[k] == Recruits(base, now, n)[..k + 1][k];
  }

  /** The recruits generated so far contain exactly the team/role pairs the
      fixed role order dictates. */
  lemma {:induction false} RecruitsGroupCount(base: seq<Player>, now: nat, k: nat, team: int, role: Role)
    requires k <= 14
    ensures GroupCount(Recruits(base, now, k), team, RoleName(role)) == EarlierRecruits(k, team, role)
    decreases k
  {
    if k > 0 {
      RecruitsGroupCount(base, now, k - 1, team, role);
      RecruitsGroupStep(base, now, k, team, role);
    }
  }

  /** One more recruit adds one to its own group's count and nothing to any
      other group's. */
  lemma RecruitsGroupStep(base: seq<Player>, now: nat, k: nat, team: int, role: Role)
    requires 0 < k <= 14
    ensures GroupCount(Recruits(base, now, k), team, RoleName(role))
         == GroupCount(Recruits(base, now, k - 1), team, RoleName(role))
          + (if RecruitTeam(k - 1) == team && Roles7[(k - 1) % 7] == role then 1 else 0)
  {
    var r := Recruits(base, now, k);
    assert r[..k - 1] == Recruits(base, now, k - 1);
    assert r[k - 1].team == RecruitTeam(k - 1) && r[k - 1].role == RoleName(Roles7[(k - 1) % 7]);
    RoleNameInjective(Roles7[(k - 1) % 7], role);
  }

  /** Whether `p` stands on the slot a counter value `c` picks from `slots`,
      cycling through them as `autoPosition` does. */
  predicate StandsAt(p: Player, slots: seq<Slot>, c: nat)
    requires |slots| > 0
  {
    Slot(p.x, p.z) == slots[Wrap(c, |slots|)]
  }

  /** How many players of the `k`-th recruit's team and role stand before it:
      those already in the roster and the earlier recruits of the same batch. */
  function PriorCount(players: seq<Player>, k: nat): nat
    requires k < 14
  {
    GroupCount(players, RecruitTeam(k), RoleName(Roles7[k % 7])) + EarlierRecruits(k, RecruitTeam(k), Roles7[k % 7])
  }

  /** The roster `autoPosition` sees for the `k`-th recruit holds exactly
      `PriorCount` players of its team and role. */
  lemma RecruitsCount(players: seq<Player>, now: nat, k: nat)
    requires k < 14
    ensures GroupCount(players + Recruits(players, now, k), RecruitTeam(k), RoleName(Roles7[k % 7])) == PriorCount(players, k)
  {
    var team, role := RecruitTeam(k), Roles7[k % 7];
    RecruitsGroupCount(players, now, k, team, role);
    GroupCountAppend(players, Recruits(players, now, k), team, RoleName(role));
  }

  /** Where the `k`-th recruit stands: the slot of its team and role reached
      after `PriorCount` players. */
  lemma RecruitsPlacement(players: seq<Player>, now: nat, k: nat, n: nat)
    requires k < n <= 14
    ensures |EntrySlots(TableEntry(RecruitTeam(k), Roles7[k % 7]))| > 0
    ensures StandsAt(Recruits(players, now, n)[k], EntrySlots(TableEntry(RecruitTeam(k), Roles7[k % 7])), PriorCount(players, k))
  {
    TableEntrySizes(RecruitTeam(k), Roles7[k % 7]);
    RecruitsCount(players, now, k);
    RecruitAt(players, now, k, n);
    RecruitPlacement(players + Recruits(players, now, k), now, k);
  }

  /** `addTeam7` places its `k`-th new player on the slot of its team and
      role reached after the players of that group already on the roster and
      the group's earlier recruits. */
  lemma AddTeam7Placement(players: seq<Player>, now: nat, k: nat)
    requires k < 14
    ensures |EntrySlots(TableEntry(RecruitTeam(k), Roles7[k % 7]))| > 0
    ensures StandsAt(AddTeam7(players, now)[|players| + k], EntrySlots(TableEntry(RecruitTeam(k), Roles7[k % 7])), PriorCount(players, k))
  {
    RecruitsPlacement(players, now, k, 14);
    assert AddTeam7(players, now)[|players| + k] == Recruits(players, now, 14)[k];
  }

  /** The id at each position of the roster `addTeam7` returns: the old
      player's below the old length, the recruit id after it. */
  lemma AddTeam7IdAt(players: seq<Player>, now: nat, i: nat)
    requires i < |players| + 14
    ensures AddTeam7(players, now)[i].id == if i < |players| then players[i].id else RecruitId(now, i - |players|)
  {
    var r := AddTeam7(players, now);
    if i < |players| {
      assert r[i] == r[..|players|][i];
    } else {
      AddTeam7Id(players, now, i - |players|);
    }
  }

  /** The `k`-th player `addTeam7` appends carries the `k`-th recruit id and
      name. */
  lemma AddTeam7Id(players: seq<Player>, now: nat, k: nat)
    requires k < 14
    ensures AddTeam7(players, now)[|players| + k].id == RecruitId(now, k)
    ensures AddTeam7(players, now)[|players| + k].name == RecruitName(k)
  {
    RecruitAt(players, now, k, 14);
    assert AddTeam7(players, now)[|players| + k] == Recruits(players, now, 14)[k];
  }

  /** When none of the fourteen new ids is in use, `addTeam7` keeps the ids
      unique. */
  lemma AddTeam7KeepsIdsUnique(players: seq<Player>, now: nat)
    requires UniqueIds(players)
    requires forall i, k :: 0 <= i < |players| && 0 <= k < 14 ==> players[i].id != RecruitId(now, k)
    ensures UniqueIds(AddTeam7(players, now))
  {
    var r := AddTeam7(players, now);
    var n := |players|;
    forall i, j | 0 <= i < j < |r|
      ensures r[i].id != r[j].id
    {
      AddTeam7IdAt(players, now, i);
      AddTeam7IdAt(players, now, j);
      if n <= i {
        RecruitIdsDistinct(now, i - n, j - n);
      }
    }
  }
}
