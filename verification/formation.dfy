/** The formation table and automatic placement of players on the pitch
    (`POSITION_COORDINATES` and `getAutoPosition` in src/App.tsx). */
module Formation {
  import opened Wrappers

  /** Pitch dimensions used by the random fallback placement. */
  const PitchWidth: real := 18.0
  const PitchLength: real := 28.0

  /** The roles a player can have. */
  datatype Role = Goalkeeper | Defence | Midfield | Forward | Wing

  /** The role names the editor offers and the table is keyed by. */
  function RoleName(r: Role): (s: string)
    ensures ParseRole(s) == Some(r)
  {
    match r
    case Goalkeeper => "KALECİ"
    case Defence => "DEFANS"
    case Midfield => "ORTA SAHA"
    case Forward => "FORVET"
    case Wing => "KANAT"
  }

  /** The role a role name stands for; any other string has no table entry. */
  function ParseRole(s: string): Option<Role> {
    if s == "KALECİ" then Some(Goalkeeper)
    else if s == "DEFANS" then Some(Defence)
    else if s == "ORTA SAHA" then Some(Midfield)
    else if s == "FORVET" then Some(Forward)
    else if s == "KANAT" then Some(Wing)
    else None
  }

  /** The other half of the round trip: a string that parses is the name of
      the role it parses to, so the table has no other keys. */
  lemma ParseRoleRoundTrip(s: string)
    ensures ParseRole(s).Some? ==> RoleName(ParseRole(s).value) == s
  {
  }

  /** Distinct roles have distinct names, so comparing role strings (as the
      group count does) compares roles. */
  lemma RoleNameInjective(a: Role, b: Role)
    ensures RoleName(a) == RoleName(b) <==> a == b
  {
    if RoleName(a) == RoleName(b) {
      assert ParseRole(RoleName(a)) == ParseRole(RoleName(b));
    }
  }

  /** Only teams 1 and 2 have a table; any other team makes the source throw. */
  predicate ValidTeam(team: int) {
    team == 1 || team == 2
  }

  /** A planar position on the pitch (three.js x and z). */
  datatype Slot = Slot(x: real, z: real)

  /** A role's table entry: one fixed slot, or an ordered list of slots that
      successive players of the role cycle through. */
  datatype Entry = Single(slot: Slot) | Cycle(slots: seq<Slot>)

  /** Rotation about the vertical axis: 0 radians or pi radians. */
  datatype Facing = Zero | HalfTurn

  /** A player on the roster. `y` is a vertical offset the operations only
      ever set to 0. */
  datatype Player = Player(
    id: string,
    name: string,
    role: string,
    team: int,
    x: real,
    z: real,
    facing: Facing,
    y: real)

  /** The result of automatic placement. */
  datatype Placement = Placement(x: real, z: real, facing: Facing) {
    /** Where the placement puts the player, without the facing. */
    function At(): Slot {
      Slot(x, z)
    }
  }

  /** Two uniform samples from [0, 1), standing for the two `Math.random()`
      calls of the fallback placement. */
  datatype Draw = Draw(u: real, v: real) {
    predicate Valid() {
      0.0 <= u < 1.0 && 0.0 <= v < 1.0
    }
  }

  /** The formation table: team 1 plays on the right half (positive x),
      team 2 on the left half (negative x). */
  function TableEntry(team: int, role: Role): (e: Entry)
    requires ValidTeam(team)
    ensures e.Single? <==> role == Goalkeeper
  {
    if team == 1 then
      match role
      case Goalkeeper => Single(Slot(11.0, 0.0))
      case Defence => Cycle([Slot(7.0, -7.0), Slot(7.0, 7.0), Slot(3.0, -3.0), Slot(7.0, 0.0)])
      case Midfield => Cycle([Slot(3.0, 5.0), Slot(1.0, 0.0), Slot(-2.0, -6.0), Slot(-2.0, 6.0)])
      case Forward => Cycle([Slot(-1.0, 3.0), Slot(-1.0, -3.0)])
      case Wing => Cycle([Slot(4.0, -10.0), Slot(4.0, 10.0)])
    else
      match role
      case Goalkeeper => Single(Slot(-11.0, 0.0))
      case Defence => Cycle([Slot(-7.0, 7.0), Slot(-7.0, -7.0), Slot(-7.0, 2.0), Slot(-7.0, -2.0)])
      case Midfield => Cycle([Slot(-3.0, -5.0), Slot(-1.0, 0.0), Slot(2.0, 6.0), Slot(2.0, -6.0)])
      case Forward => Cycle([Slot(1.0, -3.0), Slot(1.0, 3.0)])
      case Wing => Cycle([Slot(-4.0, 10.0), Slot(-4.0, -10.0)])
  }

  /** The table entry for a role name, if it has one. */
  function Lookup(team: int, role: string): (r: Option<Entry>)
    requires ValidTeam(team)
    ensures r.Some? <==> exists k: Role :: RoleName(k) == role
  {
    ParseRoleRoundTrip(role);
    match ParseRole(role)
    case Some(r) => Some(TableEntry(team, r))
    case None => None
  }

  /** The slots an entry can hand out. */
  function EntrySlots(e: Entry): seq<Slot> {
    match e
    case Single(s) => [s]
    case Cycle(ss) => ss
  }

  /** No entry of either table is an empty list, and no entry lists the same
      slot twice. */
  lemma TableEntriesWellFormed(team: int, role: Role)
    requires ValidTeam(team)
    ensures |EntrySlots(TableEntry(team, role))| > 0
    ensures forall i, j :: 0 <= i < j < |EntrySlots(TableEntry(team, role))| ==>
      EntrySlots(TableEntry(team, role))[i] != EntrySlots(TableEntry(team, role))[j]
  {
  }

  /** Every entry holds one, two or four slots. */
  lemma TableEntrySizes(team: int, role: Role)
    requires ValidTeam(team)
    ensures |EntrySlots(TableEntry(team, role))| in {1, 2, 4}
  {
  }

  function FacingFor(team: int): (f: Facing)
    ensures f == Zero <==> team == 1
  {
    if team == 1 then Zero else HalfTurn
  }

  /** Whether `p` counts towards the group of the given team and role. */
  predicate InGroup(p: Player, team: int, role: string) {
    p.team == team && p.role == role
  }

  /** How many players of `players` share the given team and role: the
      length of `existingPlayers.filter(...)` in the source. */
  function GroupCount(players: seq<Player>, team: int, role: string): nat
    decreases |players|
  {
    if |players| == 0 then 0
    else
      var last := players[|players| - 1];
      GroupCount(players[..|players| - 1], team, role) + (if InGroup(last, team, role) then 1 else 0)
  }

  /** Automatic placement of a player of `team` and `role`, given the players
      already on the field. A role with one slot always gets it; a role with a
      list of slots gets the slot at the group count modulo the list length;
      a role without an entry is scattered uniformly over the pitch using
      `draw`. Facing depends on the team alone. */
  function AutoPosition(team: int, role: string, existing: seq<Player>, draw: Draw): (r: Placement)
    requires ValidTeam(team)
    requires draw.Valid()
    ensures r.facing == Zero <==> team == 1
    ensures Lookup(team, role).Some? ==> r.At() in EntrySlots(Lookup(team, role).value)
    ensures Lookup(team, role).Some? && Lookup(team, role).value.Single? ==>
      r.At() == Lookup(team, role).value.slot
    ensures Lookup(team, role).Some? && Lookup(team, role).value.Cycle? ==>
      var slots := Lookup(team, role).value.slots;
      r.At() == slots[Wrap(GroupCount(existing, team, role), |slots|)]
    ensures Lookup(team, role).None? ==>
      && -PitchWidth / 2.0 <= r.x < PitchWidth / 2.0
      && -PitchLength / 2.0 <= r.z < PitchLength / 2.0
  {
    match ParseRole(role)
    case None =>
      Placement((draw.u - 0.5) * PitchWidth, (draw.v - 0.5) * PitchLength, FacingFor(team))
    case Some(known) =>
      match TableEntry(team, known)
      case Cycle(slots) =>
        TableEntriesWellFormed(team, known);
        var i := Wrap(GroupCount(existing, team, role), |slots|);
        Placement(slots[i].x, slots[i].z, FacingFor(team))
      case Single(s) =>
        Placement(s.x, s.z, FacingFor(team))
  }

  /** The random draw is read exactly when the role has no table entry:
      a mapped role ignores it, an unmapped role lands on different spots
      for different draws. */
  lemma DrawOnlyForUnmappedRole(team: int, role: string, existing: seq<Player>, d1: Draw, d2: Draw)
    requires ValidTeam(team) && d1.Valid() && d2.Valid()
    ensures Lookup(team, role).Some? ==>
      AutoPosition(team, role, existing, d1) == AutoPosition(team, role, existing, d2)
    ensures Lookup(team, role).None? && d1 != d2 ==>
      AutoPosition(team, role, existing, d1) != AutoPosition(team, role, existing, d2)
  {
  }

  /** A goalkeeper's spot does not depend on the roster: team 1 keeps goal at
      (11, 0), team 2 at (-11, 0). */
  lemma GoalkeeperSpotFixed(team: int, existing: seq<Player>, draw: Draw)
    requires ValidTeam(team) && draw.Valid()
    ensures AutoPosition(team, RoleName(Goalkeeper), existing, draw) ==
      if team == 1 then Placement(11.0, 0.0, Zero) else Placement(-11.0, 0.0, HalfTurn)
  {
  }

  /** Counting a group over a concatenation adds the counts of the parts. */
  lemma {:induction false} GroupCountAppend(a: seq<Player>, b: seq<Player>, team: int, role: string)
    ensures GroupCount(a + b, team, role) == GroupCount(a, team, role) + GroupCount(b, team, role)
    decreases |b|
  {
    if |b| == 0 {
      assert a + b == a;
    } else {
      var b' := b[..|b| - 1];
      assert (a + b)[..|a + b| - 1] == a + b';
      assert (a + b)[|a + b| - 1] == b[|b| - 1];
      GroupCountAppend(a, b', team, role);
    }
  }

  /** A roster with no member of the group counts zero. */
  lemma {:induction false} GroupCountNone(players: seq<Player>, team: int, role: string)
    requires forall i :: 0 <= i < |players| ==> !InGroup(players[i], team, role)
    ensures GroupCount(players, team, role) == 0
    decreases |players|
  {
    if |players| > 0 {
      GroupCountNone(players[..|players| - 1], team, role);
    }
  }

  /** Round-robin index: `c % n` for a count `c`, computed by taking off
      whole rounds of `n`. */
  function Wrap(c: nat, n: nat): (i: nat)
    requires n > 0
    ensures i < n
    decreases c
  {
    if c < n then c else Wrap(c - n, n)
  }

  /** Taking off whole rounds is the remainder the source's `%` computes. */
  lemma {:induction false} WrapIsRemainder(c: nat, n: nat)
    requires n > 0
    ensures Wrap(c, n) == c % n
    decreases c
  {
    if c >= n {
      WrapIsRemainder(c - n, n);
      RemainderUnique(c - n, n, c / n - 1, c % n);
    } else {
      RemainderUnique(c, n, 0, c);
    }
  }

  /** The remainder is the only value in [0, n) that differs from `x` by a
      multiple of `n`. */
  lemma RemainderUnique(x: int, n: int, q: int, r: int)
    requires n > 0 && 0 <= r < n && x == q * n + r
    ensures x % n == r
  {
    var q', r' := x / n, x % n;
    assert x == q' * n + r';
    assert (q - q') * n == r' - r by {
      assert (q - q') * n == q * n - q' * n;
    }
    if q > q' {
      MultipleAtLeast(q - q', n);
    } else if q < q' {
      MultipleAtLeast(q' - q, n);
    }
  }

  lemma MultipleAtLeast(a: int, n: int)
    requires a >= 1 && n > 0
    ensures a * n >= n
  {
    assert a * n == (a - 1) * n + n;
    assert (a - 1) * n >= 0;
  }

  /** Round-robin placement: after arrivals holding `k` more players of the
      same team and role, the next one gets the slot `k` places further along
      the list, wrapping around at its end. */
  lemma PlacementAdvancesWithArrivals(team: int, role: string, existing: seq<Player>, arrivals: seq<Player>, k: nat, draw: Draw)
    requires ValidTeam(team) && draw.Valid()
    requires Lookup(team, role).Some?
    requires GroupCount(arrivals, team, role) == k
    ensures var slots := EntrySlots(Lookup(team, role).value);
      |slots| > 0 &&
      AutoPosition(team, role, existing + arrivals, draw).At() == slots[Wrap(GroupCount(existing, team, role) + k, |slots|)]
  {
    GroupCountAppend(existing, arrivals, team, role);
    PlacementAtCount(team, role, existing + arrivals, GroupCount(existing, team, role) + k, draw);
  }

  /** `PlacementBySlotIndex` for a roster whose group count is known. */
  lemma PlacementAtCount(team: int, role: string, players: seq<Player>, count: nat, draw: Draw)
    requires ValidTeam(team) && draw.Valid() && Lookup(team, role).Some?
    requires GroupCount(players, team, role) == count
    ensures var slots := EntrySlots(Lookup(team, role).value);
      |slots| > 0 && AutoPosition(team, role, players, draw).At() == slots[Wrap(count, |slots|)]
  {
    PlacementBySlotIndex(team, role, players, draw);
  }

  /** Both kinds of entry hand out the slot at the group count modulo the
      number of slots (a single slot is the one-element case). */
  lemma PlacementBySlotIndex(team: int, role: string, existing: seq<Player>, draw: Draw)
    requires ValidTeam(team) && draw.Valid() && Lookup(team, role).Some?
    ensures var slots := EntrySlots(Lookup(team, role).value);
      |slots| > 0 &&
      AutoPosition(team, role, existing, draw).At() == slots[Wrap(GroupCount(existing, team, role), |slots|)]
  {
    TableEntriesWellFormed(team, ParseRole(role).value);
  }

  /** Players of another team or role do not move the next placement. */
  lemma PlacementIgnoresOtherGroups(team: int, role: string, existing: seq<Player>, others: seq<Player>, draw: Draw)
    requires ValidTeam(team) && draw.Valid()
    requires forall i :: 0 <= i < |others| ==> others[i].team != team || others[i].role != role
    ensures AutoPosition(team, role, existing + others, draw) == AutoPosition(team, role, existing, draw)
  {
    GroupCountNone(others, team, role);
    GroupCountAppend(existing, others, team, role);
    PlacementDependsOnCountOnly(team, role, existing + others, existing, draw);
  }

  /** Placement reads the roster only through the group count. */
  lemma PlacementDependsOnCountOnly(team: int, role: string, a: seq<Player>, b: seq<Player>, draw: Draw)
    requires ValidTeam(team) && draw.Valid()
    requires GroupCount(a, team, role) == GroupCount(b, team, role)
    ensures AutoPosition(team, role, a, draw) == AutoPosition(team, role, b, draw)
  {
  }

  /** Once the list is exhausted placement cycles: after as many same-group
      arrivals as the entry has slots, the next player gets the same slot as
      before them (the fifth team-1 defender lands where the first did). */
  lemma PlacementWrapsAround(team: int, role: string, existing: seq<Player>, arrivals: seq<Player>, draw: Draw)
    requires ValidTeam(team) && draw.Valid()
    requires Lookup(team, role).Some?
    requires GroupCount(arrivals, team, role) == |EntrySlots(Lookup(team, role).value)|
    ensures AutoPosition(team, role, existing + arrivals, draw) == AutoPosition(team, role, existing, draw)
  {
    TableEntriesWellFormed(team, ParseRole(role).value);
    WrapOneRound(existing, arrivals, team, role, |EntrySlots(Lookup(team, role).value)|);
    PlacementDependsOnSlotIndex(team, role, existing + arrivals, existing, draw);
  }

  /** A full round of `n` same-group arrivals brings the slot index back to
      where it was. */
  lemma WrapOneRound(existing: seq<Player>, arrivals: seq<Player>, team: int, role: string, n: nat)
    requires n > 0 && GroupCount(arrivals, team, role) == n
    ensures Wrap(GroupCount(existing + arrivals, team, role), n) == Wrap(GroupCount(existing, team, role), n)
  {
    GroupCountAppend(existing, arrivals, team, role);
    var c := GroupCount(existing, team, role);
    assert Wrap(c + n, n) == Wrap(c, n);
  }

  /** Placement reads the group count only through the slot index it
      selects. */
  lemma PlacementDependsOnSlotIndex(team: int, role: string, a: seq<Player>, b: seq<Player>, draw: Draw)
    requires ValidTeam(team) && draw.Valid() && Lookup(team, role).Some?
    requires |EntrySlots(Lookup(team, role).value)| > 0
    requires var n := |EntrySlots(Lookup(team, role).value)|;
      Wrap(GroupCount(a, team, role), n) == Wrap(GroupCount(b, team, role), n)
    ensures AutoPosition(team, role, a, draw) == AutoPosition(team, role, b, draw)
  {
  }

  /** Until the list is exhausted, two players of the same team and role are
      never given the same slot: different group counts below the list length
      select different slots. */
  lemma FirstRoundSlotsDistinct(team: int, role: string, a: seq<Player>, b: seq<Player>, draw: Draw)
    requires ValidTeam(team) && draw.Valid()
    requires Lookup(team, role).Some?
    requires GroupCount(a, team, role) < |EntrySlots(Lookup(team, role).value)|
    requires GroupCount(b, team, role) < |EntrySlots(Lookup(team, role).value)|
    requires GroupCount(a, team, role) != GroupCount(b, team, role)
    ensures AutoPosition(team, role, a, draw).At() != AutoPosition(team, role, b, draw).At()
  {
    TableEntriesWellFormed(team, ParseRole(role).value);
    var slots := EntrySlots(Lookup(team, role).value);
    var ca, cb := GroupCount(a, team, role), GroupCount(b, team, role);
    assert Wrap(ca, |slots|) == ca && Wrap(cb, |slots|) == cb;
    if ca < cb {
      assert slots[ca] != slots[cb];
    } else {
      assert slots[cb] != slots[ca];
    }
  }

  /** The worked example: the first team-1 defender stands at (7, -7), the
      second at (7, 7). */
  lemma FirstDefendersOfTeam1(defender: Player, draw: Draw)
    requires defender.team == 1 && defender.role == RoleName(Defence) && draw.Valid()
    ensures AutoPosition(1, RoleName(Defence), [], draw) == Placement(7.0, -7.0, Zero)
    ensures AutoPosition(1, RoleName(Defence), [defender], draw) == Placement(7.0, 7.0, Zero)
  {
    assert GroupCount([defender], 1, RoleName(Defence)) == 1 by {
      assert [defender] == [] + [defender];
    }
  }
}
