# Roster core of the five-a-side formation board

The application is a browser tool for laying out two football teams on a 3D
pitch. Under the React and three.js presentation sits a small roster layer
in `src/App.tsx`, and this project models that layer in Dafny:

- **Formation** (`formation.dfy`). This covers the `POSITION_COORDINATES`
  table and `getAutoPosition`. A goalkeeper gets the one fixed spot of its
  team. A role with a list of spots is placed round-robin: it gets the spot
  at the number of same-team, same-role players modulo the list length. Any
  other role string is scattered over the pitch by two random draws. The
  facing depends on the team alone.
- **Roster** (`roster.dfy`). These are the whole-list updates of the side
  panel and the scene: `updatePosition` (drag), `updatePlayer`, `addPlayer`,
  `addTeam7` and `removePlayer`. A team or role edit re-places the player
  against the roster without itself. `addTeam7` places each of its fourteen
  recruits against the roster plus the recruits made before it.
- **Session** (`session.dfy`). This is the page state around the roster: the
  admin flag, the selection, the camera toggle, the dragged id and the login
  dialog. Each user event is a `Step`. Only an admin changes the roster, and
  only an admin drag moves players or stops the camera from orbiting. Login
  succeeds exactly when a password is configured and the submitted one equals
  it.
- **Text** and **Wrappers** (`text.dfy`, `wrappers.dfy`). These hold
  the decimal rendering that ids and names are built with, and the optional
  value type.

Some inputs are outside the model and become parameters:

- The clock (`Date.now()`) becomes `now: nat`.
- The two `Math.random()` calls become a `Draw` of two reals in [0, 1).
- The build-time admin password becomes `configured`. It is the empty string
  when unset.
- Coordinates are `real`.
- The facing is `Zero` or `HalfTurn`, standing for 0 and π radians.

Two behaviours of the code are easy to misread, and the model follows the
code in both:

- `removePlayer` keeps every player whose id differs, so it drops all holders
  of the id, not exactly one.
- `removePlayer` clears the selection whichever card was selected.

## Model

| member | source | states |
|---|---|---|
| Formation.PitchWidth | src/App.tsx:355 | definition, no contract: `PITCH_WIDTH`, 18, the x extent the random fallback scatters over |
| Formation.PitchLength | src/App.tsx:356 | definition, no contract: `PITCH_LENGTH`, 28, the z extent the random fallback scatters over |
| Formation.RoleName | src/App.tsx:360-407 | the five role names the table is keyed by each parse back to their role |
| Formation.ParseRole | src/App.tsx:435-436 | definition, no contract: the key lookup `teamPositions[role]` as a partial map from strings to the five roles |
| Formation.ParseRoleRoundTrip | src/App.tsx:435-436 | a string with a table entry is exactly the name of the role it parses to, so the table has no keys besides the five names |
| Formation.RoleNameInjective | src/App.tsx:447 | comparing role strings, as the group count does, is the same as comparing roles |
| Formation.TableEntry | src/App.tsx:360-407 | the `POSITION_COORDINATES` table for teams 1 and 2; exactly the goalkeeper entry is a single spot, every other role has a list |
| Formation.Lookup | src/App.tsx:435-436 | a role string has a table entry exactly when it is one of the five role names; any other string takes the random fallback |
| Formation.FacingFor | src/App.tsx:442 | the facing `team === 1 ? 0 : Math.PI` used in all three branches (also 453 and 459): 0 exactly for team 1 |
| Formation.TableEntriesWellFormed | src/App.tsx:360-407 | no table entry is an empty list and no entry lists the same spot twice |
| Formation.TableEntrySizes | src/App.tsx:360-407 | every entry holds one, two or four spots |
| Formation.AutoPosition | src/App.tsx:434-462 | the facing is 0 exactly for team 1; a mapped role lands on a spot of its entry, a single spot is always given, a list hands out the spot at the group count wrapped by the list length, and an unmapped role lands inside the pitch bounds |
| Formation.DrawOnlyForUnmappedRole | src/App.tsx:438-444 | the random draw matters exactly when the role has no table entry: a mapped role ignores it, and for an unmapped role different draws give different spots |
| Formation.GoalkeeperSpotFixed | src/App.tsx:455-461 | the goalkeeper of team 1 always stands at (11, 0) facing 0, the one of team 2 at (-11, 0) facing π, whatever the roster |
| Formation.InGroup | src/App.tsx:447 | definition, no contract: the filter callback `p.team === team && p.role === role` |
| Formation.GroupCount | src/App.tsx:447 | definition, no contract: the length of `existingPlayers.filter(p => p.team === team && p.role === role)`; GroupCountAppend and GroupCountNone are its partners |
| Formation.GroupCountAppend | src/App.tsx:447 | the same-team, same-role count of a concatenation is the sum of the counts of the parts |
| Formation.GroupCountNone | src/App.tsx:447 | a roster without members of the group counts zero |
| Formation.Wrap | src/App.tsx:448 | the wrapped index is always below the list length |
| Formation.WrapIsRemainder | src/App.tsx:448 | the wrapped index is the remainder `count % length` of the source |
| Formation.PlacementBySlotIndex | src/App.tsx:446-461 | single spots and lists alike hand out the spot at the group count modulo the number of spots |
| Formation.PlacementAtCount | src/App.tsx:446-454 | for a roster known to hold `count` group members, the spot handed out is the one at `count` modulo the list length |
| Formation.PlacementAdvancesWithArrivals | src/App.tsx:446-454 | after arrivals holding k more group members the next player gets the spot k places further round the list |
| Formation.PlacementIgnoresOtherGroups | src/App.tsx:447 | players of another team or role appended to the roster do not change the next placement |
| Formation.PlacementDependsOnCountOnly | src/App.tsx:447-453 | two rosters with the same group count give the same placement |
| Formation.PlacementDependsOnSlotIndex | src/App.tsx:448-453 | two rosters whose group counts select the same index give the same placement |
| Formation.WrapOneRound | src/App.tsx:448 | a full round of as many group arrivals as the list has spots brings the index back where it was |
| Formation.PlacementWrapsAround | src/App.tsx:446-454 | after as many same-group arrivals as the entry has spots the placement is the one before them (the fifth team-1 defender stands where the first did) |
| Formation.FirstRoundSlotsDistinct | src/App.tsx:446-454 | two different group counts below the list length never get the same spot |
| Formation.FirstDefendersOfTeam1 | src/App.tsx:363-365 | the first team-1 defender stands at (7, -7) and the second at (7, 7) |
| Roster.Placed | src/App.tsx:976-978 | definition, no contract: the `x`, `z` and `facing` overrides taken from `autoPos` (also 988-990) |
| Roster.MapMatching | src/App.tsx:705 | `map` with an id test: same length, matching entries transformed, the rest untouched |
| Roster.Find | src/App.tsx:969 | `find` returns nothing exactly when no player has the id, and otherwise the first player that has it |
| Roster.UpdatePosition | src/App.tsx:703-706 | exactly the players with the id get the new x and z and nothing else changes; other players, length, order and ids are kept, and so is roster consistency |
| Roster.LastMoveWins | src/App.tsx:712-716 | of two drag updates of the same player only the second counts |
| Roster.MoveBackRestores | src/App.tsx:703-706 | moving a uniquely identified player back to where it stood restores the roster |
| Roster.RemovePlayer | src/App.tsx:1045-1049 | the result is no longer than the roster and holds no player with the removed id |
| Roster.RemoveKeepsOthers | src/App.tsx:1047 | every player with a different id survives, removal never invents a player, and the roster shrinks whenever some player holds the id |
| Roster.RemoveIsFilter | src/App.tsx:1047 | removal equals a front-to-back filter: exactly the players with another id, each once, in their order |
| Roster.RemoveAppend | src/App.tsx:1047 | removal distributes over concatenation |
| Roster.RemoveAbsent | src/App.tsx:1047 | removing an id no player has returns the roster unchanged |
| Roster.RemoveKeepsRosterValid | src/App.tsx:1045-1049 | removal keeps every player consistent and the ids unique |
| Roster.Edited | src/App.tsx:973-995 | definition, no contract: the computed-key update `[field]: newTeam` or `[field]: value` of the one edited field (975, 987, 994) |
| Roster.UpdatePlayer | src/App.tsx:965-996 | a name edit changes only the name; a team or role edit gives the edited player the new field and the spot `getAutoPosition` picks for the found player's new team and role against the roster without that id; other players are untouched and an unknown id changes nothing |
| Roster.FindUnique | src/App.tsx:969 | with unique ids `find` returns the player at the id's position |
| Roster.UpdatePlayerKeepsIds | src/App.tsx:965-996 | edits keep the length, the order and every id |
| Roster.UpdatePlayerKeepsRosterValid | src/App.tsx:965-996 | edits keep every player consistent (a re-placed player faces its new team's way) and the ids unique |
| Roster.RoleEditPlacesAgainstRest | src/App.tsx:981-991 | a role edit puts the player where `getAutoPosition` places its team and new role against the others |
| Roster.RoleEditSlot | src/App.tsx:984 | a role edit hands out the spot selected by the group count of the roster without the edited player |
| Roster.RemoveSoleHolderCount | src/App.tsx:984 | removing the one holder of an id lowers its own group's count by one and leaves every other group's count alone |
| Roster.RemoveLowersGroupCount | src/App.tsx:984 | with unique ids, leaving a player out lowers exactly its own group's count by one |
| Roster.RoleEditCountsOthersOnly | src/App.tsx:981-991 | the spot a role edit gives is chosen by the number of other players already in the new role, never counting the player itself |
| Roster.AddPlayer | src/App.tsx:998-1016 | exactly one player is appended after the unchanged roster: id from the clock, name `Oyuncu n+1`, role ORTA SAHA, the given team, height 0, on the midfield spot the team's midfield count selects, facing its team's way |
| Roster.MidfieldSlots | src/App.tsx:369-393 | each team's midfield list has four spots |
| Roster.AddPlayerKeepsIdsUnique | src/App.tsx:1001 | adding under an unused clock reading keeps the ids unique |
| Roster.AddPlayerGrowsMidfield | src/App.tsx:1002-1003 | each add raises its team's midfield count by one, so successive adds walk the midfield spots |
| Roster.RemoveUndoesAdd | src/App.tsx:1045-1049 | removing the player just added under a fresh id gives back the roster as it was |
| Roster.Roles7 | src/App.tsx:1021 | definition, no contract: the `roles7` list, goalkeeper, three defenders, two midfielders, forward |
| Roster.RecruitTeam | src/App.tsx:1024 | definition, no contract: `[1, 2].forEach` makes the first seven recruits team 1 and the next seven team 2 |
| Roster.RecruitId | src/App.tsx:1026 | definition, no contract: the id `${team}-${now}-${idx}`; its partner is RecruitIdsDistinct |
| Roster.RecruitIdsDistinct | src/App.tsx:1026 | the fourteen ids `${team}-${now}-${idx}` of one call are equal only for the same recruit |
| Roster.RecruitName | src/App.tsx:1031 | definition, no contract: the name `${role} ${team}-${idx + 1}`; its partner is RecruitNamesDistinct |
| Roster.RecruitNamesDistinct | src/App.tsx:1031 | the fourteen names of one call are equal only for the same recruit: the index digit ends each name and the team digit follows the role |
| Roster.Recruit | src/App.tsx:1024-1038 | the k-th recruit has the k-th recruit id and name, team 1 for the first seven and team 2 after, the role of its place in `roles7`, and is consistent |
| Roster.RecruitPlacement | src/App.tsx:1027 | a recruit takes the spot its group count in the roster it is placed against selects |
| Roster.Recruits | src/App.tsx:1024-1040 | the first n recruits carry the teams and roles of the fixed order and are all consistent |
| Roster.RecruitsStep | src/App.tsx:1027-1038 | each recruit is appended after the earlier ones and placed against the roster plus them |
| Roster.RecruitsPrefix | src/App.tsx:1024-1040 | generating fewer recruits gives a prefix of generating more |
| Roster.RecruitAt | src/App.tsx:1027 | the k-th recruit is placed against the roster followed by the k recruits before it |
| Roster.RecruitsGroupStep | src/App.tsx:1024-1025 | one more recruit adds one to its own group's count and nothing to another group's |
| Roster.RecruitsGroupCount | src/App.tsx:1021-1025 | the recruits made so far hold exactly the team and role pairs the fixed order dictates |
| Roster.RecruitsCount | src/App.tsx:1027 | the roster seen by the k-th recruit holds the roster's own group members plus the earlier recruits of the same group |
| Roster.RecruitsPlacement | src/App.tsx:1024-1038 | the k-th recruit stands on its group's spot after that many predecessors |
| Roster.AddTeam7 | src/App.tsx:1018-1043 | exactly fourteen players are appended after the unchanged roster, seven for team 1 in `roles7` order and then seven for team 2, each named `${role} ${team}-${idx + 1}`, and consistency is kept |
| Roster.AddTeam7Placement | src/App.tsx:1024-1042 | the k-th new player stands on the spot of its team and role reached after the group's players on the roster and its earlier recruits |
| Roster.AddTeam7Id | src/App.tsx:1026-1031 | the k-th new player carries the k-th recruit id and the k-th recruit name |
| Roster.AddTeam7IdAt | src/App.tsx:1042 | the returned roster has the old ids first, then the fourteen recruit ids |
| Roster.AddTeam7KeepsIdsUnique | src/App.tsx:1026 | when none of the fourteen ids is in use, the ids stay unique |
| Text.NatToString | src/App.tsx:1001 | the decimal rendering is non-empty, all digits, with a leading zero only for zero |
| Text.DigitsValueOfNatToString | src/App.tsx:1001 | reading a rendered number back gives the number |
| Text.Join | src/App.tsx:1026 | definition, no contract: a template literal writes its parts one after another |
| Text.JoinFive | src/App.tsx:1026 | a five-part template literal such as `${team}-${now}-${idx}` is the concatenation of its five parts |
| Text.NatToStringInjective | src/App.tsx:1008 | different numbers render differently, so `Oyuncu 3` and `Oyuncu 4` differ |
| Session.Outcome | src/App.tsx:1391-1402 | login is accepted exactly when a password is configured and the input equals it, and is reported as unconfigured exactly when none is set |
| Session.HandleAdminLogin | src/App.tsx:1391-1402 | the admin flag is set and the dialog closed exactly on acceptance; nothing else changes |
| Session.HandleAdminLogout | src/App.tsx:1404-1407 | logout clears the admin flag and the selection and changes nothing else |
| Session.DragActive | src/App.tsx:690 | definition, no contract: `dragId` as a JavaScript condition, so the empty string counts as no drag |
| Session.PlaneShown | src/App.tsx:742 | definition, no contract: `dragId && isAdmin`, the condition that mounts the interaction plane, ends a drag on mouse-up and stops the camera |
| Session.OrbitControlsEnabled | src/App.tsx:748 | the camera may orbit exactly when the toggle is on and no admin drag is under way |
| Session.PressPlayer | src/App.tsx:531 | an admin press makes the pressed player's id the dragged id and changes nothing else (the plane appears for any non-empty id); a visitor's press does nothing |
| Session.MovePointer | src/App.tsx:710-716 | a pointer move changes at most the roster, and nothing without an admin drag |
| Session.StopDrag | src/App.tsx:689-694 | after mouse-up no admin drag remains, only the drag id can change, and nothing changes without an admin drag |
| Session.Initial | src/App.tsx:604-1374 | definition, no contract: the `useState` initial values, no players, nothing selected, orbit on, not admin, dialog closed (1370-1374), and no drag (604) |
| Session.Step | src/App.tsx:531-1558 | every event handler: press (531), drag and mouse-up (688-716), the roster buttons (965-1049), orbit toggle (1168), card select (1327), login and logout (1391-1407), the dialog (1513, 1558). A visitor's event never changes the roster; only submitting the password or logging out changes the admin flag; the dialog is never open for an admin. The select and toggle branches are stated by AdminPanelChoices, the roster buttons by AdminRosterEvents |
| Session.InitialGood | src/App.tsx:604-1374 | the first page state is consistent, not admin, and lets the camera orbit |
| Session.StepKeepsGood | src/App.tsx:531-1558 | every page event keeps the players consistent, the ids unique (given fresh clock readings) and the dialog closed for an admin |
| Session.UpdatePositionKeepsIds | src/App.tsx:703-706 | drag updates keep unique ids unique |
| Session.VisitorCannotEdit | src/App.tsx:531-1558 | without admin rights no event changes the roster, the selection, the camera toggle or the drag |
| Session.AdminRosterEvents | src/App.tsx:998-1049 | for an admin, add appends and selects the new player, add-team appends the fourteen recruits, remove drops the id and clears the selection whatever was selected, an edit re-places; nothing else on the page changes |
| Session.AdminPanelChoices | src/App.tsx:1166-1327 | for an admin, selecting a card selects exactly that player (1327) and the camera toggle sets the orbit flag to its new value (1168); nothing else changes |
| Session.LoginSucceedsIff | src/App.tsx:1391-1402 | a visitor becomes admin exactly when the dialog is open, a password is configured and the submitted one equals it |
| Session.LogoutThenLogin | src/App.tsx:1404-1407 | logging out clears admin and selection and keeps the roster; logging back in restores admin with the roster intact |
| Session.PressAndRelease | src/App.tsx:688-701 | during an admin drag the camera cannot orbit; releasing restores the camera flag exactly as before the press |
| Session.LogoutStopsDragEffect | src/App.tsx:712-716 | after logout the plane is gone and pointer moves change nothing |
| Session.Drag | src/App.tsx:710-716 | a gesture without an admin drag changes nothing |
| Session.DragEndsAtLastPoint | src/App.tsx:703-716 | a whole drag gesture equals one move to its last point: only the dragged player's x and z change |

## Left out

- Camera framing, presets, manual camera edits, view-angle polling and all rendering: these are floating-point three.js state, timers and JSX with no roster logic.
- The login dialog's animation delays and its attempt counter: they are timers and a display-only count. The model keeps only the dialog's check that the typed password equals the configured one before it calls `handleAdminLogin`.
- `parseInt` of the team selector's value: the model takes an integer team. Teams other than 1 and 2 make the table lookup throw in the source, so a team of 1 or 2 is a precondition (`Admissible`, `EditPlaceable`).
- Edits of fields other than team, role and name: the player card sends only these three.
- Property keys such as `toString` that a JavaScript object lookup would also find: the model's table knows only the five role names.
- The difference between the `players` closure and the `prev` argument inside `addPlayer`, `addTeam7` and `updatePlayer` (whose `find` and `filter` read `players` while its `map` runs over `prev`): the model has one roster state and applies events one at a time.
- `Roster.AddTeam7`: `Date.now()` is read once per recruit in the source; the model uses one reading `now` for all fourteen ids.
- `Roster.UpdatePlayerKeepsRosterValid`: it assumes unique ids. With a duplicated id the source re-places every holder at the spot computed for the first holder.
- `Session.StepKeepsGood`: it assumes adds use clock readings whose ids are not yet on the roster (`FreshIds`). The source does not check this.
- Exact floating-point arithmetic of the random fallback: coordinates are reals, so `(draw - 0.5) * 18` is exact in the model.
