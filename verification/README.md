# Team roster and player state of a two-team Photon shooter

This project models the two sequential cores of the game's scripts and proves properties about them.

- **Team roster and its wire format** (`PlayerManager`). The master client counts joins. It sends odd-numbered joiners to black and even-numbered joiners to white. It writes each name into the lowest free slot of that team's fixed six-slot array. It then broadcasts the count and both arrays as a 13-element payload. Every other client overwrites its copy from that payload. A client that receives `SpawnWithTeam` creates its player at most once.
- **Per-player state** (`PlayerSystem`). Each player object holds base and current stats from a character table. It also has a round phase (`Waiting` / `Playing`), an ability cooldown flag and a firing flag. It takes damage, receives heal and stop effects, reacts to round start and team win, and reads input only while playing.

Files:

- `int32.dfy` (module `Int32`): C# `int` semantics. Covers 32-bit wrap-around and the remainder that truncates toward zero.
- `roster.dfy` (modules `Options`, `Rosters`): the six-slot roster as `seq<Option<string>>`. `None` is a null slot. A slot is free when it is `None` or `Some("")`, as `string.IsNullOrEmpty` decides. The module also has first-fit placement and the membership scan.
- `team_sync.dfy` (module `PlayerManager`): `GetTeam` (its state change `AssignTeam`, then the broadcast), the payload encoder, `OnEvent`, `IsPlayerTeamBlack`, `SpawnWithTeam`, and the lemmas relating them.
- `player.dfy` (module `PlayerSystem`): the player record, its transitions, and the health and readiness invariants over any run of steps.

The model follows these details of the code:

- The roster payload marks an empty slot with a null string. It does not use a reserved sentinel string.
- The ability effects `GetAbilityEffect_Healing` and `GetAbilityEffect_Stopping` are sent to every copy of the target. The delayed `RechangeSpeed` is not guarded by `photonView.IsMine`, so these effects change every copy. Only `Damage`, `StartNewRound`, the win handlers and input handling are owner-only.
- `GetTeam` does not check whether the name is already listed. A name that joins twice is listed twice, on one team or on both. Only distinct names are listed at most once.
- `Damage` does not check the round phase. An owner that died and waits for the next round still takes hits, and can report another death before the round starts. So deaths are not reported at most once per round.
- The team-update event goes to the other clients only. The master's own state is the one `GetTeam` produced.
- A payload that is too short or has a wrongly typed element is applied up to the failing element. The C# loop has already written every slot before the one whose cast or index throws.

Integer fields are the newtype `Int32.i32`. `playersNumber++` and `health -= dam` wrap as unchecked C# arithmetic does. The parity test `playersNumber % 2 == 1` uses C#'s truncating remainder.

## Model

| member | source | states |
|---|---|---|
| Int32.Wrap | Assets/Scripts/PlayerManager.cs:73 | an unchecked C# int result: equal to the exact result when that fits in 32 bits, and always congruent to it modulo 2^32 |
| Int32.Rem2 | Assets/Scripts/PlayerManager.cs:75 | C# `% 2`: a remainder whose sign follows the dividend, and which differs from it by a multiple of 2 |
| Rosters.FirstFreeFrom | Assets/Scripts/PlayerManager.cs:78-83 | the upward scan from slot i finds a free slot with every slot between i and it taken, or reports that no slot from i on is free |
| Rosters.FirstFree | Assets/Scripts/PlayerManager.cs:78-83 | a slot is found exactly when the roster has a free one, and the slot found is the lowest free one |
| Rosters.Place | Assets/Scripts/PlayerManager.cs:88-93 | the name lands in the lowest free slot and every other slot is unchanged; a full roster is left as it was |
| Rosters.ContainsFrom | Assets/Scripts/PlayerManager.cs:158-161 | the scan from slot i answers true exactly when some slot from i on holds the name |
| Rosters.PlaceIntoPacked | Assets/Scripts/PlayerManager.cs:78-83 | placing a non-empty name into a roster packed with non-empty names appends it; after six names the name is dropped |
| PlayerManager.AssignTeam | Assets/Scripts/PlayerManager.cs:70-94 | the count goes up by exactly one, or wraps at the int maximum; the joiner goes to black exactly when the new count is positive and odd; only the chosen team's lowest free slot changes, and a full team is not changed at all |
| PlayerManager.GetTeam | Assets/Scripts/PlayerManager.cs:70-97 | the state and the spawn flag are `AssignTeam`'s, and the broadcast is the payload of the state after the slot write |
| PlayerManager.SlotValues | Assets/Scripts/PlayerManager.cs:107-110 | one payload string per roster slot, in slot order |
| PlayerManager.SendUpdateTeamsEvent | Assets/Scripts/PlayerManager.cs:103-110 | the payload has 13 elements: index 0 is the count, indices 1..6 are the white slots and indices 7..12 the black slots |
| PlayerManager.StopAt | Assets/Scripts/PlayerManager.cs:127-130 | the first slot whose payload element is missing or not a string: every slot before it can be read, and it cannot |
| PlayerManager.ReadSlots | Assets/Scripts/PlayerManager.cs:127-130 | the slot loop overwrites exactly the slots before the first unreadable element, each with its payload string, and keeps the rest; it completes exactly when no element is unreadable |
| PlayerManager.ApplyUpdate | Assets/Scripts/PlayerManager.cs:125-130 | it completes exactly when the payload is well formed, and then the state is the decoded payload. Otherwise a missing or non-int count changes nothing, and a later failure keeps the writes made before the failing element |
| PlayerManager.OnEvent | Assets/Scripts/PlayerManager.cs:120-132 | other event codes leave the state alone; a well-formed team update replaces the state with the decoded payload; a malformed one does not complete |
| PlayerManager.IsPlayerTeamBlack | Assets/Scripts/PlayerManager.cs:156-162 | true exactly when some black slot holds the name |
| PlayerManager.SpawnWithTeam | Assets/Scripts/PlayerManager.cs:138-150 | a player is instantiated, for the given team, exactly when the client has no local player yet; afterwards it has one |
| PlayerManager.SpawnAtMostOnce | Assets/Scripts/PlayerManager.cs:141-147 | over any sequence of `SpawnWithTeam` calls at most one player is instantiated. That happens exactly when the client had none and at least one call came, and it uses the first call's team |
| PlayerManager.BlackJoinerIsBlack | Assets/Scripts/PlayerManager.cs:75-83 | after a join that went to black and found a free slot, `IsPlayerTeamBlack` holds of the joined name |
| PlayerManager.FullTeamJoinerIsUnlisted | Assets/Scripts/PlayerManager.cs:75-83 | a joiner sent to a full black team gets the black spawn flag, yet `IsPlayerTeamBlack` is false for a name not already listed |
| PlayerManager.JoinParity | Assets/Scripts/PlayerManager.cs:73-77 | before the counter wraps, the k-th join goes to black exactly when k is odd |
| PlayerManager.EncodeDecode | Assets/Scripts/PlayerManager.cs:106-130 | the payload of any state is well formed and decodes to that same state |
| PlayerManager.ReplicaMirrorsMaster | Assets/Scripts/PlayerManager.cs:96-130 | any replica that receives a join's broadcast ends up with exactly the master's new state, whatever it held before |
| PlayerManager.UpdateReplacesState | Assets/Scripts/PlayerManager.cs:125-130 | a well-formed update gives the same result from any prior state (replace, not merge) |
| PlayerManager.OnEventIdempotent | Assets/Scripts/PlayerManager.cs:120-132 | applying an event twice leaves the same state and outcome as applying it once, for every payload including malformed ones |
| PlayerManager.JoinIntoPacked | Assets/Scripts/PlayerManager.cs:73-93 | a join into packed rosters at count n goes to black exactly when n is even, and appends the name to that team's packed roster |
| PlayerManager.AlternatingJoins | Assets/Scripts/PlayerManager.cs:70-97 | from a fresh session, after any sequence of non-empty names, the count is the number of joins. Black holds the 1st, 3rd, 5th, ... joiners and white the 2nd, 4th, ..., each in join order and cut at six |
| PlayerManager.JoinCount | Assets/Scripts/PlayerManager.cs:73 | from a fresh session, for any names (empty and repeated ones included), the count equals the number of joins until it would pass the int maximum |
| PlayerManager.NextJoinFlag | Assets/Scripts/PlayerManager.cs:73-87 | from a fresh session, the join after n earlier ones is sent to black exactly when n is even, whatever the names |
| PlayerManager.AlternatingFlags | Assets/Scripts/PlayerManager.cs:73-87 | from a fresh session, for any names (empty and repeated ones included), the `SpawnWithTeam` flags go black, white, black, ... in join order |
| PlayerManager.TwoPlayerScenario | Assets/Scripts/PlayerManager.cs:70-97 | any two names joining a fresh session put the first in black slot 0 and the second in white slot 0, with count 2 and flags black then white |
| PlayerManager.JoinKeepsUnique | Assets/Scripts/PlayerManager.cs:75-93 | from any state in which no roster lists a name twice and no name is on both teams, a join of a name not yet listed keeps it so |
| PlayerManager.ListedAmongJoiners | Assets/Scripts/PlayerManager.cs:78-93 | from a fresh session, every name listed on either team is one of the joined names |
| PlayerManager.NoDuplicateNames | Assets/Scripts/PlayerManager.cs:73-93 | from a fresh session, distinct names (an empty one included) are each listed at most once: neither roster holds a name twice and no name is on both teams, however many joins there are |
| PlayerManager.RepeatedNameListedTwice | Assets/Scripts/PlayerManager.cs:78-85 | the slot loop does not look for the name already being listed: "A", "B", "A" joining a fresh session list "A" in black slots 0 and 1 |
| PlayerSystem.InitChosenCharacter | Assets/Scripts/PlayerSystem.cs:273-295 | the King overrides all four stats (200/80/20/40). The Queen sets health, speed and bullet speed and keeps damage. The Pawn sets health, speed and damage and keeps bullet speed. Any other index keeps every default |
| PlayerSystem.CharacterTable | Assets/Scripts/PlayerSystem.cs:34-37 | from the declared defaults 100/100/10/150 the table gives King 200/80/20/40, Queen 110/110/10/200, Pawn 80/140/5/150, any other index 100/100/10/150, and always a positive base health |
| PlayerSystem.SwitchPlayState | Assets/Scripts/PlayerSystem.cs:403-432 | only the firing flag can change, and it is cleared exactly when the owner switches to `Waiting` |
| PlayerSystem.Start | Assets/Scripts/PlayerSystem.cs:117-158 | a started object waits, has the base stats of the given character, has current stats equal to them, and may use its ability only if owned. The character is this client's `PlayerManager.chosenCharacter` for every copy, owned or not (line 123) |
| PlayerSystem.Damage | Assets/Scripts/PlayerSystem.cs:344-358 | a copy that is not owned is unchanged. For the owner, when the wrapped 32-bit result of `health - dam` is positive, health becomes that result, nothing else changes and nothing is reported (so it drops by exactly `dam` when no overflow occurs). Otherwise health resets to base, exactly one death is reported, the player waits with firing stopped, and nothing else changes. With a positive base, health is positive afterwards |
| PlayerSystem.DeathReportedAgainWhileWaiting | Assets/Scripts/PlayerSystem.cs:344-358 | `Damage` does not check the round phase: an owner at health 50 and base 100 hit for 60 and then for 100 reports two deaths, the second while waiting for the next round |
| PlayerSystem.Healing | Assets/Scripts/PlayerSystem.cs:247-253 | health becomes the base health and nothing else changes |
| PlayerSystem.Stopping | Assets/Scripts/PlayerSystem.cs:259-266 | speed becomes 20 and nothing else changes |
| PlayerSystem.RechangeSpeed | Assets/Scripts/PlayerSystem.cs:440-444 | speed becomes the base speed and nothing else changes |
| PlayerSystem.AbilityCooldown | Assets/Scripts/PlayerSystem.cs:434-438 | the ability becomes available and nothing else changes |
| PlayerSystem.StartNewRound | Assets/Scripts/PlayerSystem.cs:321-330 | the owner's phase becomes `Playing` with nothing else changed; other copies are unchanged |
| PlayerSystem.WinTeam | Assets/Scripts/PlayerSystem.cs:363-388 | for either winning team the owner's phase becomes `Waiting` and firing stops; other copies are unchanged |
| PlayerSystem.Update | Assets/Scripts/PlayerSystem.cs:163-229 | the reports are exactly: ready when the owner first reaches the game scene, then the ability effect (healing for a team mate, stopping for an enemy) when a playing owner presses the ability button with the ability available and a player in its aim. The ability becomes unavailable exactly when it fires. Stats, phase and ownership never change. An unowned object keeps its firing flag. A waiting owner keeps it, except that entering the game scene clears it. A playing owner follows the fire button |
| PlayerSystem.InputIgnoredWhileWaiting | Assets/Scripts/PlayerSystem.cs:185-189 | for a waiting owner, or for a copy it does not own, a frame's result does not depend on the input |
| PlayerSystem.StopThenRestore | Assets/Scripts/PlayerSystem.cs:259-266 | a stop followed by its scheduled restore leaves the player at base speed with nothing else changed |
| PlayerSystem.StepKeepsHealth | Assets/Scripts/PlayerSystem.cs:344-358 | every possible step keeps ownership and base stats, and keeps base and current health positive |
| PlayerSystem.HealthStaysPositive | Assets/Scripts/PlayerSystem.cs:348-351 | from a healthy player, health stays positive across any sequence of steps |
| PlayerSystem.StartIsHealthy | Assets/Scripts/PlayerSystem.cs:298-301 | a freshly started player of any character has positive base and current health |
| PlayerSystem.StepReadyOnce | Assets/Scripts/PlayerSystem.cs:167-181 | a step reports ready at most once (its multiplicity in the step's reports), and only before the game scene was reached; only a game-scene frame sets the reached flag |
| PlayerSystem.ReadyAtMostOnce | Assets/Scripts/PlayerSystem.cs:167-181 | over any sequence of steps a player object reports ready at most once, and never again once it has reached the game scene |

## Left out

- The coordinator methods the player object calls are not part of this model: `SetPlayerReady`, `SetPlayerDead`, `AreInSameTeam`, the score fields and the spawn-transform getters. So there are no ready thresholds, alive counters, scores or win detection. Readiness and death are emitted reports, and the team-mate test is an input to `Update`.
- Photon transport is not modelled: RPC dispatch, `RaiseEvent` delivery, reliability and receiver groups, `PhotonNetwork.Instantiate` and `OnPhotonSerializeView`. A payload is a plain sequence of tagged int/string values. A `CustomData` that is not an object array is not modelled.
- Rendering, cameras, the first-person controller, particles, audio, the stats text, the scoreboard toggle and the win banners are presentation. So is the respawn position `SwitchPlayState` picks with `IsPlayerTeamBlack`.
- Firing (`Fire`, `nextFire`, `Time.time`) and the float `fireRate`/`baseFireRate` are floating-point frame timing. The Pawn's fire-rate change is left out with them.
- Coroutine timing (`WaitForSeconds`) is not modelled. `RechangeSpeed` and `AbilityCooldown` are explicit later steps that may happen at any point.
- A sphere-cast hit on an object without a `PlayerSystem` component throws in the source. The model's `Aim` only represents hits on players.
- Names are non-null strings. A null `chosenName` is not modelled. It would make `IsPlayerTeamBlack` match a null slot.
- The stat defaults are the declared field initialisers. Values overridden in the Unity inspector are not modelled.
- Assets/Scripts/GameSetup.cs (connection, room creation, menus) is I/O and UI. Its loop at lines 84-87 is a busy-wait defect. It starts coroutines over and over while `isRoomLoaded` is false. The callback that sets the flag (line 54) cannot run while the loop holds the main thread, so the loop never ends once entered with the flag false. It is noted here and not modelled.
- Assets/Scripts/MenuMusic.cs (a float audio fade) and Assets/Scripts/TitlePulse.cs (random title colours) are presentation.
