/**
 PlayerManager: the master client assigns each joining player to a team and
 broadcasts both rosters; every other client replaces its copy of the rosters
 with the broadcast one.
 */
module PlayerManager {
  import opened Options
  import opened Rosters
  import Int32

  type i32 = Int32.i32

  /** A C# `byte`, the type of a Photon event code. */
  newtype byte = x: int | 0 <= x < 0x100

  /** The team state every client holds: `playersNumber`, `teamWhite`, `teamBlack`. */
  datatype Teams = Teams(playersNumber: i32, white: Roster, black: Roster)

  /** The state after `Awake`: no joins counted, both rosters `new string[6]`. */
  const Initial: Teams := Teams(0, Empty, Empty)

  /** One element of an `object[]` event payload: a boxed int or a (possibly null) string. */
  datatype Value = Int(n: i32) | Str(s: Option<string>)

  /** A received Photon event: its code and its custom data. */
  datatype Event = Event(code: byte, data: seq<Value>)

  /** `updateTeamsEvenCode`. */
  const UpdateTeamsEventCode: byte := 0

  /** The length of the team-update payload: the count, six white slots, six black slots. */
  const PayloadLength: nat := 1 + 2 * Capacity

  /** The test `(playersNumber % 2) == 1` with C#'s truncating remainder. */
  predicate JoinsBlack(playersNumber: i32) {
    Int32.Rem2(playersNumber as int) == 1
  }

  /** The state change of one join: the new state, and the flag sent back to the joining player with the `SpawnWithTeam` RPC. */
  datatype Assignment = Assignment(teams: Teams, spawnBlack: bool)

  /**
   The body of `GetTeam` up to the broadcast: count the join, pick the team by
   the parity of the new count and write the name into that team's lowest free
   slot. A full team drops the name, yet the count still advances and the flag
   still goes out.
   */
  function AssignTeam(t: Teams, name: string): (a: Assignment)
    ensures t.playersNumber as int < Int32.Max ==> a.teams.playersNumber as int == t.playersNumber as int + 1
    ensures t.playersNumber as int == Int32.Max ==> a.teams.playersNumber as int == Int32.Min
    ensures a.spawnBlack <==> a.teams.playersNumber > 0 && a.teams.playersNumber % 2 == 1
    ensures a.spawnBlack ==> a.teams.white == t.white
    ensures a.spawnBlack ==> forall k :: IsLowestFree(t.black, k) ==> a.teams.black == t.black[k := Some(name)]
    ensures a.spawnBlack && !HasFree(t.black) ==> a.teams.black == t.black
    ensures !a.spawnBlack ==> a.teams.black == t.black
    ensures !a.spawnBlack ==> forall k :: IsLowestFree(t.white, k) ==> a.teams.white == t.white[k := Some(name)]
    ensures !a.spawnBlack && !HasFree(t.white) ==> a.teams.white == t.white
  {
    var count := Int32.Wrap(t.playersNumber as int + 1);
    if JoinsBlack(count) then Assignment(Teams(count, t.white, Place(t.black, name)), true)
    else Assignment(Teams(count, Place(t.white, name), t.black), false)
  }

  /**
   The result of one `GetTeam` call on the master: the state change, and the
   payload of the team-update event raised afterwards.
   */
  datatype Join = Join(teams: Teams, spawnBlack: bool, broadcast: seq<Value>)

  /** `GetTeam`: the join's state change and spawn flag, then a broadcast of the whole new state. */
  function GetTeam(t: Teams, name: string): (j: Join)
    ensures Assignment(j.teams, j.spawnBlack) == AssignTeam(t, name)
    ensures j.broadcast == SendUpdateTeamsEvent(j.teams)
  {
    var a := AssignTeam(t, name);
    Join(a.teams, a.spawnBlack, SendUpdateTeamsEvent(a.teams))
  }

  /** The six slots of a roster as payload strings. */
  function SlotValues(r: Roster): (vs: seq<Value>)
    ensures |vs| == Capacity
    ensures forall i :: 0 <= i < Capacity ==> vs[i] == Str(r[i])
  {
    [Str(r[0]), Str(r[1]), Str(r[2]), Str(r[3]), Str(r[4]), Str(r[5])]
  }

  /** `SendUpdateTeamsEvent`: the payload of the team-update event. */
  function SendUpdateTeamsEvent(t: Teams): (p: seq<Value>)
    ensures |p| == PayloadLength
    ensures p[0] == Int(t.playersNumber)
    ensures forall i :: 0 <= i < Capacity ==> p[1 + i] == Str(t.white[i])
    ensures forall i :: 0 <= i < Capacity ==> p[1 + Capacity + i] == Str(t.black[i])
  {
    [Int(t.playersNumber)] + SlotValues(t.white) + SlotValues(t.black)
  }

  /** Payload element `offset + j` exists and is a string (or null), so the cast `(string)` on it succeeds. */
  predicate SlotOk(data: seq<Value>, offset: nat, j: nat) {
    offset + j < |data| && data[offset + j].Str?
  }

  /** The string payload element `offset + j` holds; only read where `SlotOk` holds. */
  function SlotAt(data: seq<Value>, offset: nat, j: nat): Slot
  {
    if SlotOk(data, offset, j) then data[offset + j].s else None
  }

  /** A payload `OnEvent` reads without an exception: an int, then twelve strings. */
  predicate WellFormed(data: seq<Value>) {
    && |data| >= PayloadLength
    && data[0].Int?
    && forall k :: 1 <= k < PayloadLength ==> data[k].Str?
  }

  /** The six strings of the payload starting at `offset`, as a roster. */
  function SlotsAt(data: seq<Value>, offset: nat): (r: Roster)
    requires forall j :: 0 <= j < Capacity ==> SlotOk(data, offset, j)
  {
    assert SlotOk(data, offset, 0) && SlotOk(data, offset, 1) && SlotOk(data, offset, 2);
    assert SlotOk(data, offset, 3) && SlotOk(data, offset, 4) && SlotOk(data, offset, 5);
    [data[offset].s, data[offset + 1].s, data[offset + 2].s,
     data[offset + 3].s, data[offset + 4].s, data[offset + 5].s]
  }

  /** In a well-formed payload both runs of six slots can be read. */
  lemma WellFormedSlots(data: seq<Value>)
    requires WellFormed(data)
    ensures forall j :: 0 <= j < Capacity ==> SlotOk(data, 1, j) && SlotOk(data, 1 + Capacity, j)
  {
    forall j | 0 <= j < Capacity ensures SlotOk(data, 1, j) && SlotOk(data, 1 + Capacity, j) {
      assert data[1 + j].Str? && data[1 + Capacity + j].Str?;
    }
  }

  /** The state a well-formed payload describes. */
  function Decoded(data: seq<Value>): (t: Teams)
    requires WellFormed(data)
  {
    WellFormedSlots(data);
    Teams(data[0].n, SlotsAt(data, 1), SlotsAt(data, 1 + Capacity))
  }

  /**
   The first roster index at or after `i` whose payload element (at
   `offset + index`) is missing or not a string; `Capacity` if there is none.
   */
  function StopAt(data: seq<Value>, offset: nat, i: nat): (k: nat)
    requires i <= Capacity
    ensures i <= k <= Capacity
    ensures forall j :: i <= j < k ==> SlotOk(data, offset, j)
    ensures k < Capacity ==> !SlotOk(data, offset, k)
    decreases Capacity - i
  {
    if i == Capacity then Capacity
    else if !SlotOk(data, offset, i) then i
    else StopAt(data, offset, i + 1)
  }

  /** A slot loop's result: the roster as far as it was written, and whether the loop ended normally. */
  datatype SlotsRead = SlotsRead(roster: Roster, done: bool)

  /**
   One slot loop of `OnEvent`: slots `i`, `i + 1`, ... are overwritten from the
   payload until the loop ends or an index or cast fails; the flag says whether
   the loop ended normally.
   */
  function ReadSlots(r: Roster, data: seq<Value>, offset: nat, i: nat): (res: SlotsRead)
    requires i <= Capacity
    ensures res.done <==> StopAt(data, offset, i) == Capacity
    ensures forall j :: 0 <= j < Capacity ==>
      res.roster[j] == if i <= j < StopAt(data, offset, i) then SlotAt(data, offset, j) else r[j]
    decreases Capacity - i
  {
    if i == Capacity then SlotsRead(r, true)
    else if !SlotOk(data, offset, i) then SlotsRead(r, false)
    else ReadSlots(r[i := data[offset + i].s], data, offset, i + 1)
  }

  /** What `OnEvent` leaves behind: the new state, and whether it ran to the end without an exception. */
  datatype Applied = Applied(teams: Teams, completed: bool)

  /**
   The body of `OnEvent` for a team-update event: the count, then the white
   slots, then the black slots are overwritten in that order, each write
   happening before the next element is read, so a short or mistyped payload
   leaves the writes made before the failing element.
   */
  function ApplyUpdate(t: Teams, data: seq<Value>): (r: Applied)
    ensures r.completed <==> WellFormed(data)
    ensures WellFormed(data) ==> r.teams == Decoded(data)
    ensures |data| == 0 || !data[0].Int? ==> r.teams == t
    ensures |data| > 0 && data[0].Int? ==> r.teams.playersNumber == data[0].n
    ensures |data| > 0 && data[0].Int? ==> forall i :: 0 <= i < Capacity ==>
      r.teams.white[i] == if i < StopAt(data, 1, 0) then SlotAt(data, 1, i) else t.white[i]
    ensures |data| > 0 && data[0].Int? ==> forall i :: 0 <= i < Capacity ==>
      r.teams.black[i] == if StopAt(data, 1, 0) == Capacity && i < StopAt(data, 1 + Capacity, 0)
                          then SlotAt(data, 1 + Capacity, i) else t.black[i]
  {
    if |data| == 0 || !data[0].Int? then Applied(t, false)
    else
      var SlotsRead(white, whiteDone) := ReadSlots(t.white, data, 1, 0);
      if !whiteDone then Applied(Teams(data[0].n, white, t.black), false)
      else
        var SlotsRead(black, blackDone) := ReadSlots(t.black, data, 1 + Capacity, 0);
        assert blackDone ==> forall k :: 1 <= k < PayloadLength ==> data[k].Str? by {
          if blackDone {
            forall k | 1 <= k < PayloadLength ensures data[k].Str? {
              if k <= Capacity {
                assert SlotOk(data, 1, k - 1);
              } else {
                assert SlotOk(data, 1 + Capacity, k - 1 - Capacity);
              }
            }
          }
        }
        assert WellFormed(data) ==> whiteDone && blackDone by {
          if WellFormed(data) {
            WellFormedSlots(data);
          }
        }
        Applied(Teams(data[0].n, white, black), blackDone)
  }

  /** `OnEvent`: only the team-update code is handled; any other event leaves the state alone. */
  function OnEvent(t: Teams, e: Event): (r: Applied)
    ensures e.code != UpdateTeamsEventCode ==> r == Applied(t, true)
    ensures e.code == UpdateTeamsEventCode && WellFormed(e.data) ==> r == Applied(Decoded(e.data), true)
    ensures e.code == UpdateTeamsEventCode && !WellFormed(e.data) ==> !r.completed
  {
    if e.code == UpdateTeamsEventCode then ApplyUpdate(t, e.data) else Applied(t, true)
  }

  /** `IsPlayerTeamBlack`: the linear scan of the black roster. */
  function IsPlayerTeamBlack(t: Teams, name: string): (b: bool)
    ensures b <==> Holds(t.black, name)
  {
    ContainsFrom(t.black, name, 0)
  }

  /** The effect of a `SpawnWithTeam` RPC on the receiving client. */
  datatype Spawn = Spawn(hasLocalInstance: bool, instantiated: Option<bool>)

  /**
   `SpawnWithTeam`: a client that has no local player yet instantiates one for
   the given team (whose `Awake` records it as the local instance); a client
   that has one ignores the call.
   */
  function SpawnWithTeam(hasLocalInstance: bool, black: bool): (r: Spawn)
    ensures r.hasLocalInstance
    ensures r.instantiated.Some? <==> !hasLocalInstance
    ensures r.instantiated.Some? ==> r.instantiated.value == black
  {
    if hasLocalInstance then Spawn(true, None) else Spawn(true, Some(black))
  }

  /** The players a client instantiates for a sequence of `SpawnWithTeam` calls, in order. */
  function SpawnAll(hasLocalInstance: bool, calls: seq<bool>): (instantiated: seq<bool>)
    decreases |calls|
  {
    if |calls| == 0 then []
    else
      var r := SpawnWithTeam(hasLocalInstance, calls[0]);
      (if r.instantiated.Some? then [r.instantiated.value] else []) + SpawnAll(r.hasLocalInstance, calls[1..])
  }

  /** However many `SpawnWithTeam` calls arrive, at most one player is instantiated, for the first call's team. */
  lemma {:induction false} SpawnAtMostOnce(hasLocalInstance: bool, calls: seq<bool>)
    ensures |SpawnAll(hasLocalInstance, calls)| <= 1
    ensures |SpawnAll(hasLocalInstance, calls)| == 1 <==> !hasLocalInstance && |calls| > 0
    ensures |SpawnAll(hasLocalInstance, calls)| == 1 ==> SpawnAll(hasLocalInstance, calls)[0] == calls[0]
    decreases |calls|
  {
    if |calls| > 0 {
      SpawnAfterInstanceIsIgnored(calls[1..]);
    }
  }

  /** A client that already has its local player ignores every further `SpawnWithTeam` call. */
  lemma {:induction false} SpawnAfterInstanceIsIgnored(calls: seq<bool>)
    ensures SpawnAll(true, calls) == []
    decreases |calls|
  {
    if |calls| > 0 {
      SpawnAfterInstanceIsIgnored(calls[1..]);
    }
  }

  /** After a join that went to black and found a free slot, the membership test holds of the joined name. */
  lemma BlackJoinerIsBlack(t: Teams, name: string)
    requires GetTeam(t, name).spawnBlack && HasFree(t.black)
    ensures IsPlayerTeamBlack(GetTeam(t, name).teams, name)
  {
  }

  /**
   A join sent to a full black team is still told to spawn as black, but the
   membership test does not list it (unless the name was already there).
   */
  lemma FullTeamJoinerIsUnlisted(t: Teams, name: string)
    requires GetTeam(t, name).spawnBlack && !HasFree(t.black) && !Holds(t.black, name)
    ensures !IsPlayerTeamBlack(GetTeam(t, name).teams, name)
  {
  }

  /** The k-th join (counting from 1, before the counter wraps) goes to black exactly when k is odd. */
  lemma JoinParity(t: Teams, name: string)
    requires 0 <= t.playersNumber as int < Int32.Max
    ensures AssignTeam(t, name).spawnBlack <==> (t.playersNumber as int + 1) % 2 == 1
  {
  }

  /** The payload round-trips: it is well formed and decodes to the state it was built from. */
  lemma EncodeDecode(t: Teams)
    ensures WellFormed(SendUpdateTeamsEvent(t))
    ensures Decoded(SendUpdateTeamsEvent(t)) == t
  {
  }

  /**
   Whatever a replica held before, receiving the team update a join broadcasts
   leaves it with exactly the master's state.
   */
  lemma ReplicaMirrorsMaster(master: Teams, replica: Teams, name: string)
    ensures OnEvent(replica, Event(UpdateTeamsEventCode, GetTeam(master, name).broadcast))
         == Applied(GetTeam(master, name).teams, true)
  {
  }

  /** A well-formed update replaces the state: the result does not depend on what was there. */
  lemma UpdateReplacesState(t1: Teams, t2: Teams, e: Event)
    requires e.code == UpdateTeamsEventCode && WellFormed(e.data)
    ensures OnEvent(t1, e) == OnEvent(t2, e)
  {
  }

  /** Receiving the same event twice leaves the same state as receiving it once, even for a malformed payload. */
  lemma OnEventIdempotent(t: Teams, e: Event)
    ensures OnEvent(OnEvent(t, e).teams, e) == OnEvent(t, e)
  {
  }

  /** The players of `names` (in join order) that the alternation sends to black: the 1st, 3rd, 5th, ... */
  function BlackJoiners(names: seq<string>): seq<string>
  {
    if |names| == 0 then []
    else if (|names| - 1) % 2 == 0 then BlackJoiners(names[..|names| - 1]) + [names[|names| - 1]]
    else BlackJoiners(names[..|names| - 1])
  }

  /** The players of `names` that the alternation sends to white: the 2nd, 4th, 6th, ... */
  function WhiteJoiners(names: seq<string>): seq<string>
  {
    if |names| == 0 then []
    else if (|names| - 1) % 2 == 1 then WhiteJoiners(names[..|names| - 1]) + [names[|names| - 1]]
    else WhiteJoiners(names[..|names| - 1])
  }

  /** The master state after a sequence of joins, and the `SpawnWithTeam` flag each joiner got back, in join order. */
  datatype Joined = Joined(teams: Teams, flags: seq<bool>)

  /** The effect of `names` joining in order, one `GetTeam` call each (the broadcasts are not kept). */
  function JoinAll(t: Teams, names: seq<string>): (r: Joined)
  {
    if |names| == 0 then Joined(t, [])
    else
      var before := JoinAll(t, names[..|names| - 1]);
      var j := AssignTeam(before.teams, names[|names| - 1]);
      Joined(j.teams, before.flags + [j.spawnBlack])
  }

  /** One more joiner: the alternation adds the new name to black at an even position and to white at an odd one. */
  lemma JoinersSnoc(prefix: seq<string>, name: string)
    ensures BlackJoiners(prefix + [name])
         == if |prefix| % 2 == 0 then BlackJoiners(prefix) + [name] else BlackJoiners(prefix)
    ensures WhiteJoiners(prefix + [name])
         == if |prefix| % 2 == 1 then WhiteJoiners(prefix) + [name] else WhiteJoiners(prefix)
  {
    assert (prefix + [name])[..|prefix|] == prefix;
  }

  /** One more join: `JoinAll` applies `AssignTeam` to the state the earlier joins left. */
  lemma JoinAllSnoc(t: Teams, prefix: seq<string>, name: string)
    ensures JoinAll(t, prefix + [name])
         == Joined(AssignTeam(JoinAll(t, prefix).teams, name).teams,
                   JoinAll(t, prefix).flags + [AssignTeam(JoinAll(t, prefix).teams, name).spawnBlack])
  {
    assert (prefix + [name])[..|prefix|] == prefix;
  }

  /** The names the alternation sends to either team come from `names`, so none is empty when no name in `names` is. */
  lemma {:induction false} JoinersHaveNames(names: seq<string>)
    requires NoEmptyName(names)
    ensures NoEmptyName(BlackJoiners(names)) && NoEmptyName(WhiteJoiners(names))
    decreases |names|
  {
    if |names| > 0 {
      JoinersHaveNames(names[..|names| - 1]);
    }
  }

  /** One join into a state whose rosters are packed with non-empty names. */
  lemma JoinIntoPacked(count: nat, white: seq<string>, black: seq<string>, name: string)
    requires count < Int32.Max
    requires NoEmptyName(white) && NoEmptyName(black) && name != ""
    ensures var j := AssignTeam(Teams(count as i32, Packed(white), Packed(black)), name);
      && (j.spawnBlack <==> count % 2 == 0)
      && j.teams.playersNumber as int == count + 1
      && (count % 2 == 0 ==> j.teams.white == Packed(white) && j.teams.black == Packed(black + [name]))
      && (count % 2 == 1 ==> j.teams.white == Packed(white + [name]) && j.teams.black == Packed(black))
  {
    var t := Teams(count as i32, Packed(white), Packed(black));
    JoinParity(t, name);
    SuccessorParity(count);
    PlaceIntoPacked(white, name);
    PlaceIntoPacked(black, name);
  }

  /** From the start of a session, the count is the number of joins, whatever the names, until it would overflow. */
  lemma {:induction false} JoinCount(names: seq<string>)
    requires |names| <= Int32.Max
    ensures JoinAll(Initial, names).teams.playersNumber as int == |names|
    decreases |names|
  {
    if |names| > 0 {
      JoinCount(names[..|names| - 1]);
    }
  }

  /**
   From the start of a session, joins alternate black, white, black, ...; each
   roster holds its joiners in join order in its lowest slots until it is full,
   and later joiners of a full team are dropped.
   */
  lemma {:induction false} AlternatingJoins(names: seq<string>)
    requires NoEmptyName(names) && |names| <= Int32.Max
    ensures JoinAll(Initial, names).teams
         == Teams(|names| as i32, Packed(WhiteJoiners(names)), Packed(BlackJoiners(names)))
    decreases |names|
  {
    if |names| == 0 {
      assert Packed([]) == Empty;
    } else {
      var n := |names| - 1;
      var prefix, name := names[..n], names[n];
      assert NoEmptyName(prefix);
      AlternatingJoins(prefix);
      assert prefix + [name] == names;
      AlternatingJoinStep(prefix, name);
    }
  }

  /** The inductive step of `AlternatingJoins`: one more non-empty name joins the packed rosters. */
  lemma AlternatingJoinStep(prefix: seq<string>, name: string)
    requires NoEmptyName(prefix) && name != "" && |prefix| < Int32.Max
    requires JoinAll(Initial, prefix).teams
          == Teams(|prefix| as i32, Packed(WhiteJoiners(prefix)), Packed(BlackJoiners(prefix)))
    ensures JoinAll(Initial, prefix + [name]).teams
         == Teams((|prefix| + 1) as i32, Packed(WhiteJoiners(prefix + [name])), Packed(BlackJoiners(prefix + [name])))
  {
    JoinAllSnoc(Initial, prefix, name);
    JoinIntoJoiners(prefix, name);
  }

  /** One more non-empty name joins rosters packed with the alternation's joiners so far. */
  lemma JoinIntoJoiners(prefix: seq<string>, name: string)
    requires NoEmptyName(prefix) && name != "" && |prefix| < Int32.Max
    ensures AssignTeam(Teams(|prefix| as i32, Packed(WhiteJoiners(prefix)), Packed(BlackJoiners(prefix))), name).teams
         == Teams((|prefix| + 1) as i32, Packed(WhiteJoiners(prefix + [name])), Packed(BlackJoiners(prefix + [name])))
  {
    JoinersHaveNames(prefix);
    JoinIntoPacked(|prefix|, WhiteJoiners(prefix), BlackJoiners(prefix), name);
    JoinersSnoc(prefix, name);
  }

  /** black, white, black, ...: `n` flags alternating, starting with black. */
  function Alternation(n: nat): (flags: seq<bool>)
  {
    seq(n, i => i % 2 == 0)
  }

  /** The alternation extends by black at an even position and by white at an odd one. */
  lemma AlternationGrows(n: nat)
    ensures Alternation(n + 1) == Alternation(n) + [n % 2 == 0]
  {
  }

  /** `n + 1` is odd exactly when `n` is even. */
  lemma SuccessorParity(n: int)
    ensures ((n + 1) % 2 == 1) == (n % 2 == 0)
  {
  }

  /** The join that follows `n` earlier ones (before the counter wraps) goes to black exactly when `n` is even. */
  lemma NextJoinFlag(names: seq<string>)
    requires 0 < |names| <= Int32.Max
    ensures JoinAll(Initial, names).flags
         == JoinAll(Initial, names[..|names| - 1]).flags + [(|names| - 1) % 2 == 0]
  {
    var n := |names| - 1;
    var before := JoinAll(Initial, names[..n]);
    assert AssignTeam(before.teams, names[n]).spawnBlack == (n % 2 == 0) by {
      JoinCount(names[..n]);
      JoinParity(before.teams, names[n]);
      SuccessorParity(n);
    }
  }

  /**
   From the start of a session, whatever the names (empty or repeated ones
   included), the `SpawnWithTeam` flags go black, white, black, ...: the i-th
   joiner (counting from 0) is sent to black exactly when i is even.
   */
  lemma {:induction false} AlternatingFlags(names: seq<string>)
    requires |names| <= Int32.Max
    ensures JoinAll(Initial, names).flags == Alternation(|names|)
    decreases |names|
  {
    if |names| > 0 {
      var n := |names| - 1;
      AlternatingFlags(names[..n]);
      NextJoinFlag(names);
      AlternationGrows(n);
    }
  }

  /** The alternation's black joiners are the names at even positions, in order. */
  lemma {:induction false} BlackJoinerPositions(names: seq<string>)
    ensures |BlackJoiners(names)| == (|names| + 1) / 2
    ensures forall k :: 0 <= k < |BlackJoiners(names)| ==> BlackJoiners(names)[k] == names[2 * k]
    decreases |names|
  {
    if |names| > 0 {
      var n := |names| - 1;
      BlackJoinerPositions(names[..n]);
      assert names == names[..n] + [names[n]];
      BlackJoinerStep(names[..n], names[n]);
    }
  }

  /** The inductive step of `BlackJoinerPositions`: one more name keeps black's joiners at the even positions. */
  lemma BlackJoinerStep(prefix: seq<string>, name: string)
    requires |BlackJoiners(prefix)| == (|prefix| + 1) / 2
    requires forall k :: 0 <= k < |BlackJoiners(prefix)| ==> BlackJoiners(prefix)[k] == prefix[2 * k]
    ensures |BlackJoiners(prefix + [name])| == (|prefix| + 2) / 2
    ensures forall k :: 0 <= k < |BlackJoiners(prefix + [name])| ==> BlackJoiners(prefix + [name])[k] == (prefix + [name])[2 * k]
  {
    JoinersSnoc(prefix, name);
    var before, after := BlackJoiners(prefix), BlackJoiners(prefix + [name]);
    forall k | 0 <= k < |after| ensures after[k] == (prefix + [name])[2 * k] {
      if k < |before| {
        assert after[k] == before[k] == prefix[2 * k];
      } else {
        assert 2 * k == |prefix|;
      }
    }
  }

  /** No roster lists a name twice and no name is listed on both teams. */
  predicate NoDuplicates(t: Teams) {
    NoRepeats(t.black) && NoRepeats(t.white) && Disjoint(t.black, t.white)
  }

  /** Every name listed on either team is one of `names`. */
  predicate ListedAmong(t: Teams, names: seq<string>) {
    forall j :: 0 <= j < Capacity ==>
      && (t.black[j].Some? ==> t.black[j].value in names)
      && (t.white[j].Some? ==> t.white[j].value in names)
  }

  /**
   From any state without duplicates, a join of a name not yet listed leaves
   no duplicates: it writes only that name, into at most one slot.
   */
  lemma JoinKeepsUnique(t: Teams, name: string)
    requires NoDuplicates(t) && !Holds(t.black, name) && !Holds(t.white, name)
    ensures NoDuplicates(AssignTeam(t, name).teams)
  {
  }

  /** A join lists nothing but the earlier names and the joiner. */
  lemma JoinListsOnlyJoiners(t: Teams, prefix: seq<string>, name: string)
    requires ListedAmong(t, prefix)
    ensures ListedAmong(AssignTeam(t, name).teams, prefix + [name])
  {
    PlaceWritesOnlyName(t.black, name);
    PlaceWritesOnlyName(t.white, name);
  }

  /** From the start of a session, every listed name is one of the joined names. */
  lemma {:induction false} ListedAmongJoiners(names: seq<string>)
    ensures ListedAmong(JoinAll(Initial, names).teams, names)
    decreases |names|
  {
    if |names| > 0 {
      var n := |names| - 1;
      ListedAmongJoiners(names[..n]);
      assert names == names[..n] + [names[n]];
      JoinAllSnoc(Initial, names[..n], names[n]);
      JoinListsOnlyJoiners(JoinAll(Initial, names[..n]).teams, names[..n], names[n]);
    }
  }

  /**
   From the start of a session, distinct names are each listed at most once:
   neither roster holds a name twice and no name is on both teams. Empty names
   included, and however far the counter runs.
   */
  lemma {:induction false} NoDuplicateNames(names: seq<string>)
    requires Distinct(names)
    ensures NoRepeats(JoinAll(Initial, names).teams.black)
    ensures NoRepeats(JoinAll(Initial, names).teams.white)
    ensures Disjoint(JoinAll(Initial, names).teams.black, JoinAll(Initial, names).teams.white)
    decreases |names|
  {
    if |names| > 0 {
      var n := |names| - 1;
      var prefix, name := names[..n], names[n];
      assert Distinct(prefix);
      NoDuplicateNames(prefix);
      var t := JoinAll(Initial, prefix).teams;
      assert !Holds(t.black, name) && !Holds(t.white, name) by {
        ListedAmongJoiners(prefix);
        assert forall i :: 0 <= i < n ==> prefix[i] == names[i] != name;
      }
      JoinKeepsUnique(t, name);
      assert names == prefix + [name];
      JoinAllSnoc(Initial, prefix, name);
    }
  }

  /** `GetTeam` does not check for a name already listed: "A", "B", "A" joining a fresh session list "A" twice on black. */
  lemma RepeatedNameListedTwice()
    ensures JoinAll(Initial, ["A", "B", "A"]).teams.black == [Some("A"), Some("A"), None, None, None, None]
    ensures !NoRepeats(JoinAll(Initial, ["A", "B", "A"]).teams.black)
  {
    var names := ["A", "B", "A"];
    var black := JoinAll(Initial, names).teams.black;
    assert black == Packed(BlackJoiners(names)) by {
      assert NoEmptyName(names);
      AlternatingJoins(names);
    }
    RepeatedNameRoster();
    assert black[0] == black[1] == Some("A");
  }

  /** The black joiners of "A", "B", "A" are "A" twice. */
  lemma RepeatedNameRoster()
    ensures Packed(BlackJoiners(["A", "B", "A"])) == [Some("A"), Some("A"), None, None, None, None]
  {
    var names := ["A", "B", "A"];
    BlackJoinerPositions(names);
    assert BlackJoiners(names) == ["A", "A"];
  }

  /** Any two players join a fresh session: the first goes to black, the second to white, each in slot 0. */
  lemma TwoPlayerScenario(first: string, second: string)
    ensures JoinAll(Initial, [first, second]).flags == [true, false]
    ensures JoinAll(Initial, [first, second]).teams
         == Teams(2, [Some(second), None, None, None, None, None], [Some(first), None, None, None, None, None])
  {
    SecondJoin(first, second);
    assert Empty[0 := Some(first)] == [Some(first), None, None, None, None, None];
    assert Empty[0 := Some(second)] == [Some(second), None, None, None, None, None];
  }

  /** The first join of a session goes to black, into slot 0. */
  lemma FirstJoin(name: string)
    ensures JoinAll(Initial, [name]) == Joined(Teams(1, Empty, Empty[0 := Some(name)]), [true])
  {
    assert [name] == [] + [name];
    JoinAllSnoc(Initial, [], name);
    assert IsLowestFree(Empty, 0);
  }

  /** The second join of a session goes to white, into slot 0, and leaves black as the first join left it. */
  lemma SecondJoin(first: string, second: string)
    ensures JoinAll(Initial, [first, second])
         == Joined(Teams(2, Empty[0 := Some(second)], Empty[0 := Some(first)]), [true, false])
  {
    FirstJoin(first);
    assert [first, second] == [first] + [second];
    JoinAllSnoc(Initial, [first], second);
    assert IsLowestFree(Empty, 0);
  }
}
