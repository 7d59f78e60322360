/** An optional value: `None` stands for a C# `null` reference. */
module Options {

  datatype Option<+T> = None | Some(value: T)
}

/**
 A team roster: the fixed array of six name slots the master client keeps per
 team (`teamWhite`, `teamBlack` in PlayerManager). A slot holds a C# string,
 which may be `null` (`None`); a slot is free when `string.IsNullOrEmpty`
 holds of it.
 */
module Rosters {
  import opened Options

  const Capacity: nat := 6

  type Slot = Option<string>

  type Roster = r: seq<Slot> | |r| == Capacity witness [None, None, None, None, None, None]

  /** The roster `new string[6]` creates: every slot null. */
  const Empty: Roster := [None, None, None, None, None, None]

  /** `string.IsNullOrEmpty` on a slot. */
  predicate IsFree(s: Slot) {
    s.None? || s == Some("")
  }

  predicate HasFree(r: Roster) {
    exists k :: 0 <= k < Capacity && IsFree(r[k])
  }

  /** `k` is the lowest-index free slot of `r`. */
  predicate IsLowestFree(r: Roster, k: int) {
    0 <= k < Capacity && IsFree(r[k]) && forall j :: 0 <= j < k ==> !IsFree(r[j])
  }

  /** The index of the first free slot at or after `i`, scanning upwards. */
  function FirstFreeFrom(r: Roster, i: nat): (k: Option<nat>)
    requires i <= Capacity
    ensures k.Some? ==> i <= k.value < Capacity && IsFree(r[k.value])
    ensures k.Some? ==> forall j :: i <= j < k.value ==> !IsFree(r[j])
    ensures k.None? ==> forall j :: i <= j < Capacity ==> !IsFree(r[j])
    decreases Capacity - i
  {
    if i == Capacity then None
    else if IsFree(r[i]) then Some(i)
    else FirstFreeFrom(r, i + 1)
  }

  /** The slot a join writes into, if any: the lowest free one. */
  function FirstFree(r: Roster): (k: Option<nat>)
    ensures k.Some? <==> HasFree(r)
    ensures k.Some? ==> IsLowestFree(r, k.value)
  {
    FirstFreeFrom(r, 0)
  }

  /**
   The slot loop of `GetTeam`: the name goes into the lowest free slot and the
   loop stops; when no slot is free the roster is left as it was.
   */
  function Place(r: Roster, name: string): (r': Roster)
    ensures forall k :: IsLowestFree(r, k) ==> r' == r[k := Some(name)]
    ensures !HasFree(r) ==> r' == r
  {
    match FirstFree(r)
    case Some(k) => r[k := Some(name)]
    case None => r
  }

  /** Some slot of `r` holds exactly `name` (C# `==` on a null slot and a name is false). */
  predicate Holds(r: Roster, name: string) {
    exists j :: 0 <= j < Capacity && r[j] == Some(name)
  }

  /** Whether some slot at or after `i` holds exactly `name`, scanning upwards. */
  function ContainsFrom(r: Roster, name: string, i: nat): (b: bool)
    requires i <= Capacity
    ensures b <==> exists j :: i <= j < Capacity && r[j] == Some(name)
    decreases Capacity - i
  {
    if i == Capacity then false
    else if r[i] == Some(name) then true
    else ContainsFrom(r, name, i + 1)
  }

  /** The roster holding `names` in order in its first slots, the rest null; names past the sixth are lost. */
  function Packed(names: seq<string>): (r: Roster)
  {
    [PackedSlot(names, 0), PackedSlot(names, 1), PackedSlot(names, 2),
     PackedSlot(names, 3), PackedSlot(names, 4), PackedSlot(names, 5)]
  }

  /** Slot `j` of the packed roster: the `j`-th name, or null past the last one. */
  function PackedSlot(names: seq<string>, j: nat): Slot
  {
    if j < |names| then Some(names[j]) else None
  }

  /** No name is listed in two slots of the roster. */
  predicate NoRepeats(r: Roster) {
    forall i, j :: 0 <= i < j < Capacity && r[i].Some? ==> r[i] != r[j]
  }

  /** No name listed in `a` is also listed in `b`. */
  predicate Disjoint(a: Roster, b: Roster) {
    forall i, j :: 0 <= i < Capacity && 0 <= j < Capacity && a[i].Some? ==> a[i] != b[j]
  }

  /** No name occurs twice in `names`. */
  predicate Distinct(names: seq<string>) {
    forall i, j :: 0 <= i < j < |names| ==> names[i] != names[j]
  }

  /** `Place` changes at most one slot, and only to the placed name. */
  lemma PlaceWritesOnlyName(r: Roster, name: string)
    ensures forall j :: 0 <= j < Capacity ==> Place(r, name)[j] == r[j] || Place(r, name)[j] == Some(name)
  {
    match FirstFree(r)
    case Some(k) => assert IsLowestFree(r, k);
    case None =>
  }

  /** No name in the sequence is empty, so each one fills the slot it is placed in. */
  predicate NoEmptyName(names: seq<string>) {
    forall i :: 0 <= i < |names| ==> names[i] != ""
  }

  /** Placing a non-empty name into a packed roster appends it, or drops it once all six slots are taken. */
  lemma PlaceIntoPacked(names: seq<string>, name: string)
    requires NoEmptyName(names) && name != ""
    ensures Place(Packed(names), name) == Packed(names + [name])
    ensures |names| < Capacity ==> Place(Packed(names), name)[|names|] == Some(name)
    ensures |names| >= Capacity ==> Place(Packed(names), name) == Packed(names)
  {
  }
}
