/** The list comprehensions and list lookups that the matching and care
    phases are built from. */
module Matching {
  import opened Records

  /** Every element is smaller than every later one (so, no repeats). */
  predicate StrictlyIncreasing(s: seq<nat>)
  {
    forall i, j :: 0 <= i < j < |s| ==> s[i] < s[j]
  }

  /** The positions, in pool order, of the providers whose `numPt` is `n`:
      the idle pool for `n == 0`, the occupied pool for `n == 1`. */
  function WithNumPt(providers: seq<Provider>, n: int): (r: seq<nat>)
    ensures StrictlyIncreasing(r)
    ensures forall k :: 0 <= k < |r| ==> r[k] < |providers| && providers[r[k]].numPt == n
    ensures forall j :: 0 <= j < |providers| && providers[j].numPt == n ==> j in r
  {
    if providers == [] then []
    else
      var last := |providers| - 1;
      WithNumPt(providers[..last], n) + (if providers[last].numPt == n then [last] else [])
  }

  /** Removing the element at `i` (`list.pop(i)`) takes exactly that element
      out of the multiset. */
  lemma RemoveAt(s: seq<nat>, i: nat)
    requires i < |s|
    ensures multiset(s) == multiset(s[..i] + s[i + 1..]) + multiset{s[i]}
  {
    assert s == s[..i] + [s[i]] + s[i + 1..];
  }

  /** Removing an element keeps every remaining id in the arena. */
  lemma InArenaRemoveAt(ids: seq<nat>, arena: seq<Patient>, i: nat)
    requires InArena(ids, arena) && i < |ids|
    ensures InArena(ids[..i] + ids[i + 1..], arena)
  {
    var r := ids[..i] + ids[i + 1..];
    forall k | 0 <= k < |r|
      ensures r[k] < |arena|
    {
      if k < i {
        assert r[k] == ids[k];
      } else {
        assert r[k] == ids[k + 1];
      }
    }
  }

  /** The waiting patients a provider with threshold `minCtas` may see, in
      waiting-room order. */
  function Eligible(room: seq<nat>, arena: seq<Patient>, minCtas: int): (r: seq<nat>)
    requires InArena(room, arena)
    ensures multiset(r) <= multiset(room)
    ensures forall k :: 0 <= k < |r| ==> r[k] in room && arena[r[k]].ctasLvl >= minCtas
    ensures forall k :: 0 <= k < |room| && arena[room[k]].ctasLvl >= minCtas ==> room[k] in r
  {
    if room == [] then []
    else
      assert room == [room[0]] + room[1..];
      (if arena[room[0]].ctasLvl >= minCtas then [room[0]] else []) + Eligible(room[1..], arena, minCtas)
  }

  /** The patient records that `ids` name, in the same order: the waiting
      room as the list of records it is in the source. */
  function RecordsOf(ids: seq<nat>, arena: seq<Patient>): (r: seq<Patient>)
    requires InArena(ids, arena)
    ensures |r| == |ids| && forall k :: 0 <= k < |ids| ==> r[k] == arena[ids[k]]
  {
    seq(|ids|, k requires 0 <= k < |ids| => arena[ids[k]])
  }

  /** The record of a listed id is among the listed records. */
  lemma InRecordsOf(ids: seq<nat>, arena: seq<Patient>, x: nat)
    requires InArena(ids, arena) && x in ids
    ensures x < |arena| && arena[x] in RecordsOf(ids, arena)
  {
    var k :| 0 <= k < |ids| && ids[k] == x;
    assert RecordsOf(ids, arena)[k] == arena[x];
  }

  /** Position of the first record equal to `p`, as `list.index` returns
      it; records are compared by value, field by field. */
  function IndexOf(s: seq<Patient>, p: Patient): (r: nat)
    requires p in s
    ensures r < |s| && s[r] == p && p !in s[..r]
  {
    if s[0] == p then 0
    else
      assert s == [s[0]] + s[1..];
      var i := IndexOf(s[1..], p);
      assert s[..i + 1] == [s[0]] + s[1..][..i];
      i + 1
  }

  /** The position of the first waiting patient a provider with threshold
      `minCtas` may see, if there is one. */
  function FirstEligible(room: seq<nat>, arena: seq<Patient>, minCtas: int): (r: Option<nat>)
    requires InArena(room, arena)
    ensures r.Some? ==> r.value < |room| && arena[room[r.value]].ctasLvl >= minCtas
    ensures r.Some? ==> forall k :: 0 <= k < r.value ==> arena[room[k]].ctasLvl < minCtas
    ensures r.None? ==> forall k :: 0 <= k < |room| ==> arena[room[k]].ctasLvl < minCtas
  {
    if room == [] then None
    else if arena[room[0]].ctasLvl >= minCtas then Some(0)
    else match FirstEligible(room[1..], arena, minCtas)
      case None => None
      case Some(i) => Some(i + 1)
  }

  /** The head of the eligible list is the first eligible waiting patient,
      and the list is empty exactly when no waiting patient is eligible. */
  lemma {:induction false} EligibleHead(room: seq<nat>, arena: seq<Patient>, minCtas: int)
    requires InArena(room, arena)
    ensures Eligible(room, arena, minCtas) == [] <==> FirstEligible(room, arena, minCtas).None?
    ensures Eligible(room, arena, minCtas) != [] ==>
              Eligible(room, arena, minCtas)[0] == room[FirstEligible(room, arena, minCtas).value]
  {
    if room != [] && arena[room[0]].ctasLvl < minCtas {
      EligibleHead(room[1..], arena, minCtas);
      assert Eligible(room, arena, minCtas) == Eligible(room[1..], arena, minCtas);
    }
  }

  /** Looking up the head of the eligible list by value with `list.index`
      still yields the first eligible position: an equal record earlier in
      the room would have the same CTAS level, so it would be eligible
      itself. */
  lemma EligibleHeadIsFirst(room: seq<nat>, arena: seq<Patient>, minCtas: int)
    requires InArena(room, arena)
    ensures Eligible(room, arena, minCtas) == [] <==> FirstEligible(room, arena, minCtas).None?
    ensures Eligible(room, arena, minCtas) != [] ==>
              && arena[Eligible(room, arena, minCtas)[0]] in RecordsOf(room, arena)
              && IndexOf(RecordsOf(room, arena), arena[Eligible(room, arena, minCtas)[0]])
                 == FirstEligible(room, arena, minCtas).value
  {
    EligibleHead(room, arena, minCtas);
    var e := Eligible(room, arena, minCtas);
    if e != [] {
      var f := FirstEligible(room, arena, minCtas).value;
      var recs := RecordsOf(room, arena);
      assert recs[f] == arena[e[0]];
      var i := IndexOf(recs, arena[e[0]]);
    }
  }
}
