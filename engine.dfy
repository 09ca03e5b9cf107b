/** The per-interval state transition of the simulation, as pure functions
    over a snapshot of the hospital, and the invariants it keeps. */
module Engine {
  import opened Records
  import opened Triage
  import opened Matching

  /** A snapshot of the hospital. `arena` holds every patient record, indexed
      by id; `patients` is the arrival queue, `waitingRoom` the waiting room,
      `dischPt` the discharged list, all as arena ids. */
  datatype State = State(arena: seq<Patient>, patients: seq<nat>, waitingRoom: seq<nat>,
                         providers: seq<Provider>, dischPt: seq<nat>)

  // ---------------------------------------------------------------------
  // Where the patients are

  function SlotMs(p: Provider): multiset<nat>
  {
    match p.assignedPt
    case None => multiset{}
    case Some(x) => multiset{x}
  }

  /** The patients held by the providers. */
  function AssignedMs(providers: seq<Provider>): multiset<nat>
  {
    if providers == [] then multiset{} else SlotMs(providers[0]) + AssignedMs(providers[1..])
  }

  /** Every arena id exactly once. */
  function IdsMs(n: nat): multiset<nat>
  {
    if n == 0 then multiset{} else IdsMs(n - 1) + multiset{n - 1}
  }

  /** The arena ids `0, 1, ..., n - 1` in order: the initial arrival queue. */
  function Ids(n: nat): (r: seq<nat>)
    ensures |r| == n && forall k :: 0 <= k < n ==> r[k] == k
    ensures multiset(r) == IdsMs(n)
  {
    if n == 0 then [] else Ids(n - 1) + [n - 1]
  }

  /** Every patient in the queue, the waiting room, a provider's slot or the
      discharged list, with multiplicity. */
  function LocatedMs(s: State): multiset<nat>
  {
    multiset(s.patients) + multiset(s.waitingRoom) + AssignedMs(s.providers) + multiset(s.dischPt)
  }

  predicate AssignedInArena(s: State)
  {
    forall j :: 0 <= j < |s.providers| && s.providers[j].assignedPt.Some? ==>
      s.providers[j].assignedPt.value < |s.arena|
  }

  /** No provider holds a patient more acute than it accepts. */
  predicate AssignmentsEligible(s: State)
    requires AssignedInArena(s)
  {
    forall j :: 0 <= j < |s.providers| && s.providers[j].assignedPt.Some? ==>
      s.arena[s.providers[j].assignedPt.value].ctasLvl >= s.providers[j].minCtas
  }

  /** The invariant of every reachable state: each patient is in exactly one
      place, every provider slot is consistent, and every assignment respects
      the provider's threshold. */
  predicate Valid(s: State)
  {
    && WellFormed(s)
    && LocatedMs(s) == IdsMs(|s.arena|)
    && AssignmentsEligible(s)
  }

  /** Every id names an arena record and every provider slot is consistent:
      what the phases need to be defined at all. */
  predicate WellFormed(s: State)
  {
    && InArena(s.patients, s.arena)
    && InArena(s.waitingRoom, s.arena)
    && InArena(s.dischPt, s.arena)
    && AssignedInArena(s)
    && (forall j :: 0 <= j < |s.providers| ==> SlotOk(s.providers[j]))
  }

  /** What no phase changes: the patients' CTAS levels and the providers'
      thresholds and rates. */
  predicate SameConfig(s: State, t: State)
  {
    && |t.arena| == |s.arena|
    && (forall x :: 0 <= x < |s.arena| ==> t.arena[x].ctasLvl == s.arena[x].ctasLvl)
    && |t.providers| == |s.providers|
    && (forall j :: 0 <= j < |s.providers| ==>
          t.providers[j].minCtas == s.providers[j].minCtas && t.providers[j].workPerHr == s.providers[j].workPerHr)
  }

  lemma {:induction false} IdsMsCount(n: nat, x: nat)
    ensures IdsMs(n)[x] == if x < n then 1 else 0
  {
    if n > 0 {
      IdsMsCount(n - 1, x);
    }
  }

  lemma {:induction false} IdsMsSize(n: nat)
    ensures |IdsMs(n)| == n
  {
    if n > 0 {
      IdsMsSize(n - 1);
    }
  }

  /** The slot of provider `j` is part of the assigned patients. */
  lemma {:induction false} AssignedMsHas(providers: seq<Provider>, j: nat)
    requires j < |providers|
    ensures SlotMs(providers[j]) <= AssignedMs(providers)
  {
    if j > 0 {
      AssignedMsHas(providers[1..], j - 1);
    }
  }

  /** One patient moves between two of the four places. */
  lemma MoveOne(q: multiset<nat>, r: multiset<nat>, a: multiset<nat>, d: multiset<nat>,
                q2: multiset<nat>, r2: multiset<nat>, a2: multiset<nat>, d2: multiset<nat>, x: nat)
    requires (q == q2 + multiset{x} && r2 == r + multiset{x} && a2 == a && d2 == d)
          || (q2 == q && r == r2 + multiset{x} && a2 == a + multiset{x} && d2 == d)
          || (q2 == q && r2 == r && a == a2 + multiset{x} && d2 == d + multiset{x})
    ensures q2 + r2 + a2 + d2 == q + r + a + d
  {
  }

  lemma CountAfterRemove(a2: multiset<nat>, a: multiset<nat>, x: nat)
    requires a2 + multiset{x} == a && a[x] == 1
    ensures a2[x] == 0
  {
    assert (a2 + multiset{x})[x] == a2[x] + 1;
  }

  /** Swapping equal-sum parts under a common base keeps the total. */
  lemma SwapSum(s0: multiset<nat>, a: multiset<nat>, b: multiset<nat>, c: multiset<nat>, d: multiset<nat>)
    requires a + c == b + d
    ensures (s0 + a) + c == (s0 + b) + d
  {
    assert (s0 + a) + c == s0 + (a + c);
  }

  /** Replacing one provider swaps its slot in the assigned patients. */
  lemma {:induction false} AssignedMsUpdate(providers: seq<Provider>, j: nat, p: Provider)
    requires j < |providers|
    ensures AssignedMs(providers[j := p]) + SlotMs(providers[j]) == AssignedMs(providers) + SlotMs(p)
  {
    var u := providers[j := p];
    if j == 0 {
      assert u[1..] == providers[1..];
      assert AssignedMs(u) == SlotMs(p) + AssignedMs(providers[1..]);
    } else {
      var tl := providers[1..];
      AssignedMsUpdate(tl, j - 1, p);
      assert u[1..] == tl[j - 1 := p];
      assert u[0] == providers[0];
      assert tl[j - 1] == providers[j];
      SwapSum(SlotMs(providers[0]), AssignedMs(u[1..]), AssignedMs(tl), SlotMs(providers[j]), SlotMs(p));
    }
  }

  /** With every provider idle, nobody is assigned. */
  lemma {:induction false} AssignedMsAllIdle(providers: seq<Provider>)
    requires forall j :: 0 <= j < |providers| ==> providers[j].assignedPt.None?
    ensures AssignedMs(providers) == multiset{}
  {
    if providers != [] {
      AssignedMsAllIdle(providers[1..]);
    }
  }

  /** In a valid state every patient is in exactly one place, so the
      patient held by a provider is neither queued, waiting nor discharged,
      and no other provider holds it. */
  lemma AssignedIsAlone(s: State, j: nat)
    requires Valid(s) && j < |s.providers| && s.providers[j].assignedPt.Some?
    ensures var x := s.providers[j].assignedPt.value;
      x !in s.patients && x !in s.waitingRoom && x !in s.dischPt && AssignedMs(s.providers)[x] == 1
  {
    var x := s.providers[j].assignedPt.value;
    AssignedMsHas(s.providers, j);
    IdsMsCount(|s.arena|, x);
    assert LocatedMs(s)[x] == 1;
  }

  lemma AssignedDistinct(s: State, j: nat, k: nat)
    requires Valid(s) && j < k < |s.providers|
    requires s.providers[j].assignedPt.Some? && s.providers[k].assignedPt.Some?
    ensures s.providers[j].assignedPt.value != s.providers[k].assignedPt.value
  {
    var x := s.providers[j].assignedPt.value;
    AssignedIsAlone(s, j);
    var p := s.providers[j].(assignedPt := None);
    AssignedMsUpdate(s.providers, j, p);
    assert SlotMs(s.providers[j]) == multiset{x};
    assert SlotMs(p) == multiset{};
    CountAfterRemove(AssignedMs(s.providers[j := p]), AssignedMs(s.providers), x);
    AssignedMsHas(s.providers[j := p], k);
  }

  // ---------------------------------------------------------------------
  // Phase 1: arrival

  /** At most one patient moves from the front of the queue to the end of
      the waiting room. */
  function Arrive(s: State): (t: State)
    requires WellFormed(s)
    ensures WellFormed(t)
    ensures t.arena == s.arena && t.providers == s.providers && t.dischPt == s.dischPt
    ensures multiset(t.patients) + multiset(t.waitingRoom) == multiset(s.patients) + multiset(s.waitingRoom)
    ensures s.patients != [] ==> |t.waitingRoom| == |s.waitingRoom| + 1
  {
    if s.patients != [] then
      assert s.patients == [s.patients[0]] + s.patients[1..];
      s.(patients := s.patients[1..], waitingRoom := s.waitingRoom + [s.patients[0]])
    else s
  }

  lemma ArriveValid(s: State)
    requires Valid(s)
    ensures Valid(Arrive(s))
  {
    if s.patients != [] {
      assert s.patients == [s.patients[0]] + s.patients[1..];
      assert LocatedMs(Arrive(s)) == LocatedMs(s);
    }
  }

  // ---------------------------------------------------------------------
  // Phase 2: triage

  /** The waiting room is re-sorted by CTAS level, stably. */
  function TriageRoom(s: State): (t: State)
    requires WellFormed(s)
    ensures WellFormed(t)
    ensures t == s.(waitingRoom := t.waitingRoom)
    ensures multiset(t.waitingRoom) == multiset(s.waitingRoom) && SortedByCtas(t.waitingRoom, t.arena)
  {
    SortByCtasSorted(s.waitingRoom, s.arena);
    s.(waitingRoom := SortByCtas(s.waitingRoom, s.arena))
  }

  lemma TriageValid(s: State)
    requires Valid(s)
    ensures Valid(TriageRoom(s))
  {
    assert LocatedMs(TriageRoom(s)) == LocatedMs(s);
  }

  // ---------------------------------------------------------------------
  // Phase 3: matching

  /** One provider's turn: it takes the first waiting patient it may see,
      if there is one. */
  function Assign(s: State, j: nat): (t: State)
    requires WellFormed(s) && j < |s.providers| && s.providers[j].numPt == 0
    ensures WellFormed(t)
    ensures t.arena == s.arena && t.patients == s.patients && t.dischPt == s.dischPt
    ensures |t.providers| == |s.providers|
    ensures forall k :: 0 <= k < |s.providers| && k != j ==> t.providers[k] == s.providers[k]
    ensures t.providers[j].minCtas == s.providers[j].minCtas && t.providers[j].workPerHr == s.providers[j].workPerHr
  {
    var room := s.waitingRoom;
    var potential := Eligible(room, s.arena, s.providers[j].minCtas);
    if potential == [] then s
    else
      InRecordsOf(room, s.arena, potential[0]);
      var i := IndexOf(RecordsOf(room, s.arena), s.arena[potential[0]]);
      InArenaRemoveAt(room, s.arena, i);
      var currPt := room[i];
      s.(waitingRoom := room[..i] + room[i + 1..],
         providers := s.providers[j := s.providers[j].(numPt := 1, assignedPt := Some(currPt))])
  }

  /** An idle provider takes the first waiting patient, in the current
      waiting-room order, whose CTAS level it accepts, and that patient
      leaves the waiting room; with no such patient nothing changes. */
  lemma AssignTakesFirstEligible(s: State, j: nat)
    requires WellFormed(s) && j < |s.providers| && s.providers[j].numPt == 0
    ensures FirstEligible(s.waitingRoom, s.arena, s.providers[j].minCtas).None? ==> Assign(s, j) == s
    ensures FirstEligible(s.waitingRoom, s.arena, s.providers[j].minCtas).Some? ==>
              var i := FirstEligible(s.waitingRoom, s.arena, s.providers[j].minCtas).value;
              && Assign(s, j).waitingRoom == s.waitingRoom[..i] + s.waitingRoom[i + 1..]
              && Assign(s, j).providers[j] == s.providers[j].(numPt := 1, assignedPt := Some(s.waitingRoom[i]))
  {
    EligibleHeadIsFirst(s.waitingRoom, s.arena, s.providers[j].minCtas);
  }

  /** A turn moves at most one patient, from the waiting room to the
      provider's slot. */
  lemma AssignConserves(s: State, j: nat)
    requires WellFormed(s) && j < |s.providers| && s.providers[j].numPt == 0
    ensures LocatedMs(Assign(s, j)) == LocatedMs(s)
    ensures multiset(Assign(s, j).waitingRoom) <= multiset(s.waitingRoom)
  {
    var f := FirstEligible(s.waitingRoom, s.arena, s.providers[j].minCtas);
    AssignTakesFirstEligible(s, j);
    if f.Some? {
      TakeConserves(s, Assign(s, j), j, f.value);
    }
  }

  /** Moving the patient at position `i` of the waiting room into idle
      provider `j`'s slot keeps every patient located exactly as often. */
  lemma TakeConserves(s: State, t: State, j: nat, i: nat)
    requires WellFormed(s) && j < |s.providers| && s.providers[j].numPt == 0 && i < |s.waitingRoom|
    requires t.patients == s.patients && t.dischPt == s.dischPt
    requires t.waitingRoom == s.waitingRoom[..i] + s.waitingRoom[i + 1..]
    requires t.providers == s.providers[j := s.providers[j].(numPt := 1, assignedPt := Some(s.waitingRoom[i]))]
    ensures LocatedMs(t) == LocatedMs(s)
    ensures multiset(t.waitingRoom) <= multiset(s.waitingRoom)
  {
    var x := s.waitingRoom[i];
    var p := s.providers[j].(numPt := 1, assignedPt := Some(x));
    assert multiset(s.waitingRoom) == multiset(t.waitingRoom) + multiset{x} by {
      RemoveAt(s.waitingRoom, i);
    }
    assert AssignedMs(t.providers) == AssignedMs(s.providers) + multiset{x} by {
      AssignedMsUpdate(s.providers, j, p);
      assert SlotMs(s.providers[j]) == multiset{};
      assert SlotMs(p) == multiset{x};
    }
    MoveOne(multiset(s.patients), multiset(s.waitingRoom), AssignedMs(s.providers), multiset(s.dischPt),
            multiset(t.patients), multiset(t.waitingRoom), AssignedMs(t.providers), multiset(t.dischPt), x);
  }

  lemma AssignValid(s: State, j: nat)
    requires Valid(s) && j < |s.providers| && s.providers[j].numPt == 0
    ensures Valid(Assign(s, j))
    ensures multiset(Assign(s, j).waitingRoom) <= multiset(s.waitingRoom)
  {
    AssignConserves(s, j);
    AssignTakesFirstEligible(s, j);
  }

  /** The providers at positions `k` onwards of `avail` are idle. */
  predicate IdleFrom(avail: seq<nat>, k: nat, s: State)
  {
    forall i :: k <= i < |avail| ==> avail[i] < |s.providers| && s.providers[avail[i]].numPt == 0
  }

  /** A turn leaves the providers of the later turns idle. */
  lemma LaterStillIdle(avail: seq<nat>, k: nat, s: State)
    requires WellFormed(s) && StrictlyIncreasing(avail) && k < |avail| && IdleFrom(avail, k, s)
    ensures IdleFrom(avail, k + 1, Assign(s, avail[k]))
  {
    var t := Assign(s, avail[k]);
    forall i | k + 1 <= i < |avail|
      ensures avail[i] < |t.providers| && t.providers[avail[i]].numPt == 0
    {
      assert avail[k] < avail[i];
    }
  }

  /** The greedy pass: the providers at positions `k` onwards of `avail`, in
      that order, each take their turn against the waiting room as the
      earlier turns left it. */
  function MatchFrom(avail: seq<nat>, k: nat, s: State): (t: State)
    requires WellFormed(s) && StrictlyIncreasing(avail) && k <= |avail| && IdleFrom(avail, k, s)
    ensures WellFormed(t)
    ensures t.arena == s.arena && t.patients == s.patients && t.dischPt == s.dischPt
    ensures |t.providers| == |s.providers|
    ensures forall j :: 0 <= j < |s.providers| ==>
              t.providers[j].minCtas == s.providers[j].minCtas && t.providers[j].workPerHr == s.providers[j].workPerHr
    decreases |avail| - k
  {
    if k == |avail| then s
    else
      LaterStillIdle(avail, k, s);
      MatchFrom(avail, k + 1, Assign(s, avail[k]))
  }

  /** A provider without a turn in the pass is left as it was. */
  lemma {:induction false} MatchFromFrame(avail: seq<nat>, k: nat, s: State, j: nat)
    requires WellFormed(s) && StrictlyIncreasing(avail) && k <= |avail| && IdleFrom(avail, k, s)
    requires j < |s.providers| && forall i :: k <= i < |avail| ==> avail[i] != j
    ensures MatchFrom(avail, k, s).providers[j] == s.providers[j]
    decreases |avail| - k
  {
    if k < |avail| {
      LaterStillIdle(avail, k, s);
      var t := Assign(s, avail[k]);
      assert t.providers[j] == s.providers[j] by {
        assert avail[k] != j;
      }
      MatchFromFrame(avail, k + 1, t, j);
      assert MatchFrom(avail, k, s) == MatchFrom(avail, k + 1, t);
    }
  }

  lemma {:induction false} MatchFromValid(avail: seq<nat>, k: nat, s: State)
    requires Valid(s) && StrictlyIncreasing(avail) && k <= |avail| && IdleFrom(avail, k, s)
    ensures Valid(MatchFrom(avail, k, s))
    ensures multiset(MatchFrom(avail, k, s).waitingRoom) <= multiset(s.waitingRoom)
    decreases |avail| - k
  {
    if k < |avail| {
      AssignValid(s, avail[k]);
      LaterStillIdle(avail, k, s);
      MatchFromValid(avail, k + 1, Assign(s, avail[k]));
    }
  }

  /** Matching: every provider idle at the start of the phase, in pool order. */
  function Match(s: State): (t: State)
    requires WellFormed(s)
    ensures WellFormed(t)
    ensures t.arena == s.arena && t.patients == s.patients && t.dischPt == s.dischPt
    ensures SameConfig(s, t)
  {
    MatchFrom(WithNumPt(s.providers, 0), 0, s)
  }

  // ---------------------------------------------------------------------
  // Phase 4: wait accrual

  /** Adds `interval` to the wait of each listed patient, once per listing. */
  function AddWait(arena: seq<Patient>, ids: seq<nat>, interval: int): (r: seq<Patient>)
    requires InArena(ids, arena)
    ensures |r| == |arena|
    ensures forall x :: 0 <= x < |arena| ==> r[x].ctasLvl == arena[x].ctasLvl && r[x].ruoc == arena[x].ruoc
    decreases |ids|
  {
    if ids == [] then arena
    else
      var id := ids[0];
      AddWait(arena[id := arena[id].(waitTime := arena[id].waitTime + interval)], ids[1..], interval)
  }

  /** Each patient's wait grows by one interval per listing of the patient,
      and nothing else about any record changes. */
  lemma {:induction false} AddWaitEffect(arena: seq<Patient>, ids: seq<nat>, interval: int, x: nat)
    requires InArena(ids, arena) && x < |arena|
    ensures AddWait(arena, ids, interval)[x]
         == arena[x].(waitTime := arena[x].waitTime + multiset(ids)[x] * interval)
    decreases |ids|
  {
    if ids != [] {
      var id := ids[0];
      var m := multiset(ids[1..])[x];
      var a1 := arena[id := arena[id].(waitTime := arena[id].waitTime + interval)];
      AddWaitEffect(a1, ids[1..], interval, x);
      assert multiset(ids) == multiset{id} + multiset(ids[1..]) by {
        assert ids == [id] + ids[1..];
      }
      if id == x {
        assert multiset(ids)[x] == m + 1;
        assert (m + 1) * interval == m * interval + interval;
      } else {
        assert multiset(ids)[x] == m;
      }
    }
  }

  /** Accruing from position `k` on is accruing for `ids[k]` and then from
      position `k + 1` on. */
  lemma AddWaitFrom(arena: seq<Patient>, ids: seq<nat>, k: nat, interval: int)
    requires InArena(ids, arena) && k < |ids|
    ensures AddWait(arena, ids[k..], interval) ==
            AddWait(arena[ids[k] := arena[ids[k]].(waitTime := arena[ids[k]].waitTime + interval)], ids[k + 1..], interval)
  {
    assert ids[k..][1..] == ids[k + 1..];
  }

  /** Every patient still in the waiting room waits one more interval. */
  function Accrue(s: State, interval: int): (t: State)
    requires WellFormed(s)
    ensures WellFormed(t)
    ensures t.patients == s.patients && t.waitingRoom == s.waitingRoom
    ensures t.providers == s.providers && t.dischPt == s.dischPt
    ensures SameConfig(s, t)
    ensures forall x :: 0 <= x < |s.arena| ==> t.arena[x].ruoc == s.arena[x].ruoc
  {
    s.(arena := AddWait(s.arena, s.waitingRoom, interval))
  }

  lemma AccrueValid(s: State, interval: int)
    requires Valid(s)
    ensures Valid(Accrue(s, interval))
  {
    assert LocatedMs(Accrue(s, interval)) == LocatedMs(s);
  }

  // ---------------------------------------------------------------------
  // Phase 5: care and discharge

  /** One occupied provider's turn: its patient's remaining care drops by one
      interval; at or below zero the patient is discharged and the provider
      freed. */
  function CareOne(s: State, j: nat, interval: int): (t: State)
    requires WellFormed(s) && j < |s.providers| && s.providers[j].numPt == 1
    ensures WellFormed(t)
    ensures t.patients == s.patients && t.waitingRoom == s.waitingRoom
    ensures SameConfig(s, t)
    ensures forall x :: 0 <= x < |s.arena| ==> t.arena[x].waitTime == s.arena[x].waitTime
    ensures s.dischPt <= t.dischPt
  {
    var id := s.providers[j].assignedPt.value;
    var arena := s.arena[id := s.arena[id].(ruoc := s.arena[id].ruoc - interval)];
    if arena[id].ruoc <= 0 then
      s.(arena := arena, dischPt := s.dischPt + [id],
         providers := s.providers[j := s.providers[j].(assignedPt := None, numPt := 0)])
    else
      s.(arena := arena)
  }

  /** A provider's care turn on its own patient, and on no other provider. */
  lemma CareOneSelf(s: State, j: nat, interval: int)
    requires WellFormed(s) && j < |s.providers| && s.providers[j].numPt == 1
    ensures var id := s.providers[j].assignedPt.value;
            var r := s.arena[id].ruoc - interval;
            var t := CareOne(s, j, interval);
            && t.arena[id] == s.arena[id].(ruoc := r)
            && t.providers[j] == (if r <= 0 then s.providers[j].(numPt := 0, assignedPt := None) else s.providers[j])
            && (id in t.dischPt <==> r <= 0 || id in s.dischPt)
            && (forall k :: 0 <= k < |s.providers| && k != j ==> t.providers[k] == s.providers[k])
  {
  }

  /** A provider's care turn touches no other patient. */
  lemma CareOneFrame(s: State, j: nat, interval: int, x: nat)
    requires WellFormed(s) && j < |s.providers| && s.providers[j].numPt == 1
    requires x < |s.arena| && s.providers[j].assignedPt != Some(x)
    ensures CareOne(s, j, interval).arena[x] == s.arena[x]
    ensures x in CareOne(s, j, interval).dischPt <==> x in s.dischPt
  {
  }

  /** Moving provider `j`'s patient to the discharged list and freeing the
      provider keeps every patient located exactly as often. */
  lemma DischargeConserves(s: State, t: State, j: nat)
    requires WellFormed(s) && j < |s.providers| && s.providers[j].numPt == 1
    requires t.patients == s.patients && t.waitingRoom == s.waitingRoom
    requires t.dischPt == s.dischPt + [s.providers[j].assignedPt.value]
    requires t.providers == s.providers[j := s.providers[j].(assignedPt := None, numPt := 0)]
    ensures LocatedMs(t) == LocatedMs(s)
  {
    var id := s.providers[j].assignedPt.value;
    var p := s.providers[j].(assignedPt := None, numPt := 0);
    assert multiset(t.dischPt) == multiset(s.dischPt) + multiset{id};
    assert AssignedMs(s.providers) == AssignedMs(t.providers) + multiset{id} by {
      AssignedMsUpdate(s.providers, j, p);
      assert SlotMs(s.providers[j]) == multiset{id};
      assert SlotMs(p) == multiset{};
    }
    MoveOne(multiset(s.patients), multiset(s.waitingRoom), AssignedMs(s.providers), multiset(s.dischPt),
            multiset(t.patients), multiset(t.waitingRoom), AssignedMs(t.providers), multiset(t.dischPt), id);
  }

  /** A turn moves at most one patient, from the provider's slot to the
      discharged list. */
  lemma CareOneConserves(s: State, j: nat, interval: int)
    requires WellFormed(s) && j < |s.providers| && s.providers[j].numPt == 1
    ensures LocatedMs(CareOne(s, j, interval)) == LocatedMs(s)
  {
    var id := s.providers[j].assignedPt.value;
    if s.arena[id].ruoc - interval <= 0 {
      DischargeConserves(s, CareOne(s, j, interval), j);
    }
  }

  lemma CareOneValid(s: State, j: nat, interval: int)
    requires Valid(s) && j < |s.providers| && s.providers[j].numPt == 1
    ensures Valid(CareOne(s, j, interval))
  {
    CareOneConserves(s, j, interval);
    CareOneSelf(s, j, interval);
  }

  /** The providers at positions `k` onwards of `occ` are occupied. */
  predicate BusyFrom(occ: seq<nat>, k: nat, s: State)
  {
    forall i :: k <= i < |occ| ==> occ[i] < |s.providers| && s.providers[occ[i]].numPt == 1
  }

  /** A care turn leaves the providers of the later turns occupied. */
  lemma LaterStillBusy(occ: seq<nat>, k: nat, s: State, interval: int)
    requires WellFormed(s) && StrictlyIncreasing(occ) && k < |occ| && BusyFrom(occ, k, s)
    ensures BusyFrom(occ, k + 1, CareOne(s, occ[k], interval))
  {
    var t := CareOne(s, occ[k], interval);
    CareOneSelf(s, occ[k], interval);
    forall i | k + 1 <= i < |occ|
      ensures occ[i] < |t.providers| && t.providers[occ[i]].numPt == 1
    {
      assert occ[k] < occ[i];
    }
  }

  /** The care pass: the providers at positions `k` onwards of `occ`, in
      that order, each take their care turn. */
  function CareFrom(occ: seq<nat>, k: nat, s: State, interval: int): (t: State)
    requires WellFormed(s) && StrictlyIncreasing(occ) && k <= |occ| && BusyFrom(occ, k, s)
    ensures WellFormed(t)
    ensures t.patients == s.patients && t.waitingRoom == s.waitingRoom
    ensures SameConfig(s, t)
    ensures forall x :: 0 <= x < |s.arena| ==> t.arena[x].waitTime == s.arena[x].waitTime
    ensures s.dischPt <= t.dischPt
    decreases |occ| - k
  {
    if k == |occ| then s
    else
      LaterStillBusy(occ, k, s, interval);
      CareFrom(occ, k + 1, CareOne(s, occ[k], interval), interval)
  }

  lemma {:induction false} CareFromValid(occ: seq<nat>, k: nat, s: State, interval: int)
    requires Valid(s) && StrictlyIncreasing(occ) && k <= |occ| && BusyFrom(occ, k, s)
    ensures Valid(CareFrom(occ, k, s, interval))
    decreases |occ| - k
  {
    if k < |occ| {
      CareOneValid(s, occ[k], interval);
      LaterStillBusy(occ, k, s, interval);
      CareFromValid(occ, k + 1, CareOne(s, occ[k], interval), interval);
    }
  }

  /** The pass from position `k` on is turn `k` followed by the pass from
      position `k + 1` on. */
  lemma CareFromStep(occ: seq<nat>, k: nat, s: State, interval: int)
    requires WellFormed(s) && StrictlyIncreasing(occ) && k < |occ| && BusyFrom(occ, k, s)
    ensures BusyFrom(occ, k + 1, CareOne(s, occ[k], interval))
    ensures CareFrom(occ, k, s, interval) == CareFrom(occ, k + 1, CareOne(s, occ[k], interval), interval)
  {
    LaterStillBusy(occ, k, s, interval);
  }

  /** A provider without a turn in the care pass is left as it was. */
  lemma {:induction false} CareFromProviderFrame(occ: seq<nat>, k: nat, s: State, interval: int, j: nat)
    requires WellFormed(s) && StrictlyIncreasing(occ) && k <= |occ| && BusyFrom(occ, k, s)
    requires j < |s.providers| && forall i :: k <= i < |occ| ==> occ[i] != j
    ensures CareFrom(occ, k, s, interval).providers[j] == s.providers[j]
    decreases |occ| - k
  {
    if k < |occ| {
      LaterStillBusy(occ, k, s, interval);
      var s1 := CareOne(s, occ[k], interval);
      assert s1.providers[j] == s.providers[j] by {
        CareOneSelf(s, occ[k], interval);
      }
      CareFromProviderFrame(occ, k + 1, s1, interval, j);
      assert CareFrom(occ, k, s, interval) == CareFrom(occ, k + 1, s1, interval);
    }
  }

  /** The care pass leaves alone every patient that none of its providers
      holds: the record is unchanged and it is not newly discharged. */
  lemma {:induction false} CareFromFrame(occ: seq<nat>, k: nat, s: State, interval: int, x: nat)
    requires WellFormed(s) && StrictlyIncreasing(occ) && k <= |occ| && BusyFrom(occ, k, s)
    requires x < |s.arena| && forall i :: k <= i < |occ| ==> s.providers[occ[i]].assignedPt != Some(x)
    ensures CareFrom(occ, k, s, interval).arena[x] == s.arena[x]
    ensures x in CareFrom(occ, k, s, interval).dischPt <==> x in s.dischPt
    decreases |occ| - k
  {
    if k < |occ| {
      LaterStillBusy(occ, k, s, interval);
      var s1 := CareOne(s, occ[k], interval);
      CareOneFrame(s, occ[k], interval, x);
      CareOneSelf(s, occ[k], interval);
      forall i | k + 1 <= i < |occ|
        ensures s1.providers[occ[i]].assignedPt != Some(x)
      {
        assert occ[k] < occ[i];
      }
      CareFromFrame(occ, k + 1, s1, interval, x);
      assert CareFrom(occ, k, s, interval) == CareFrom(occ, k + 1, s1, interval);
    }
  }

  /** After turn `k` of the care pass, no later provider of the pass holds
      turn `k`'s patient or is turn `k`'s provider. */
  lemma HeadNotLater(occ: seq<nat>, k: nat, s: State, interval: int)
    requires Valid(s) && StrictlyIncreasing(occ) && k < |occ| && BusyFrom(occ, k, s)
    ensures var id := s.providers[occ[k]].assignedPt.value;
            var s1 := CareOne(s, occ[k], interval);
            forall i :: k + 1 <= i < |occ| ==> occ[i] != occ[k] && s1.providers[occ[i]].assignedPt != Some(id)
  {
    var j := occ[k];
    var id := s.providers[j].assignedPt.value;
    var s1 := CareOne(s, j, interval);
    CareOneSelf(s, j, interval);
    LaterStillBusy(occ, k, s, interval);
    forall i | k + 1 <= i < |occ|
      ensures occ[i] != j && s1.providers[occ[i]].assignedPt != Some(id)
    {
      assert j < occ[i];
      AssignedDistinct(s, j, occ[i]);
    }
  }

  /** Turn `k` of the care pass: its own turn decides, the later turns leave
      its patient and itself alone. */
  lemma CareFromEffectHead(occ: seq<nat>, k: nat, s: State, interval: int)
    requires Valid(s) && StrictlyIncreasing(occ) && k < |occ| && BusyFrom(occ, k, s)
    ensures CareDone(s, CareFrom(occ, k, s, interval), occ[k], interval)
  {
    var j := occ[k];
    var id := s.providers[j].assignedPt.value;
    AssignedIsAlone(s, j);
    LaterStillBusy(occ, k, s, interval);
    var s1 := CareOne(s, j, interval);
    CareOneSelf(s, j, interval);
    HeadNotLater(occ, k, s, interval);
    CareFromFrame(occ, k + 1, s1, interval, id);
    CareFromProviderFrame(occ, k + 1, s1, interval, j);
    assert CareFrom(occ, k, s, interval) == CareFrom(occ, k + 1, s1, interval);
  }

  /** What the care pass owes provider `j`: its patient's remaining care
      has dropped by exactly one interval, and the patient is discharged and
      the provider freed exactly when the result is at or below zero. */
  predicate CareDone(s: State, t: State, j: nat, interval: int)
    requires WellFormed(s) && j < |s.providers| && s.providers[j].numPt == 1
    requires |t.arena| == |s.arena| && |t.providers| == |s.providers|
  {
    var id := s.providers[j].assignedPt.value;
    var r := s.arena[id].ruoc - interval;
    && t.arena[id] == s.arena[id].(ruoc := r)
    && t.providers[j] == (if r <= 0 then s.providers[j].(numPt := 0, assignedPt := None) else s.providers[j])
    && (id in t.dischPt <==> r <= 0)
  }

  /** Within the care pass, the provider at position `ji` reduces its
      patient's remaining care by exactly one interval; the patient is
      discharged and the provider freed exactly when the result is at or
      below zero. */
  lemma CareFromEffect(occ: seq<nat>, k: nat, s: State, interval: int, ji: nat)
    requires Valid(s) && StrictlyIncreasing(occ) && k <= ji < |occ| && BusyFrom(occ, k, s)
    ensures CareDone(s, CareFrom(occ, k, s, interval), occ[ji], interval)
    decreases |occ| - k, 1
  {
    if ji == k {
      CareFromEffectHead(occ, k, s, interval);
    } else {
      CareFromEffectLater(occ, k, s, interval, ji);
    }
  }

  /** A provider later in the pass than position `k`: turn `k` leaves it
      and its patient alone, so the rest of the pass decides. */
  lemma CareFromEffectLater(occ: seq<nat>, k: nat, s: State, interval: int, ji: nat)
    requires Valid(s) && StrictlyIncreasing(occ) && k < ji < |occ| && BusyFrom(occ, k, s)
    ensures CareDone(s, CareFrom(occ, k, s, interval), occ[ji], interval)
    decreases |occ| - k, 0
  {
    var s1 := CareOne(s, occ[k], interval);
    CareFromStep(occ, k, s, interval);
    CareOneValid(s, occ[k], interval);
    OtherTurn(s, occ[k], occ[ji], interval);
    CareFromEffect(occ, k + 1, s1, interval, ji);
    CareDoneTransfer(s, s1, CareFrom(occ, k + 1, s1, interval), occ[ji], interval);
  }

  /** What the rest of the pass owes a provider that an earlier turn left
      alone is what the whole pass owes it. */
  lemma CareDoneTransfer(s: State, s1: State, t: State, j: nat, interval: int)
    requires WellFormed(s) && WellFormed(s1) && j < |s.providers| && s.providers[j].numPt == 1
    requires |s1.arena| == |s.arena| == |t.arena| && |s1.providers| == |s.providers| == |t.providers|
    requires s1.providers[j] == s.providers[j]
    requires s1.arena[s.providers[j].assignedPt.value] == s.arena[s.providers[j].assignedPt.value]
    requires CareDone(s1, t, j, interval)
    ensures CareDone(s, t, j, interval)
  {
  }

  /** An earlier care turn leaves a later provider and its patient alone. */
  lemma OtherTurn(s: State, j1: nat, j2: nat, interval: int)
    requires Valid(s) && j1 < j2 < |s.providers|
    requires s.providers[j1].numPt == 1 && s.providers[j2].numPt == 1
    ensures var id := s.providers[j2].assignedPt.value;
            var t := CareOne(s, j1, interval);
            && t.providers[j2] == s.providers[j2]
            && t.arena[id] == s.arena[id]
            && (id in t.dischPt <==> id in s.dischPt)
  {
    CareOneSelf(s, j1, interval);
    AssignedDistinct(s, j1, j2);
    CareOneFrame(s, j1, interval, s.providers[j2].assignedPt.value);
  }

  /** Care: every provider occupied at the start of the phase, in pool order. */
  function Care(s: State, interval: int): (t: State)
    requires WellFormed(s)
    ensures WellFormed(t)
    ensures t.patients == s.patients && t.waitingRoom == s.waitingRoom
    ensures SameConfig(s, t)
    ensures forall x :: 0 <= x < |s.arena| ==> t.arena[x].waitTime == s.arena[x].waitTime
    ensures s.dischPt <= t.dischPt
  {
    CareFrom(WithNumPt(s.providers, 1), 0, s, interval)
  }

  /** Every occupied provider, including one matched in this same interval,
      reduces its patient's remaining care by exactly one interval (the work
      rate is not applied); at or below zero the patient is appended to the
      discharged list and the provider is freed, otherwise the assignment
      persists. */
  lemma CareEffect(s: State, interval: int, j: nat)
    requires Valid(s) && j < |s.providers| && s.providers[j].numPt == 1
    ensures var id := s.providers[j].assignedPt.value;
            var r := s.arena[id].ruoc - interval;
            var t := Care(s, interval);
            && t.arena[id] == s.arena[id].(ruoc := r)
            && t.providers[j] == (if r <= 0 then s.providers[j].(numPt := 0, assignedPt := None) else s.providers[j])
            && (id in t.dischPt <==> r <= 0)
  {
    var occ := WithNumPt(s.providers, 1);
    var ji :| 0 <= ji < |occ| && occ[ji] == j;
    CareFromEffect(occ, 0, s, interval, ji);
  }

  /** Care touches no patient that no provider holds, and no idle provider. */
  lemma CareFrame(s: State, interval: int)
    requires Valid(s)
    ensures forall j :: 0 <= j < |s.providers| && s.providers[j].numPt != 1 ==>
              Care(s, interval).providers[j] == s.providers[j]
    ensures forall x :: 0 <= x < |s.arena| && x !in AssignedMs(s.providers) ==>
              Care(s, interval).arena[x] == s.arena[x] && (x in Care(s, interval).dischPt <==> x in s.dischPt)
  {
    var occ := WithNumPt(s.providers, 1);
    forall j | 0 <= j < |s.providers| && s.providers[j].numPt != 1
      ensures Care(s, interval).providers[j] == s.providers[j]
    {
      CareFromProviderFrame(occ, 0, s, interval, j);
    }
    forall x | 0 <= x < |s.arena| && x !in AssignedMs(s.providers)
      ensures Care(s, interval).arena[x] == s.arena[x] && (x in Care(s, interval).dischPt <==> x in s.dischPt)
    {
      forall i | 0 <= i < |occ| ensures s.providers[occ[i]].assignedPt != Some(x) {
        AssignedMsHas(s.providers, occ[i]);
      }
      CareFromFrame(occ, 0, s, interval, x);
    }
  }

  /** Exactly the patients left in the waiting room gain one interval of
      wait; every other record is untouched. */
  lemma AccrueEffect(s: State, interval: int, x: nat)
    requires Valid(s) && x < |s.arena|
    ensures Accrue(s, interval).arena[x]
         == s.arena[x].(waitTime := s.arena[x].waitTime + (if x in s.waitingRoom then interval else 0))
  {
    IdsMsCount(|s.arena|, x);
    assert multiset(s.waitingRoom)[x] <= 1;
    AddWaitEffect(s.arena, s.waitingRoom, interval, x);
  }

  // ---------------------------------------------------------------------
  // One interval

  /** One iteration of the simulation loop. */
  function Step(s: State, interval: int): (t: State)
    requires WellFormed(s)
    ensures WellFormed(t)
    ensures SameConfig(s, t) && s.dischPt <= t.dischPt
  {
    Care(Accrue(Match(TriageRoom(Arrive(s))), interval), interval)
  }

  /** Every interval keeps the invariant; in particular each patient stays in
      exactly one place and no provider is ever given a patient more acute
      than it accepts. */
  lemma StepValid(s: State, interval: int)
    requires Valid(s)
    ensures Valid(Step(s, interval))
  {
    var s1 := Arrive(s);
    ArriveValid(s);
    var s2 := TriageRoom(s1);
    TriageValid(s1);
    var s3 := Match(s2);
    MatchFromValid(WithNumPt(s2.providers, 0), 0, s2);
    var s4 := Accrue(s3, interval);
    AccrueValid(s3, interval);
    CareFromValid(WithNumPt(s4.providers, 1), 0, s4, interval);
  }

  // ---------------------------------------------------------------------
  // Facts about whole intervals

  /** The hospital as `Hospital.__init__` sets it up: every patient queued in
      list order, nobody waiting or discharged. */
  function Init(ptList: seq<Patient>, hcpList: seq<Provider>): (r: State)
    ensures r.arena == ptList && r.providers == hcpList && r.waitingRoom == [] && r.dischPt == []
    ensures |r.patients| == |ptList| && forall k :: 0 <= k < |ptList| ==> r.patients[k] == k
    ensures multiset(r.patients) == IdsMs(|ptList|)
  {
    State(ptList, Ids(|ptList|), [], hcpList, [])
  }

  /** A hospital built from idle providers starts in a valid state. */
  lemma InitValid(ptList: seq<Patient>, hcpList: seq<Provider>)
    requires forall j :: 0 <= j < |hcpList| ==> hcpList[j].numPt == 0 && hcpList[j].assignedPt.None?
    ensures Valid(Init(ptList, hcpList))
  {
    AssignedMsAllIdle(hcpList);
  }

  lemma SameConfigTrans(s: State, t: State, u: State)
    requires SameConfig(s, t) && SameConfig(t, u)
    ensures SameConfig(s, u)
  {
  }

  /** A discharged patient is nowhere else. */
  lemma DischargedIsAlone(s: State, x: nat)
    requires Valid(s) && x in s.dischPt
    ensures x !in s.patients && x !in s.waitingRoom && x !in AssignedMs(s.providers)
  {
    IdsMsCount(|s.arena|, x);
    assert LocatedMs(s)[x] == 1;
  }

  /** Every intermediate state of an interval is valid. */
  lemma PhasesValid(s: State, interval: int)
    requires Valid(s)
    ensures Valid(Arrive(s)) && Valid(TriageRoom(Arrive(s))) && Valid(Match(TriageRoom(Arrive(s))))
    ensures Valid(Accrue(Match(TriageRoom(Arrive(s))), interval))
  {
    ArriveValid(s);
    TriageValid(Arrive(s));
    var s2 := TriageRoom(Arrive(s));
    MatchFromValid(WithNumPt(s2.providers, 0), 0, s2);
    AccrueValid(Match(s2), interval);
  }

  /** A discharged patient's record is never touched again. */
  lemma DischargedFrozen(s: State, interval: int, x: nat)
    requires Valid(s) && x in s.dischPt
    ensures x < |s.arena| && Step(s, interval).arena[x] == s.arena[x]
  {
    PhasesValid(s, interval);
    var s3 := Match(TriageRoom(Arrive(s)));
    var s4 := Accrue(s3, interval);
    DischargedIsAlone(s3, x);
    AccrueEffect(s3, interval, x);
    DischargedIsAlone(s4, x);
    CareFrame(s4, interval);
  }

  /** A patient's wait grows by exactly one interval when it is still in the
      waiting room after matching, and not at all otherwise: queued, assigned
      and discharged patients do not wait. */
  lemma StepWait(s: State, interval: int, x: nat)
    requires Valid(s) && x < |s.arena|
    ensures Step(s, interval).arena[x].waitTime
         == s.arena[x].waitTime + (if x in Match(TriageRoom(Arrive(s))).waitingRoom then interval else 0)
  {
    PhasesValid(s, interval);
    AccrueEffect(Match(TriageRoom(Arrive(s))), interval, x);
  }

  /** Wait times never decrease (the interval is a duration, so not negative). */
  lemma WaitNonDecreasing(s: State, interval: int, x: nat)
    requires Valid(s) && interval >= 0 && x < |s.arena|
    ensures Step(s, interval).arena[x].waitTime >= s.arena[x].waitTime
  {
    StepWait(s, interval, x);
  }
}
