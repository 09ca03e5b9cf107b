/** Why the simulation loop ends: a measure of the care still owed that every
    interval strictly lowers while some patient is not yet discharged. */
module Progress {
  import opened Records
  import opened Triage
  import opened Matching
  import opened Engine

  /** Every patient can be seen by at least one provider of the pool. */
  predicate Servable(s: State)
  {
    forall x :: 0 <= x < |s.arena| ==> Accepted(s.providers, s.arena[x].ctasLvl)
  }

  /** Some provider of the pool accepts CTAS level `c`. */
  predicate Accepted(providers: seq<Provider>, c: int)
  {
    exists j :: 0 <= j < |providers| && providers[j].minCtas <= c
  }

  /** What patient `x` still owes: nothing once discharged, otherwise its
      positive remaining care plus one interval for the final turn. */
  function Owed(arena: seq<Patient>, dischPt: seq<nat>, interval: int, x: nat): nat
    requires x < |arena| && interval > 0
  {
    if x in dischPt then 0
    else (if arena[x].ruoc > 0 then arena[x].ruoc else 0) + interval
  }

  function OwedUpTo(arena: seq<Patient>, dischPt: seq<nat>, interval: int, n: nat): nat
    requires n <= |arena| && interval > 0
  {
    if n == 0 then 0 else OwedUpTo(arena, dischPt, interval, n - 1) + Owed(arena, dischPt, interval, n - 1)
  }

  /** The care still owed by the whole arena. */
  function Measure(s: State, interval: int): nat
    requires interval > 0
  {
    OwedUpTo(s.arena, s.dischPt, interval, |s.arena|)
  }

  /** When no patient owes more than before, the total does not grow; when
      patient `k` owes strictly less, the total strictly drops. */
  lemma {:induction false} OwedUpToMono(a1: seq<Patient>, d1: seq<nat>, a2: seq<Patient>, d2: seq<nat>,
                                        interval: int, n: nat, k: nat)
    requires interval > 0 && n <= |a1| == |a2|
    requires forall x :: 0 <= x < n ==> Owed(a2, d2, interval, x) <= Owed(a1, d1, interval, x)
    ensures OwedUpTo(a2, d2, interval, n) <= OwedUpTo(a1, d1, interval, n)
    ensures k < n && Owed(a2, d2, interval, k) < Owed(a1, d1, interval, k) ==>
              OwedUpTo(a2, d2, interval, n) < OwedUpTo(a1, d1, interval, n)
  {
    if n > 0 {
      OwedUpToMono(a1, d1, a2, d2, interval, n - 1, k);
    }
  }

  /** One provider's care turn strictly lowers the care owed. */
  lemma CareOneDecreases(s: State, j: nat, interval: int)
    requires Valid(s) && interval > 0 && j < |s.providers| && s.providers[j].numPt == 1
    ensures |CareOne(s, j, interval).arena| == |s.arena|
    ensures Measure(CareOne(s, j, interval), interval) < Measure(s, interval)
  {
    var t := CareOne(s, j, interval);
    var id := s.providers[j].assignedPt.value;
    AssignedIsAlone(s, j);
    CareOneSelf(s, j, interval);
    forall x | 0 <= x < |s.arena|
      ensures Owed(t.arena, t.dischPt, interval, x) <= Owed(s.arena, s.dischPt, interval, x)
    {
      if x != id {
        CareOneFrame(s, j, interval, x);
      }
    }
    OwedUpToMono(s.arena, s.dischPt, t.arena, t.dischPt, interval, |s.arena|, id);
  }

  /** The care pass never raises the care owed, and lowers it when some
      provider is occupied. */
  lemma {:induction false} CareFromDecreases(occ: seq<nat>, k: nat, s: State, interval: int)
    requires Valid(s) && interval > 0 && StrictlyIncreasing(occ) && k <= |occ| && BusyFrom(occ, k, s)
    ensures Measure(CareFrom(occ, k, s, interval), interval) <= Measure(s, interval)
    ensures k < |occ| ==> Measure(CareFrom(occ, k, s, interval), interval) < Measure(s, interval)
    decreases |occ| - k
  {
    if k < |occ| {
      var s1 := CareOne(s, occ[k], interval);
      CareOneValid(s, occ[k], interval);
      CareOneDecreases(s, occ[k], interval);
      LaterStillBusy(occ, k, s, interval);
      CareFromDecreases(occ, k + 1, s1, interval);
    }
  }

  /** Wait accrual leaves the care owed as it is. */
  lemma AccrueKeepsMeasure(s: State, interval: int)
    requires Valid(s) && interval > 0
    ensures Measure(Accrue(s, interval), interval) == Measure(s, interval)
  {
    var t := Accrue(s, interval);
    forall x | 0 <= x < |s.arena|
      ensures Owed(t.arena, t.dischPt, interval, x) == Owed(s.arena, s.dischPt, interval, x)
    {
      AddWaitEffect(s.arena, s.waitingRoom, interval, x);
    }
    OwedUpToMono(s.arena, s.dischPt, t.arena, t.dischPt, interval, |s.arena|, 0);
    OwedUpToMono(t.arena, t.dischPt, s.arena, s.dischPt, interval, |s.arena|, 0);
  }

  /** If some waiting patient is acceptable to a provider with a turn in
      the pass, the pass leaves some provider occupied. */
  lemma {:induction false} MatchAssignsSome(avail: seq<nat>, k: nat, s: State, x: nat, ji: nat) returns (p: nat)
    requires WellFormed(s) && StrictlyIncreasing(avail) && k <= ji < |avail| && IdleFrom(avail, k, s)
    requires x in s.waitingRoom && s.providers[avail[ji]].minCtas <= s.arena[x].ctasLvl
    ensures p < |s.providers| && MatchFrom(avail, k, s).providers[p].numPt == 1
    decreases |avail| - k
  {
    var a := avail[k];
    LaterStillIdle(avail, k, s);
    AssignTakesFirstEligible(s, a);
    if FirstEligible(s.waitingRoom, s.arena, s.providers[a].minCtas).Some? {
      p := a;
      MatchFromFrame(avail, k + 1, Assign(s, a), a);
    } else {
      SkippedTurn(avail, k, s, x, ji);
      p := MatchAssignsSome(avail, k + 1, s, x, ji);
    }
  }

  /** A provider that finds nobody eligible is not one that accepts `x`. */
  lemma SkippedTurn(avail: seq<nat>, k: nat, s: State, x: nat, ji: nat)
    requires WellFormed(s) && k <= ji < |avail| && avail[k] < |s.providers| && avail[ji] < |s.providers|
    requires x in s.waitingRoom && s.providers[avail[ji]].minCtas <= s.arena[x].ctasLvl
    requires FirstEligible(s.waitingRoom, s.arena, s.providers[avail[k]].minCtas).None?
    ensures k < ji
  {
    var ix :| 0 <= ix < |s.waitingRoom| && s.waitingRoom[ix] == x;
    assert s.arena[s.waitingRoom[ix]].ctasLvl < s.providers[avail[k]].minCtas;
  }

  /** With nobody queued, waiting or being treated, everybody is discharged. */
  lemma NothingPendingAllDischarged(s: State)
    requires Valid(s) && s.patients == [] && s.waitingRoom == []
    requires forall j :: 0 <= j < |s.providers| ==> s.providers[j].numPt == 0
    ensures |s.dischPt| == |s.arena|
  {
    AssignedMsAllIdle(s.providers);
    IdsMsSize(|s.arena|);
  }

  /** When nobody is being treated but somebody is not yet discharged, the
      waiting room is not empty once arrival and triage have run. */
  lemma SomebodyWaits(s: State)
    requires Valid(s) && |s.dischPt| < |s.arena|
    requires forall j :: 0 <= j < |s.providers| ==> s.providers[j].numPt == 0
    ensures TriageRoom(Arrive(s)).waitingRoom != []
  {
    var s1 := Arrive(s);
    if s1.waitingRoom == [] {
      assert s.patients == [] && s.waitingRoom == [];
      NothingPendingAllDischarged(s);
    } else {
      assert |multiset(TriageRoom(s1).waitingRoom)| == |s1.waitingRoom|;
    }
  }

  /** A provider already occupied when matching starts stays occupied. */
  lemma OccupiedStays(t: State, j: nat)
    requires WellFormed(t) && j < |t.providers| && t.providers[j].numPt == 1
    ensures Match(t).providers[j].numPt == 1
  {
    MatchFromFrame(WithNumPt(t.providers, 0), 0, t, j);
  }

  /** With every provider idle and somebody waiting whom some provider
      accepts, matching occupies some provider. */
  lemma IdleMatchesSome(t: State) returns (k: nat)
    requires WellFormed(t) && Servable(t) && t.waitingRoom != []
    requires forall j :: 0 <= j < |t.providers| ==> t.providers[j].numPt == 0
    ensures k < |t.providers| && Match(t).providers[k].numPt == 1
  {
    var x := t.waitingRoom[0];
    var j :| 0 <= j < |t.providers| && t.providers[j].minCtas <= t.arena[x].ctasLvl;
    var avail := WithNumPt(t.providers, 0);
    var ji :| 0 <= ji < |avail| && avail[ji] == j;
    k := MatchAssignsSome(avail, 0, t, x, ji);
  }

  /** Matching leaves some provider occupied, unless nothing is pending. */
  lemma SomeoneInCare(s: State) returns (k: nat)
    requires Valid(s) && Servable(s) && |s.dischPt| < |s.arena|
    ensures k < |s.providers| && Match(TriageRoom(Arrive(s))).providers[k].numPt == 1
  {
    var s2 := TriageRoom(Arrive(s));
    assert s2.providers == s.providers && s2.arena == s.arena;
    if j :| 0 <= j < |s.providers| && s.providers[j].numPt == 1 {
      OccupiedStays(s2, j);
      k := j;
    } else {
      assert forall j :: 0 <= j < |s.providers| ==> SlotOk(s.providers[j]);
      SomebodyWaits(s);
      k := IdleMatchesSome(s2);
    }
  }

  /** Every interval that starts with some patient not yet discharged
      strictly lowers the care owed, so the simulation loop ends. */
  lemma StepDecreases(s: State, interval: int)
    requires Valid(s) && Servable(s) && interval > 0 && |s.dischPt| < |s.arena|
    ensures Measure(Step(s, interval), interval) < Measure(s, interval)
  {
    PhasesValid(s, interval);
    var s3 := Match(TriageRoom(Arrive(s)));
    var s4 := Accrue(s3, interval);
    var k := SomeoneInCare(s);
    AccrueKeepsMeasure(s3, interval);
    assert k in WithNumPt(s4.providers, 1);
    CareFromDecreases(WithNumPt(s4.providers, 1), 0, s4, interval);
  }

  /** Servability depends only on what no interval changes. */
  lemma ServableKept(s: State, t: State)
    requires Servable(s) && SameConfig(s, t)
    ensures Servable(t)
  {
    forall x | 0 <= x < |t.arena|
      ensures Accepted(t.providers, t.arena[x].ctasLvl)
    {
      assert Accepted(s.providers, s.arena[x].ctasLvl);
      var j :| 0 <= j < |s.providers| && s.providers[j].minCtas <= s.arena[x].ctasLvl;
      assert t.providers[j].minCtas <= t.arena[x].ctasLvl;
    }
  }

  /** The discharged list never outgrows the arena, and once it holds as many
      patients as the arena, the queue and the waiting room are empty, no
      provider holds anybody, and every patient was discharged exactly once. */
  lemma AllDischarged(s: State)
    requires Valid(s)
    ensures |s.dischPt| <= |s.arena|
    ensures |s.dischPt| >= |s.arena| ==>
              && s.patients == [] && s.waitingRoom == []
              && AssignedMs(s.providers) == multiset{}
              && multiset(s.dischPt) == IdsMs(|s.arena|)
  {
    IdsMsSize(|s.arena|);
    assert |LocatedMs(s)| == |s.patients| + |s.waitingRoom| + |AssignedMs(s.providers)| + |s.dischPt|;
  }

  // ---------------------------------------------------------------------
  // The whole run

  /** The simulation loop: whole intervals, until at least `totPt` patients
      are discharged. */
  function Run(s: State, interval: int, totPt: nat): (t: State)
    requires Valid(s) && Servable(s) && interval > 0 && totPt <= |s.arena|
    ensures Valid(t) && Servable(t) && SameConfig(s, t)
    ensures |t.dischPt| >= totPt && s.dischPt <= t.dischPt
    decreases Measure(s, interval)
  {
    if |s.dischPt| >= totPt then s
    else
      var s1 := Step(s, interval);
      StepDecreases(s, interval);
      StepValid(s, interval);
      ServableKept(s, s1);
      var t := Run(s1, interval, totPt);
      SameConfigTrans(s, s1, t);
      t
  }

  /** When the run is asked for as many discharges as there are patients,
      the source's closing assertion holds: nobody is left queued or waiting,
      and every patient was discharged exactly once. */
  lemma RunEmptiesHospital(s: State, interval: int, totPt: nat)
    requires Valid(s) && Servable(s) && interval > 0 && totPt == |s.arena|
    ensures Run(s, interval, totPt).patients == [] && Run(s, interval, totPt).waitingRoom == []
    ensures multiset(Run(s, interval, totPt).dischPt) == IdsMs(|s.arena|)
  {
    AllDischarged(Run(s, interval, totPt));
  }

  /** No patient's wait goes down over a run; waits that start at zero, as a
      new patient's does, stay non-negative. */
  lemma {:induction false} RunWaitNonDecreasing(s: State, interval: int, totPt: nat, x: nat)
    requires Valid(s) && Servable(s) && interval > 0 && totPt <= |s.arena| && x < |s.arena|
    ensures Run(s, interval, totPt).arena[x].waitTime >= s.arena[x].waitTime
    decreases Measure(s, interval)
  {
    if |s.dischPt| < totPt {
      var s1 := Step(s, interval);
      StepDecreases(s, interval);
      StepValid(s, interval);
      ServableKept(s, s1);
      WaitNonDecreasing(s, interval, x);
      RunWaitNonDecreasing(s1, interval, totPt, x);
    }
  }

  /** A patient already discharged leaves the run with the record it had:
      its wait, in particular, is final. */
  lemma {:induction false} RunDischargedFrozen(s: State, interval: int, totPt: nat, x: nat)
    requires Valid(s) && Servable(s) && interval > 0 && totPt <= |s.arena| && x in s.dischPt
    ensures x < |s.arena| && Run(s, interval, totPt).arena[x] == s.arena[x]
    decreases Measure(s, interval)
  {
    if |s.dischPt| < totPt {
      var s1 := Step(s, interval);
      StepDecreases(s, interval);
      StepValid(s, interval);
      ServableKept(s, s1);
      DischargedFrozen(s, interval, x);
      RunDischargedFrozen(s1, interval, totPt, x);
    }
  }
}
