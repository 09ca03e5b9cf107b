/** The emergency department as the simulation object that owns it: the
    patient queue, the waiting room, the provider pool and the discharged
    list, updated in place interval by interval. Each phase method is proved
    to perform exactly the corresponding step of `Engine`. */
module HospitalSim {
  import opened Records
  import opened Triage
  import opened Matching
  import opened Engine
  import opened Progress

  /** The number of discharges after which the source's simulation loop
      stops: the default of `RunSim`'s `totPt` argument. */
  const TotPt: nat := 200

  class Hospital {
    /** Every patient record of the run, addressed by its index. */
    var arena: seq<Patient>
    /** Patients that have not arrived yet, in arrival order. */
    var patients: seq<nat>
    var waitingRoom: seq<nat>
    var providers: seq<Provider>
    var dischPt: seq<nat>
    /** Length of one interval, in the same time unit as care and waits. */
    const interval: int

    /** The hospital's state as a value. */
    function Abs(): State
      reads this
    {
      State(arena, patients, waitingRoom, providers, dischPt)
    }

    /** Every patient starts in the arrival queue, in list order; nobody is
        waiting or discharged. The interval defaults to one tick, the quarter
        hour that is the source's default of 0.25 h. */
    constructor(ptList: seq<Patient>, hcpList: seq<Provider>, interval: int := 1)
      ensures Abs() == Init(ptList, hcpList)
      ensures this.interval == interval
    {
      arena := ptList;
      patients := Ids(|ptList|);
      waitingRoom := [];
      providers := hcpList;
      dischPt := [];
      this.interval := interval;
    }

    /** The next patient in the queue, if any, enters the waiting room. */
    method ArriveNext()
      requires WellFormed(Abs())
      modifies this
      ensures Abs() == Arrive(old(Abs()))
    {
      if patients != [] {
        var pt := patients[0];
        patients := patients[1..];
        waitingRoom := waitingRoom + [pt];
      }
    }

    /** The waiting room is re-ordered by CTAS level, stably. */
    method SortWaitingRoom()
      requires WellFormed(Abs())
      modifies this
      ensures Abs() == TriageRoom(old(Abs()))
    {
      waitingRoom := SortByCtas(waitingRoom, arena);
    }

    /** Provider `j`, idle, takes the first waiting patient whose CTAS
        level it accepts, if there is one. */
    method AssignTurn(j: nat)
      requires WellFormed(Abs()) && j < |providers| && providers[j].numPt == 0
      modifies this
      ensures Abs() == Assign(old(Abs()), j)
    {
      var potentialPt := Eligible(waitingRoom, arena, providers[j].minCtas);
      if potentialPt != [] {
        InRecordsOf(waitingRoom, arena, potentialPt[0]);
        var ptInd := IndexOf(RecordsOf(waitingRoom, arena), arena[potentialPt[0]]);
        var currPt := waitingRoom[ptInd];
        waitingRoom := waitingRoom[..ptInd] + waitingRoom[ptInd + 1..];
        providers := providers[j := providers[j].(numPt := 1, assignedPt := Some(currPt))];
      }
    }

    /** Each provider idle at the start of the phase, in pool order, takes
        the first waiting patient it accepts. */
    method MatchProviders()
      requires WellFormed(Abs())
      modifies this
      ensures Abs() == Match(old(Abs()))
    {
      var hcpsAvail := WithNumPt(providers, 0);
      var k := 0;
      while k < |hcpsAvail|
        invariant 0 <= k <= |hcpsAvail|
        invariant WellFormed(Abs()) && IdleFrom(hcpsAvail, k, Abs())
        invariant MatchFrom(hcpsAvail, k, Abs()) == MatchFrom(hcpsAvail, 0, old(Abs()))
      {
        LaterStillIdle(hcpsAvail, k, Abs());
        AssignTurn(hcpsAvail[k]);
        k := k + 1;
      }
    }

    /** Every patient in the waiting room waits one more interval. */
    method AccrueWait()
      requires WellFormed(Abs())
      modifies this
      ensures Abs() == Accrue(old(Abs()), interval)
    {
      var k := 0;
      while k < |waitingRoom|
        invariant 0 <= k <= |waitingRoom|
        invariant |arena| == |old(arena)| && InArena(waitingRoom, arena)
        invariant patients == old(patients) && waitingRoom == old(waitingRoom)
        invariant providers == old(providers) && dischPt == old(dischPt)
        invariant AddWait(arena, waitingRoom[k..], interval) == AddWait(old(arena), waitingRoom, interval)
      {
        var wrPt := waitingRoom[k];
        AddWaitFrom(arena, waitingRoom, k, interval);
        arena := arena[wrPt := arena[wrPt].(waitTime := arena[wrPt].waitTime + interval)];
        k := k + 1;
      }
    }

    /** Provider `j`, occupied, gives its patient one interval of care and
        discharges the patient, freeing itself, once no care remains. */
    method CareTurn(j: nat)
      requires WellFormed(Abs()) && j < |providers| && providers[j].numPt == 1
      modifies this
      ensures Abs() == CareOne(old(Abs()), j, interval)
    {
      var pt := providers[j].assignedPt.value;
      arena := arena[pt := arena[pt].(ruoc := arena[pt].ruoc - interval)];
      if arena[pt].ruoc <= 0 {
        dischPt := dischPt + [pt];
        providers := providers[j := providers[j].(assignedPt := None, numPt := 0)];
      }
    }

    /** Each provider occupied at the start of the phase, in pool order,
        takes its care turn. */
    method CareForPatients()
      requires WellFormed(Abs())
      modifies this
      ensures Abs() == Care(old(Abs()), interval)
    {
      var hcpsOcc := WithNumPt(providers, 1);
      var k := 0;
      while k < |hcpsOcc|
        invariant 0 <= k <= |hcpsOcc|
        invariant WellFormed(Abs()) && BusyFrom(hcpsOcc, k, Abs())
        invariant CareFrom(hcpsOcc, k, Abs(), interval) == CareFrom(hcpsOcc, 0, old(Abs()), interval)
      {
        LaterStillBusy(hcpsOcc, k, Abs(), interval);
        CareTurn(hcpsOcc[k]);
        k := k + 1;
      }
    }

    /** One interval of the simulation loop. */
    method StepInterval()
      requires WellFormed(Abs())
      modifies this
      ensures Abs() == Step(old(Abs()), interval)
    {
      ArriveNext();
      SortWaitingRoom();
      MatchProviders();
      AccrueWait();
      CareForPatients();
    }

    /** Runs intervals until `totPt` patients are discharged, ending in the
        state `Run` gives. The result is the discharged list when the queue
        and the waiting room are then empty, and `None` where the source's
        closing assertion fails. */
    method RunSim(totPt: nat := TotPt) returns (r: Option<seq<nat>>)
      requires Valid(Abs()) && Servable(Abs()) && interval > 0 && totPt <= |arena|
      modifies this
      ensures Abs() == Run(old(Abs()), interval, totPt)
      ensures Valid(Abs()) && SameConfig(old(Abs()), Abs())
      ensures |dischPt| >= totPt && old(dischPt) <= dischPt
      ensures r.Some? <==> patients == [] && waitingRoom == []
      ensures r.Some? ==> r.value == dischPt
      ensures |arena| == totPt ==> r.Some? && multiset(dischPt) == IdsMs(|arena|)
    {
      while |dischPt| < totPt
        invariant Valid(Abs()) && Servable(Abs()) && SameConfig(old(Abs()), Abs())
        invariant old(dischPt) <= dischPt
        invariant Run(Abs(), interval, totPt) == Run(old(Abs()), interval, totPt)
        decreases Measure(Abs(), interval)
      {
        ghost var before := Abs();
        StepDecreases(before, interval);
        StepValid(before, interval);
        ServableKept(before, Step(before, interval));
        SameConfigTrans(old(Abs()), before, Step(before, interval));
        StepInterval();
      }
      AllDischarged(Abs());
      if patients == [] && waitingRoom == [] {
        r := Some(dischPt);
      } else {
        r := None;
      }
    }
  }
}
