/** The two records that the emergency-department simulation mutates.
    Time is measured in integer ticks: the simulation interval, a patient's
    remaining units of care and its accumulated wait are all whole numbers
    of one common unit (a quarter hour for the default interval of 0.25 h). */
module Records {

  datatype Option<T> = None | Some(value: T)

  /** A patient: CTAS level (1 is the most urgent), remaining units of care
      (also the progress counter; done once it is <= 0) and wait so far. */
  datatype Patient = Patient(ctasLvl: int, ruoc: int, waitTime: int)

  /** A health-care provider: work rate (declared, never used by the engine),
      the most acute CTAS level it accepts, its patient count and the arena
      id of the patient it is treating. */
  datatype Provider = Provider(workPerHr: real, minCtas: int, numPt: int, assignedPt: Option<nat>)

  /** A patient as the scenario builder creates one: no wait yet. */
  function NewPatient(ctasLvl: int, ruoc: int): (r: Patient)
    ensures r.ctasLvl == ctasLvl && r.ruoc == ruoc && r.waitTime == 0
  {
    Patient(ctasLvl, ruoc, 0)
  }

  /** A provider as the scenario builder creates one: rate 1, idle. */
  function NewProvider(minCtas: int := 1): (r: Provider)
    ensures SlotOk(r) && r.numPt == 0 && r.minCtas == minCtas && r.workPerHr == 1.0
  {
    Provider(1.0, minCtas, 0, None)
  }

  /** Every id in `ids` names a record of the arena. */
  predicate InArena(ids: seq<nat>, arena: seq<Patient>)
  {
    forall k :: 0 <= k < |ids| ==> ids[k] < |arena|
  }

  /** The provider slot invariant: either idle with nobody assigned or
      holding exactly one patient. */
  predicate SlotOk(p: Provider)
  {
    (p.numPt == 0 && p.assignedPt.None?) || (p.numPt == 1 && p.assignedPt.Some?)
  }
}
