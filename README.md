# Emergency-department simulation engine, modelled in Dafny

The repository is a discrete-time Monte Carlo simulation of an emergency
department. This project models its engine, `Hospital.runSim`. Each
iteration of its loop is one fixed-length interval, and it runs five phases
in order:

1. **Arrival.** The patient at the front of the arrival queue, if there is one, moves to the end of the waiting room.
2. **Triage.** The waiting room is sorted stably by CTAS level (Canadian Triage and Acuity Scale, 1 = most urgent).
3. **Matching.** Every provider that was idle when the phase began takes a turn, in pool order. On its turn it takes the first waiting patient whose CTAS level is at least its `min_ctas`.
4. **Wait accrual.** Every patient still waiting gains one interval of wait.
5. **Care.** Every occupied provider takes one interval off its patient's remaining units of care (`ruoc`). At or below zero, the patient is discharged and the provider is freed.

The loop stops once `TOT_PT` patients are discharged. At that point the
source asserts that the queue and the waiting room are empty.

Structure:

- `records.dfy` (module `Records`): the `Patient` and `HCProvider` records, as the datatypes `Patient` and `Provider`.
- `triage.dfy` (module `Triage`): the stable sort by CTAS level.
- `matching.dfy` (module `Matching`): the list comprehensions and lookups used by matching and care (`hcps_avail`, `potential_pt`, `list.index`, `pop(i)`).
- `engine.dfy` (module `Engine`):
  - the simulation state as a value, `State`;
  - each phase as a function on `State`;
  - the invariant `Valid`, and the lemmas about phases and whole intervals.
- `progress.dfy` (module `Progress`): a termination measure (the care still owed), and the proof that every interval lowers it while a patient is not yet discharged.
- `hospital.dfy` (module `HospitalSim`): the class `Hospital`.
  - It updates its fields in place, phase by phase, with the loops of the source.
  - Each phase method, and `StepInterval`, is proved to perform exactly the corresponding `Engine` function: `ensures Abs() == Engine.X(old(Abs()))`.
  - `RunSim` is proved to end in the state `Progress.Run` gives: `ensures Abs() == Run(old(Abs()), interval, totPt)`. `Run` repeats `Engine.Step` until `totPt` patients are discharged.

Representation choices:

- **Patients live in an arena.** Every patient record is an element of `arena: seq<Patient>`, and a patient is identified by its index there.
  - The arrival queue, the waiting room and the discharged list are sequences of indices.
  - A provider's `assigned_pt` is an `Option<nat>` index.
  - This replaces the object aliasing of the source. A record the source mutates through `hcp.assigned_pt` or through a waiting-room entry is mutated here at its arena index.
- **Time is counted in integer ticks.** `interval`, `ruoc` and `wait_time` are `int`s in one common unit. Every value the source uses (interval 0.25; `ruoc` 0.5, 1, 1.5, 3, 4, 5, 0.75) is an exact binary fraction, so a tick of a quarter hour, or a finer one, represents them exactly.
- **`list.index` on value-equal records.** The source's `waitingroom.index(potential_pt[0])` compares patient records by value, field by field.
  - The model does the same: `IndexOf` over `RecordsOf(waitingRoom, arena)`.
  - `EligibleHeadIsFirst` proves that this lookup still finds the first eligible position. A value-equal record earlier in the room would have the same CTAS level, so it would have been eligible itself.

## Model

| member | source | states |
|---|---|---|
| Records.NewPatient | main.py:34-36 | A new patient has the given CTAS level and care requirement, and no wait yet |
| Records.NewProvider | main.py:38-54 | A provider built with the record's defaults has work rate 1, is idle with a consistent slot, and has the given threshold, 1 when none is given |
| Engine.Init | main.py:58-67 | The initial state queues every patient once, in list order, with the providers as given and nobody waiting or discharged |
| HospitalSim.Hospital.constructor | main.py:58-67 | Every patient is queued in list order; the waiting room and the discharged list are empty; the providers are as given |
| Engine.InitValid | main.py:58-67 | A hospital built from idle providers starts in the invariant: each patient is in exactly one place |
| HospitalSim.Hospital.ArriveNext | main.py:71-73 | With a non-empty queue, exactly its front patient leaves it and is appended to the waiting room; with an empty queue nothing changes |
| Engine.Arrive | main.py:71-73 | Arrival changes only the queue and the waiting room, keeps the patients of the two together, and grows the room by one when the queue was non-empty |
| Engine.ArriveValid | main.py:71-73 | Arrival keeps every patient in exactly one place |
| Triage.SortByCtas | main.py:75 | The sorted waiting room is a permutation of the old one |
| Triage.InsertSorted | main.py:75 | Inserting into a room sorted by CTAS level keeps it sorted |
| Triage.SortByCtasSorted | main.py:75 | After the sort the waiting room is non-decreasing in CTAS level |
| Triage.InsertWithCtas | main.py:75 | Insertion places the new patient in front of every patient of equal CTAS level already present. The sort inserts the earliest patient into the sorted rest, so this is what keeps it stable |
| Triage.SortByCtasStable | main.py:75 | Patients of equal CTAS level keep their previous relative order, as Python's sort is stable |
| Engine.TriageRoom | main.py:75 | Triage changes only the waiting room, which becomes a permutation of itself, sorted by CTAS level |
| Engine.TriageValid | main.py:75 | Triage keeps every patient in exactly one place |
| HospitalSim.Hospital.SortWaitingRoom | main.py:75 | The in-place sort performs the stable triage sort |
| Matching.WithNumPt | main.py:80 | The idle pool lists, in pool order and without repeats, exactly the providers with `num_pt == 0` |
| Matching.Eligible | main.py:82 | The eligible list holds exactly the waiting patients with CTAS level at least `min_ctas`, drawn from the room |
| Matching.FirstEligible | main.py:82-84 | The result is the first room position whose patient is eligible, or none when no waiting patient is eligible |
| Matching.IndexOf | main.py:84 | `list.index` returns a position holding an equal record, with no equal record before it |
| Matching.EligibleHead | main.py:82-84 | The eligible list is empty exactly when no waiting patient is eligible; its head is the patient at the first eligible position |
| Matching.EligibleHeadIsFirst | main.py:82-84 | Looking up the head of the eligible list by value yields the first eligible position |
| Matching.RemoveAt | main.py:85 | `pop(i)` removes exactly the element at `i` from the multiset of the list |
| Engine.Assign | main.py:82-87 | One provider's turn changes only that provider and the waiting room, and keeps its threshold and rate |
| Engine.AssignTakesFirstEligible | main.py:82-87 | An idle provider takes the first eligible waiting patient, who leaves the room, and becomes occupied with that patient; with nobody eligible nothing changes |
| Engine.AssignConserves | main.py:82-87 | A turn moves at most one patient, from the waiting room into the provider's slot |
| Engine.AssignValid | main.py:82-87 | A turn keeps the invariant, including that no provider holds a patient more acute than it accepts |
| Engine.MatchFrom | main.py:81-87 | The greedy pass over the pool from a given turn on touches no patient record, the queue or the discharged list, and changes no threshold or rate |
| Engine.Match | main.py:80-87 | Matching, over the pool of providers idle when it starts, touches no patient record, the queue or the discharged list, and changes no threshold or rate |
| Engine.MatchFromFrame | main.py:80-87 | A provider without a turn in the pass is unchanged |
| Engine.MatchFromValid | main.py:80-87 | The greedy pass keeps the invariant and only removes patients from the waiting room |
| Progress.OccupiedStays | main.py:80-87 | A provider occupied when matching starts is still occupied after it, because the idle pool is computed before the loop |
| HospitalSim.Hospital.AssignTurn | main.py:82-87 | The in-place turn, with `list.index` and `pop`, performs the modelled turn |
| HospitalSim.Hospital.MatchProviders | main.py:80-87 | The loop over the idle pool, computed once up front, performs the modelled greedy pass |
| Engine.AddWait | main.py:90-91 | Accrual over a list of patients keeps the arena's size and every CTAS level and care requirement |
| Engine.Accrue | main.py:90-91 | Wait accrual changes no place of any patient, no provider, no CTAS level and no care requirement |
| Engine.AddWaitEffect | main.py:90-91 | Each record's wait grows by one interval per listing of that patient, and nothing else in any record changes |
| Engine.AccrueEffect | main.py:90-91 | Exactly the patients in the waiting room gain one interval of wait; every other record is untouched |
| Engine.AccrueValid | main.py:90-91 | Wait accrual keeps the invariant |
| HospitalSim.Hospital.AccrueWait | main.py:90-91 | The in-place loop over the waiting room performs the modelled accrual |
| Engine.CareOne | main.py:95-99 | One care turn leaves the queue, the waiting room, every wait, every CTAS level, threshold and rate unchanged, and only appends to the discharged list |
| Engine.CareFrom | main.py:94-99 | The care pass from a given turn on leaves the queue, the waiting room, every wait and all configuration unchanged, and only appends to the discharged list |
| Engine.Care | main.py:93-99 | Care leaves the queue, the waiting room, every wait and all configuration unchanged, and only appends to the discharged list |
| Engine.CareOneSelf | main.py:95-99 | One care turn lowers its own patient's remaining care by exactly one interval; at or below zero the patient is discharged and the provider freed, otherwise the provider keeps the patient |
| Engine.CareOneValid | main.py:95-99 | A care turn keeps the invariant |
| Engine.CareFromValid | main.py:93-99 | The care pass keeps the invariant |
| Engine.CareEffect | main.py:93-99 | Every occupied provider, including one matched in the same interval, reduces its patient's remaining care by exactly one interval, without the work rate. At or below zero the patient is discharged and the provider freed; otherwise the assignment persists |
| Engine.CareFrame | main.py:93-99 | Care leaves idle providers, and the patients nobody holds, untouched |
| HospitalSim.Hospital.CareTurn | main.py:95-99 | The in-place turn performs the modelled care turn |
| HospitalSim.Hospital.CareForPatients | main.py:93-99 | The loop over the occupied pool, computed once up front, performs the modelled care pass |
| Engine.StepValid | main.py:71-99 | Every interval keeps the invariant: each patient is in exactly one place, every slot is consistent (`num_pt` is 0 or 1, and a patient is assigned exactly when it is 1), and no provider holds a patient more acute than it accepts |
| Engine.Step | main.py:71-99 | One interval is the five phases in order. It never changes CTAS levels, thresholds or work rates, and the discharged list only grows at its end |
| Engine.DischargedIsAlone | main.py:97 | A discharged patient is neither queued, nor waiting, nor assigned |
| Engine.DischargedFrozen | main.py:71-99 | A discharged patient's record is never changed again |
| Engine.StepWait | main.py:71-99 | A patient's wait grows by one interval exactly when it is still waiting after matching |
| Engine.WaitNonDecreasing | main.py:90-91 | No interval lowers a patient's wait |
| HospitalSim.Hospital.StepInterval | main.py:71-99 | One iteration of the loop performs the five phases in order |
| Progress.CareOneDecreases | main.py:95-99 | A care turn strictly lowers the care still owed |
| Progress.CareFromDecreases | main.py:93-99 | The care pass never raises the care owed, and lowers it when any provider is occupied |
| Progress.AccrueKeepsMeasure | main.py:90-91 | Wait accrual does not change the care owed |
| Progress.MatchAssignsSome | main.py:80-87 | If a waiting patient is acceptable to a provider that has a turn, some provider ends the pass occupied |
| Progress.SomebodyWaits | main.py:71-75 | With no provider occupied and somebody not yet discharged, the waiting room is non-empty after arrival and triage |
| Progress.IdleMatchesSome | main.py:80-87 | With every provider idle and a servable patient waiting, matching occupies some provider |
| Progress.SomeoneInCare | main.py:71-87 | While a patient is not yet discharged, some provider is occupied after matching |
| Progress.StepDecreases | main.py:70-99 | Every interval that starts with a patient not yet discharged strictly lowers the care owed, so the loop terminates |
| Progress.ServableKept | main.py:71-99 | Whether every patient can be seen by some provider never changes |
| Progress.NothingPendingAllDischarged | main.py:102 | With nobody queued, waiting or in care, every patient is discharged |
| Progress.AllDischarged | main.py:70-102 | The discharged list never outgrows the patient count; once it reaches it, the queue and the waiting room are empty and everybody was discharged exactly once |
| Progress.Run | main.py:70-101 | The loop ends with at least `totPt` discharges. It keeps the invariant and every CTAS level, threshold and rate, and only appends to the discharged list |
| Progress.RunEmptiesHospital | main.py:102 | Asked for as many discharges as there are patients, the run ends with the queue and the waiting room empty, and every patient discharged exactly once |
| Progress.RunWaitNonDecreasing | main.py:90-91 | No patient's wait goes down over a run, so waits that start at zero stay non-negative |
| Progress.RunDischargedFrozen | main.py:97 | A patient already discharged ends the run with the record it had, so its wait is final |
| HospitalSim.Hospital.RunSim | main.py:69-104 | The method ends in exactly the state `Run` gives, which fixes every wait and which patients are discharged. It keeps the invariant and only appends to the discharged list. It returns the discharged list exactly when the queue and the waiting room are empty, which always holds when `totPt` is the patient count. `totPt` defaults to the source's 200 |

## Left out

- The command-line parsing and its echo (main.py:9-18), the unused `pandas` import, the `print` calls and the commented-out debug output: I/O with no logic.
- The `if 0:` scenario tables (main.py:106-121): never executed.
- The Monte Carlo driver (main.py:123-144) is not modelled, because it is randomness and floating-point statistics:
  - `shuffle`: the model takes the arrival order as its input instead;
  - `mean` and `stdev`;
  - the hard-coded scenario.
- `TOT_PT` (main.py:22) is the `totPt` argument of `RunSim`. Its default is `HospitalSim.TotPt`, the source's value 200. The constructor's `interval` defaults to one tick, the quarter hour of the source's default 0.25 (main.py:62).
- `work_per_hr` is kept in the provider record but is never applied, as in the code (main.py:95 subtracts the bare interval). The docstring describes it as a speed of work, "not implemented yet"; the model follows the code.
- Floating point: time is modelled in exact integer ticks. This is faithful for the binary-fraction values the source uses, but not for arbitrary floats, where repeated `-=`/`+=` could round.
- Object aliasing of patients: patients are arena indices instead of shared references. If the same `Patient` object were listed twice in the input, the source would share one record between two entries; the model gives every entry its own record.
- Object aliasing of providers: providers are values in a sequence, one per entry. In the source, an `HCProvider` object listed twice in `hcp_list` appears twice in `hcps_avail` (main.py:80). It would take a second patient in the same pass, and main.py:87 would overwrite `assigned_pt`, so the first patient would never be discharged. Its two entries in `hcps_occ` (main.py:93) then give its patient two intervals of care per interval; a shared provider that found no second patient does the same for its one patient. main.py:95 dereferences `None` only when the first of the two turns already discharged the patient. The model treats the two entries as two independent providers and does not capture this.
- `SortByCtas` is an insertion sort written as a function, not CPython's in-place Timsort. The modelled properties are exactly those Python documents for `list.sort`: the result is sorted, is a permutation of the input, and is stable.
- `RunSim` returns the discharged patients as arena indices, not as records. The records are `arena` at those indices.
- RunSim: the closing `assert` of the source (main.py:102) becomes the `Option` result. `None` is the assertion failing.
- RunSim: requires `interval > 0`, `totPt <= |arena|`, and that every patient is accepted by some provider (`Servable`). Without these, termination is not guaranteed. The loop stops only after `TOT_PT` discharges. With fewer patients than that it never stops. With a patient no provider accepts, it stops only if enough other patients are discharged. These requires also exclude inputs on which the source does stop:
  - a run where some patient is accepted by no provider but `totPt` other patients are discharged first. The source then ends, and its closing assertion fails if that patient is still waiting;
  - `interval <= 0` when `totPt` is 0, or when enough patients have `ruoc - interval <= 0` at their first care turn to be discharged by it.
  `Run` (`Progress.Run`) has the same requires.
- RunSim: requires the invariant `Valid` of its starting state. A hospital built by the constructor from idle providers has it (`Engine.InitValid`).
