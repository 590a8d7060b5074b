/** The daily sweep: once a day it looks for archived records whose
    next-permission date falls within the coming thirty days and returns them
    to the contact queue.
 */
module Awakener {
  import opened Clinic

  /** The sweep's query: Archived, with a next-permission date strictly after
      today and strictly before today + 30 (both bounds exclusive). */
  predicate Due(p: Patient, today: Day) {
    && p.status == Archived
    && p.nextPermission.Some?
    && today < p.nextPermission.value < today + AwakenHorizonDays
  }

  /** The audit line of a reactivation, quoting the date being given up.
      The sweep only reactivates `Due` records, which always carry a date, so
      the `None` rendering is never written. */
  function RestoredNote(p: Patient): string {
    "Rekord automatycznie przywrócony z archiwum. Termin uprawnienia: "
      + (match p.nextPermission case Some(d) => DayText(d) case None => "None")
      + "."
  }

  /** The update the sweep sends for one selected record. */
  function Awaken(p: Patient, today: Day): (q: Patient)
    ensures q.status == ToContact && q.nextPermission.None?
    ensures q.simpVerified == p.simpVerified && q.keyActionDate == p.keyActionDate
    ensures p.notes < q.notes
    ensures q.notes[|p.notes|..] == NoteLine(today, RestoredNote(p))
    ensures !Due(q, today) && WellFormed(q)
  {
    p.(status := ToContact,
       nextPermission := None,
       notes := AppendNote(p.notes, today, RestoredNote(p)))
  }

  /** The ids the query returns. */
  function Selected(ps: map<RecordId, Patient>, today: Day): set<RecordId> {
    set id | id in ps && Due(ps[id], today)
  }

  /** The table after a sweep in which every update succeeds. */
  function SweepAll(ps: map<RecordId, Patient>, today: Day): (r: map<RecordId, Patient>)
    ensures r.Keys == ps.Keys
    // exactly the selected records change
    ensures forall id :: id in ps ==> (r[id] != ps[id] <==> Due(ps[id], today))
    ensures forall id :: id in ps && Due(ps[id], today)
              ==> && r[id].status == ToContact && r[id].nextPermission.None?
                  && r[id].simpVerified == ps[id].simpVerified
                  && r[id].keyActionDate == ps[id].keyActionDate
                  && ps[id].notes < r[id].notes
                  && r[id].notes[|ps[id].notes|..] == NoteLine(today, RestoredNote(ps[id]))
  {
    map id | id in ps :: if Due(ps[id], today) then Awaken(ps[id], today) else ps[id]
  }

  /** The table after a sweep that stopped at a failing update: every record
      is either untouched or reactivated, and only due records whose update
      did not fail were reactivated. */
  ghost predicate PartialSweep(before: map<RecordId, Patient>, after: map<RecordId, Patient>,
                               today: Day, failed: set<RecordId>) {
    && after.Keys == before.Keys
    && forall id :: id in before ==>
         || after[id] == before[id]
         || (Due(before[id], today) && id !in failed && after[id] == Awaken(before[id], today))
  }

  /** Sends the reactivation update for every selected record, in an order
      the model leaves open, stopping at the first update that fails. Reports
      the record it stopped at, if any. */
  method AwakenSelected(ps: map<RecordId, Patient>, today: Day, failed: set<RecordId>)
    returns (after: map<RecordId, Patient>, stoppedAt: Option<RecordId>)
    ensures after.Keys == ps.Keys
    ensures stoppedAt.None? <==> Selected(ps, today) !! failed
    ensures stoppedAt.None? ==> after == SweepAll(ps, today)
    ensures stoppedAt.Some? ==>
              && stoppedAt.value in failed && stoppedAt.value in ps
              && Due(ps[stoppedAt.value], today)
              && after[stoppedAt.value] == ps[stoppedAt.value]
              && PartialSweep(ps, after, today, failed)
  {
    var todo := Selected(ps, today);
    ghost var done: set<RecordId> := {};
    after := ps;
    while todo != {}
      invariant todo !! done && todo + done == Selected(ps, today)
      invariant done !! failed
      invariant after.Keys == ps.Keys
      invariant forall id :: id in ps ==>
                  after[id] == if id in done then Awaken(ps[id], today) else ps[id]
      decreases todo
    {
      var id :| id in todo;
      if id in failed {
        return after, Some(id);
      }
      after := after[id := Awaken(ps[id], today)];
      todo := todo - {id};
      done := done + {id};
    }
    assert forall id :: id in ps ==> after[id] == SweepAll(ps, today)[id];
    stoppedAt := None;
  }

  /** The handler. A failing query is a server error; an empty selection has
      its own reply; otherwise the selected records are reactivated and the
      count reported, unless an update fails, which aborts the loop with the
      earlier updates already applied. */
  method DailyAwaken(s: Store, today: Day, faults: Faults) returns (o: Outcome)
    ensures o.store.callbacks == s.callbacks
    ensures faults.readFails ==> o == Outcome(s, ServerError)
    ensures (!faults.readFails && Selected(s.patients, today) == {})
              ==> o == Outcome(s, NoneToAwaken)
    // every update succeeds: the count is the number of records selected
    ensures (&& !faults.readFails && Selected(s.patients, today) != {}
             && Selected(s.patients, today) !! faults.failedWrites)
              ==> o == Outcome(s.(patients := SweepAll(s.patients, today)),
                               Awakened(|Selected(s.patients, today)|))
    // some update fails: a server error after a partial sweep that left at
    // least one failing selected record untouched
    ensures (!faults.readFails && !(Selected(s.patients, today) !! faults.failedWrites))
              ==> && o.response == ServerError
                  && PartialSweep(s.patients, o.store.patients, today, faults.failedWrites)
                  && exists id :: id in faults.failedWrites && id in Selected(s.patients, today)
                                  && o.store.patients[id] == s.patients[id]
  {
    if faults.readFails {
      return Outcome(s, ServerError);
    }
    if Selected(s.patients, today) == {} {
      return Outcome(s, NoneToAwaken);
    }
    var after, stoppedAt := AwakenSelected(s.patients, today, faults.failedWrites);
    if stoppedAt.Some? {
      return Outcome(s.(patients := after), ServerError);
    }
    return Outcome(s.(patients := after), Awakened(|Selected(s.patients, today)|));
  }

  /** A second sweep on the same day finds nothing: every record the first
      sweep reactivated fails the Archived test, and the rest were not due. */
  lemma SweepIdempotent(ps: map<RecordId, Patient>, today: Day)
    ensures Selected(SweepAll(ps, today), today) == {}
    ensures SweepAll(SweepAll(ps, today), today) == SweepAll(ps, today)
  {
    var r := SweepAll(ps, today);
    forall id | id in r
      ensures !Due(r[id], today)
    {
    }
    assert forall id :: id in r ==> SweepAll(r, today)[id] == r[id];
  }

  /** The reported count is the number of records the sweep rewrote. */
  lemma SweepCountsRewrites(ps: map<RecordId, Patient>, today: Day)
    ensures |Selected(ps, today)| == |set id | id in ps && SweepAll(ps, today)[id] != ps[id]|
  {
    var r := SweepAll(ps, today);
    assert Selected(ps, today) == set id | id in ps && r[id] != ps[id];
  }

  /** The sweep keeps a well-formed table well-formed. */
  lemma SweepKeepsWellFormed(ps: map<RecordId, Patient>, today: Day)
    requires AllWellFormed(ps)
    ensures AllWellFormed(SweepAll(ps, today))
  {
  }

  /** A record due exactly today, or exactly thirty days from today, is not
      picked up; one day inside either bound is. */
  lemma SweepWindowIsOpen(p: Patient, today: Day)
    requires p.status == Archived
    ensures p.nextPermission == Some(today) ==> !Due(p, today)
    ensures p.nextPermission == Some(today + AwakenHorizonDays) ==> !Due(p, today)
    ensures p.nextPermission == Some(today + 1) ==> Due(p, today)
    ensures p.nextPermission == Some(today + AwakenHorizonDays - 1) ==> Due(p, today)
  {
  }
}
