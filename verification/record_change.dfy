/** The reactive archival handler: called by a webhook when a patient record
    changes, it archives registered or SIMP-verified records for two years
    and files resignations, by an ordered set of rules of which the first
    that applies wins.
 */
module RecordChange {
  import opened Clinic

  const SimpArchivedNote: string := "Rekord zarchiwizowany (reguła SIMP)."
  const ArchivedNote: string := "Rekord zarchiwizowany."

  predicate IsRegistered(s: Status) {
    s == Registered || s == RegisteredElsewhere
  }

  /** The SIMP override: verified, dated, and not (yet) registered. */
  predicate SimpFires(p: Patient) {
    p.simpVerified && p.keyActionDate.Some? && !IsRegistered(p.status)
  }

  /** What the router decides for one record. Both archival rules produce an
      `Archive`, so they share one offset by construction. */
  datatype Action =
    | Archive(keyDate: Day, note: string)
    | Resign
    | RejectMissingKeyDate
    | Ignore

  /** The rules in priority order. */
  function Route(p: Patient): Action {
    if SimpFires(p) then Archive(p.keyActionDate.value, SimpArchivedNote)
    else if IsRegistered(p.status) then
      match p.keyActionDate
      case None => RejectMissingKeyDate
      case Some(k) => Archive(k, ArchivedNote)
    else if p.status == Resigned then Resign
    else Ignore
  }

  predicate Writes(a: Action) {
    a.Archive? || a.Resign?
  }

  /** The update a writing action sends to the store. */
  function Apply(a: Action, p: Patient, today: Day): Patient
    requires Writes(a)
  {
    match a
    case Archive(k, note) =>
      p.(status := Archived,
         nextPermission := Some(k + ArchiveWindowDays),
         notes := AppendNote(p.notes, today, note))
    case Resign =>
      p.(status := ArchivedResignation, nextPermission := None)
  }

  /** The handler. `today` is the day the note is stamped with. */
  function HandleRecordChange(s: Store, req: Request, today: Day, faults: Faults): (o: Outcome)
    // a request without a record id is refused and nothing is touched
    ensures req.recordId.None? ==> o == Outcome(s, MissingRecordId)
    // an unreadable or unknown record is a server error and nothing is touched
    ensures (req.recordId.Some? && (faults.readFails || req.recordId.value !in s.patients))
              ==> o == Outcome(s, ServerError)
    ensures o.response in {Ok, MissingRecordId, MissingKeyDate, ServerError}
    ensures o.response != Ok ==> o.store == s
    ensures o.store != s ==> Ready(s, req, faults)
    // only the named record can change, and never its SIMP flag or key date
    ensures o.store.callbacks == s.callbacks
    ensures o.store.patients.Keys == s.patients.Keys
    ensures forall id :: id in s.patients && Some(id) != req.recordId
              ==> o.store.patients[id] == s.patients[id]
    ensures req.recordId.Some? && req.recordId.value in s.patients ==>
              var id := req.recordId.value;
              && o.store.patients[id].simpVerified == s.patients[id].simpVerified
              && o.store.patients[id].keyActionDate == s.patients[id].keyActionDate
    // 1. SIMP override, whatever the prior status (Resigned included)
    ensures Ready(s, req, faults) && SimpFires(s.patients[req.recordId.value]) ==>
              var p := s.patients[req.recordId.value];
              var q := o.store.patients[req.recordId.value];
              && o.response == Ok
              && q.status == Archived
              && q.nextPermission == Some(p.keyActionDate.value + ArchiveWindowDays)
              && q.notes == AppendNote(p.notes, today, SimpArchivedNote)
    // 2. Registered / RegisteredElsewhere: a key-action date is required
    ensures Ready(s, req, faults) && IsRegistered(s.patients[req.recordId.value].status) ==>
              var p := s.patients[req.recordId.value];
              var q := o.store.patients[req.recordId.value];
              if p.keyActionDate.None? then o == Outcome(s, MissingKeyDate)
              else
                && o.response == Ok
                && q.status == Archived
                && q.nextPermission == Some(p.keyActionDate.value + ArchiveWindowDays)
                && q.notes == AppendNote(p.notes, today, ArchivedNote)
    // the missing key date is reported before any write is attempted
    ensures (&& req.recordId.Some? && !faults.readFails && req.recordId.value in s.patients
             && IsRegistered(s.patients[req.recordId.value].status)
             && s.patients[req.recordId.value].keyActionDate.None?)
              ==> o == Outcome(s, MissingKeyDate)
    // 3. Resigned: filed as a resignation, date cleared, notes untouched
    ensures Ready(s, req, faults) && !SimpFires(s.patients[req.recordId.value])
            && s.patients[req.recordId.value].status == Resigned ==>
              var p := s.patients[req.recordId.value];
              var q := o.store.patients[req.recordId.value];
              && o.response == Ok
              && q.status == ArchivedResignation
              && q.nextPermission.None?
              && q.notes == p.notes
    // 4. anything else: success and no change
    ensures (&& req.recordId.Some? && !faults.readFails && req.recordId.value in s.patients
             && !SimpFires(s.patients[req.recordId.value])
             && !IsRegistered(s.patients[req.recordId.value].status)
             && s.patients[req.recordId.value].status != Resigned)
              ==> o == Outcome(s, Ok)
    // a failing write turns exactly the writing rules into a server error
    ensures req.recordId.Some? && !faults.readFails && req.recordId.value in s.patients
            && req.recordId.value in faults.failedWrites ==>
              (o.response == ServerError <==> Writes(Route(s.patients[req.recordId.value])))
  {
    match req.recordId
    case None => Outcome(s, MissingRecordId)
    case Some(id) =>
      if faults.readFails || id !in s.patients then Outcome(s, ServerError)
      else
        var p := s.patients[id];
        var a := Route(p);
        if a.RejectMissingKeyDate? then Outcome(s, MissingKeyDate)
        else if a.Ignore? then Outcome(s, Ok)
        else if id in faults.failedWrites then Outcome(s, ServerError)
        else Outcome(s.(patients := s.patients[id := Apply(a, p, today)]), Ok)
  }

  /** A second run on the handler's own result (the webhook fires again
      because the handler changed the record) succeeds and leaves status and
      next-permission date as the first run set them. Only the SIMP rule
      writes again, appending one more note line. */
  lemma RecordChangeSettles(s: Store, req: Request, today: Day, later: Day, faults: Faults)
    requires HandleRecordChange(s, req, today, faults).response == Ok
    ensures var s1 := HandleRecordChange(s, req, today, faults).store;
            var o2 := HandleRecordChange(s1, req, later, faults);
            var id := req.recordId.value;
            && o2.response == Ok
            && o2.store.callbacks == s1.callbacks
            && o2.store.patients.Keys == s1.patients.Keys
            && o2.store.patients[id].status == s1.patients[id].status
            && o2.store.patients[id].nextPermission == s1.patients[id].nextPermission
            && (if SimpFires(s1.patients[id])
                then o2.store.patients[id].notes == AppendNote(s1.patients[id].notes, later, SimpArchivedNote)
                else o2.store == s1)
  {
    var id := req.recordId.value;
    var p := s.patients[id];
    var o1 := HandleRecordChange(s, req, today, faults);
    var s1 := o1.store;
    var a := Route(p);
    if !Writes(a) {
      assert s1 == s;
    } else {
      var p1 := Apply(a, p, today);
      assert s1.patients == s.patients[id := p1];
      if a.Archive? {
        assert p1.status == Archived && p1.nextPermission == Some(a.keyDate + ArchiveWindowDays);
        if SimpFires(p1) {
          assert Route(p1) == Archive(p1.keyActionDate.value, SimpArchivedNote);
          assert p1.keyActionDate == p.keyActionDate;
        } else {
          assert Route(p1) == Ignore;
        }
      } else {
        assert p1.status == ArchivedResignation && !SimpFires(p1);
        assert Route(p1) == Ignore;
      }
    }
  }

  /** The HTTP codes of the handler: 400 exactly for a request without a
      record id or a registered record without a key-action date, 500
      exactly for a store failure, 200 otherwise. */
  lemma RecordChangeCodes(s: Store, req: Request, today: Day, faults: Faults)
    ensures var o := HandleRecordChange(s, req, today, faults);
            var readable := req.recordId.Some? && !faults.readFails && req.recordId.value in s.patients;
            && (o.response.Code() == 400 <==>
                  (|| req.recordId.None?
                   || (readable && Route(s.patients[req.recordId.value]) == RejectMissingKeyDate)))
            && (o.response.Code() == 500 <==>
                  (|| (req.recordId.Some? && !readable)
                   || (readable && req.recordId.value in faults.failedWrites
                       && Writes(Route(s.patients[req.recordId.value])))))
            && (o.response.Code() == 200 <==> o.response == Ok)
  {
  }

  /** The router keeps a well-formed table well-formed. */
  lemma RecordChangeKeepsWellFormed(s: Store, req: Request, today: Day, faults: Faults)
    requires AllWellFormed(s.patients)
    ensures AllWellFormed(HandleRecordChange(s, req, today, faults).store.patients)
  {
  }

  /** Every patient's notes after the handler extend the notes before it. */
  lemma RecordChangeNotesAppendOnly(s: Store, req: Request, today: Day, faults: Faults)
    ensures var after := HandleRecordChange(s, req, today, faults).store.patients;
            forall id :: id in s.patients ==> s.patients[id].notes <= after[id].notes
  {
  }
}
