/** The callback-list manager: called by a webhook when a patient record
    changes, it keeps the patient's membership of the callback list in step
    with the patient's status. A patient waiting for a callback or not
    answering is listed once; any other status takes the patient off.
 */
module CallbackList {
  import opened Clinic

  /** The statuses that put a patient on the callback list. */
  predicate NeedsCallback(s: Status) {
    s == PendingCallback || s == NotAnswering
  }

  /** The rows of the list that link to `id`, in table order: what the
      filtered query on the patient link returns. */
  function EntriesOf(entries: seq<Entry>, id: RecordId): (r: seq<Entry>)
    ensures |r| <= |entries|
    ensures forall i :: 0 <= i < |r| ==> r[i].patient == id && r[i] in entries
    ensures forall e :: e in entries && e.patient == id ==> e in r
  {
    if |entries| == 0 then []
    else (if entries[0].patient == id then [entries[0]] else []) + EntriesOf(entries[1..], id)
  }

  function CountFor(entries: seq<Entry>, id: RecordId): nat {
    |EntriesOf(entries, id)|
  }

  predicate Listed(entries: seq<Entry>, id: RecordId) {
    EntriesOf(entries, id) != []
  }

  /** The table-level invariant: no patient is listed twice. */
  ghost predicate AtMostOne(entries: seq<Entry>) {
    forall id :: CountFor(entries, id) <= 1
  }

  /** Filtering distributes over concatenation. */
  lemma {:induction false} EntriesOfAppend(a: seq<Entry>, b: seq<Entry>, id: RecordId)
    ensures EntriesOf(a + b, id) == EntriesOf(a, id) + EntriesOf(b, id)
  {
    if |a| == 0 {
      assert a + b == b;
    } else {
      assert (a + b)[1..] == a[1..] + b;
      EntriesOfAppend(a[1..], b, id);
    }
  }

  /** Appending a row for one patient adds it to that patient's rows and
      leaves every other patient's rows alone. */
  lemma AppendEntry(entries: seq<Entry>, e: Entry)
    ensures EntriesOf(entries + [e], e.patient) == EntriesOf(entries, e.patient) + [e]
    ensures forall other :: other != e.patient
              ==> EntriesOf(entries + [e], other) == EntriesOf(entries, other)
  {
    EntriesOfAppend(entries, [e], e.patient);
    forall other | other != e.patient
      ensures EntriesOf(entries + [e], other) == EntriesOf(entries, other)
    {
      EntriesOfAppend(entries, [e], other);
    }
  }

  /** Deletes the first row that links to `id` (the first result of the
      filtered query), if there is one. */
  function RemoveFirst(entries: seq<Entry>, id: RecordId): (r: seq<Entry>)
    ensures !Listed(entries, id) ==> r == entries
    ensures Listed(entries, id) ==> EntriesOf(r, id) == EntriesOf(entries, id)[1..]
    ensures Listed(entries, id) ==> |r| == |entries| - 1
    ensures forall other :: other != id ==> EntriesOf(r, other) == EntriesOf(entries, other)
  {
    if |entries| == 0 then entries
    else if entries[0].patient == id then entries[1..]
    else
      var rest := RemoveFirst(entries[1..], id);
      assert ([entries[0]] + rest)[1..] == rest;
      [entries[0]] + rest
  }

  /** The list after syncing patient `id` whose status is `status`, on day
      `now`: an add that happens only when the patient has no row, or a
      removal of the patient's first row. */
  function SyncEntries(entries: seq<Entry>, id: RecordId, status: Status, now: Day): (r: seq<Entry>)
    // a patient who needs a callback keeps their rows, or gets one new row
    // recording the current status and day
    ensures NeedsCallback(status) ==>
              EntriesOf(r, id) == if Listed(entries, id) then EntriesOf(entries, id)
                                  else [Entry(id, status, now)]
    // any other status removes one row, if there is one
    ensures !NeedsCallback(status) ==>
              EntriesOf(r, id) == if Listed(entries, id) then EntriesOf(entries, id)[1..] else []
    // the rows of other patients are not touched
    ensures forall other :: other != id ==> EntriesOf(r, other) == EntriesOf(entries, other)
    // under the at-most-one invariant: listed afterwards exactly when the
    // status asks for it, and still at most once
    ensures CountFor(entries, id) <= 1 ==>
              && (Listed(r, id) <==> NeedsCallback(status))
              && CountFor(r, id) <= 1
  {
    if NeedsCallback(status) then
      if Listed(entries, id) then entries
      else
        var e := Entry(id, status, now);
        AppendEntry(entries, e);
        entries + [e]
    else RemoveFirst(entries, id)
  }

  /** The handler. `now` is the day a new row is stamped with. A write is a
      create or a delete of the patient's row; it happens only when the
      patient's membership has to change. */
  function HandleCallbackSync(s: Store, req: Request, now: Day, faults: Faults): (o: Outcome)
    ensures req.recordId.None? ==> o == Outcome(s, MissingRecordId)
    ensures (req.recordId.Some? && (faults.readFails || req.recordId.value !in s.patients))
              ==> o == Outcome(s, ServerError)
    ensures o.response in {Ok, MissingRecordId, ServerError}
    ensures o.response != Ok ==> o.store == s
    // the patient table is only read
    ensures o.store.patients == s.patients
    // other patients' rows are untouched
    ensures forall other :: Some(other) != req.recordId
              ==> EntriesOf(o.store.callbacks, other) == EntriesOf(s.callbacks, other)
    // a ready sync succeeds; under the invariant it lists the patient exactly
    // when the status needs a callback, at most once, with a new row
    // recording the status and day
    ensures Ready(s, req, faults) ==>
              var id := req.recordId.value;
              var st := s.patients[id].status;
              && o.response == Ok
              && (CountFor(s.callbacks, id) <= 1 ==>
                    && (Listed(o.store.callbacks, id) <==> NeedsCallback(st))
                    && CountFor(o.store.callbacks, id) <= 1)
              && (NeedsCallback(st) && !Listed(s.callbacks, id) ==>
                    EntriesOf(o.store.callbacks, id) == [Entry(id, st, now)])
              // an existing row is kept as it is
              && (NeedsCallback(st) && Listed(s.callbacks, id) ==> o.store == s)
              // any other status deletes the first of the patient's rows
              && (!NeedsCallback(st) && Listed(s.callbacks, id) ==>
                    EntriesOf(o.store.callbacks, id) == EntriesOf(s.callbacks, id)[1..]
                    && |o.store.callbacks| == |s.callbacks| - 1)
              && (!NeedsCallback(st) && !Listed(s.callbacks, id) ==> o.store == s)
    // a failing write turns exactly the membership changes into a server error
    ensures (&& req.recordId.Some? && !faults.readFails && req.recordId.value in s.patients
             && req.recordId.value in faults.failedWrites)
              ==> (o.response == ServerError <==>
                     NeedsCallback(s.patients[req.recordId.value].status) != Listed(s.callbacks, req.recordId.value))
  {
    match req.recordId
    case None => Outcome(s, MissingRecordId)
    case Some(id) =>
      if faults.readFails || id !in s.patients then Outcome(s, ServerError)
      else
        var status := s.patients[id].status;
        if NeedsCallback(status) == Listed(s.callbacks, id) then
          // add when already listed, or remove when not listed: no write
          assert SyncEntries(s.callbacks, id, status, now) == s.callbacks;
          Outcome(s, Ok)
        else if id in faults.failedWrites then Outcome(s, ServerError)
        else Outcome(s.(callbacks := SyncEntries(s.callbacks, id, status, now)), Ok)
  }

  /** Running the sync a second time, on any later day, changes nothing:
      adding is skipped once listed, and under the at-most-one invariant a
      removal leaves nothing to remove. */
  lemma SyncTwiceIsOnce(s: Store, req: Request, now: Day, later: Day, faults: Faults)
    requires HandleCallbackSync(s, req, now, faults).response == Ok
    requires CountFor(s.callbacks, req.recordId.value) <= 1
    ensures var o1 := HandleCallbackSync(s, req, now, faults);
            HandleCallbackSync(o1.store, req, later, faults) == o1
  {
  }

  /** The sync keeps the at-most-one invariant of the whole list. */
  lemma SyncKeepsAtMostOne(s: Store, req: Request, now: Day, faults: Faults)
    requires AtMostOne(s.callbacks)
    ensures AtMostOne(HandleCallbackSync(s, req, now, faults).store.callbacks)
  {
    var o := HandleCallbackSync(s, req, now, faults);
    forall id
      ensures CountFor(o.store.callbacks, id) <= 1
    {
      assert CountFor(s.callbacks, id) <= 1;
    }
  }

  /** The list agrees with the patient table for `id`. */
  predicate InSync(s: Store, id: RecordId)
    requires id in s.patients
  {
    Listed(s.callbacks, id) <==> NeedsCallback(s.patients[id].status)
  }

  /** A successful sync brings the named patient in step with the list and
      keeps every other patient as in step as before: the list is a function
      of the current statuses, reconciled one event at a time. */
  lemma SyncReconciles(s: Store, req: Request, now: Day, faults: Faults)
    requires AtMostOne(s.callbacks)
    requires HandleCallbackSync(s, req, now, faults).response == Ok
    ensures var s1 := HandleCallbackSync(s, req, now, faults).store;
            && InSync(s1, req.recordId.value)
            && forall other :: other in s.patients && other != req.recordId.value
                 ==> (InSync(s1, other) <==> InSync(s, other))
  {
    assert CountFor(s.callbacks, req.recordId.value) <= 1;
  }
}
