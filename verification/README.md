# Clinic workflow rules: a Dafny model

A patient-tracking table and a derived "callback list" table are kept in
step with a clinic's workflow by three webhook/timer handlers in `main.py`:

- the **reactive archival handler** (`main_reactive_handler`), run when a
  patient record changes: a priority router that archives SIMP-verified or
  registered patients for two years (730 days after the key-action date) and
  files resignations;
- the **daily awaken sweep** (`daily_awakener_handler`), run once a day:
  every Archived record whose next-permission date lies strictly between
  today and today + 30 days goes back to "to contact", loses its date and
  gets an audit line in its notes;
- the **callback-list manager** (`attack_list_manager`), run when a patient
  record changes: a patient who is waiting for a callback or not answering
  gets one row on the callback list; any other status removes the row.

The model replaces the hosted tables by one immutable `Store` value (a map
from record id to patient, plus the callback list as a sequence in table
order) and each handler by a pure transition from store, current day and the
store's failure behaviour to a new store and a response.

Modules, one per handler plus a shared vocabulary:

- `clinic.dfy` — `Clinic`: statuses, patient and callback rows, requests,
  responses (with their HTTP codes and bodies), store faults, the 730/30-day
  constants and the append-only notes log.
- `record_change.dfy` — `RecordChange`: the router (`Route`), the update it
  sends (`Apply`) and the handler `HandleRecordChange`.
- `awakener.dfy` — `Awakener`: the sweep's query (`Due`, `Selected`), the
  reactivation update (`Awaken`), the all-succeed reference result
  (`SweepAll`) and the handler `DailyAwaken`, a loop that stops at the first
  failing update.
- `callback_list.dfy` — `CallbackList`: the per-patient view of the list
  (`EntriesOf`), deletion of the first row (`RemoveFirst`), the
  reconciliation (`SyncEntries`) and the handler `HandleCallbackSync`.
- `scenarios.dfy` — `Scenarios`: worked examples on concrete tables.

Modelling choices:

- Dates are whole day numbers (day 0 is 1970-01-01); `now` is a parameter.
- Statuses are a closed enumeration; `Other` stands for every label the
  handlers do not name and for an empty Status field.
- An absent notes field reads as the empty string, as `fields.get('Notatki', '')` does.
- Store failures are a `Faults` parameter: all reads fail, and/or the writes
  concerning given patient records fail. A read failure or an unknown record
  id gives 500 with nothing written; a failed write changes nothing.
- The sweep processes the query result in an order the model leaves open;
  its failure postcondition holds for every order.
- The daily sweep aborts at the first failing update, with the earlier
  updates already applied, and answers 500. This follows `main.py:113-129`;
  a best-effort batch that carries on past a failed update would differ, and
  is not what the code does.

## Model

| member | source | states |
|---|---|---|
| `RecordChange.HandleRecordChange` | main.py:19-90 | No record id: 400, nothing changes. Unreadable or unknown record: 500, nothing changes. SIMP flag + key date + not registered: 200, Archived, next-permission = key date + 730, notes extended by the SIMP line, whatever the prior status. Registered/RegisteredElsewhere: without key date 400 and nothing changes (before any write, so also when writes would fail), with it Archived at key date + 730 and an "archived" line. Resigned (SIMP not firing): ArchivedResignation, date cleared, notes untouched. Any other status: 200, nothing changes. A failing write gives 500 exactly on the writing rules. Only the named record changes; its SIMP flag and key date never do |
| `RecordChange.RecordChangeCodes` | main.py:26-90 | The handler answers 400 exactly for a request without a record id or a readable registered record without a key-action date, 500 exactly for an unreadable or unknown record or a failing write on a writing rule, and 200 exactly when it answers OK |
| `RecordChange.RecordChangeSettles` | main.py:45-86 | A second run on the handler's own result succeeds and keeps status and next-permission date; it changes nothing unless the SIMP rule fires, which appends one more note line |
| `RecordChange.RecordChangeKeepsWellFormed` | main.py:51-79 | If every record has a next-permission date exactly when it is Archived, that stays true after the handler |
| `RecordChange.RecordChangeNotesAppendOnly` | main.py:51-79 | Every patient's notes after the handler have the notes before it as a prefix |
| `Clinic.NoteLine` | main.py:54 | A system note line starts with a line break and ends with the message |
| `Clinic.AppendNote` | main.py:54 | The old notes are a strict prefix of the new ones, and the added text is exactly one line "\nSystem (day): message" |
| `Awakener.Awaken` | main.py:116-122 | A reactivated record is ToContact with no next-permission date, keeps SIMP flag and key date, has notes extended by exactly one system line quoting the next-permission date being given up, and is no longer due |
| `Awakener.SweepAll` | main.py:101-122 | Same record ids; a record changes exactly when it is Archived with today < next-permission < today + 30; each changed record is ToContact with its date cleared, keeps its SIMP flag and key date, and has its notes extended by exactly the audit line quoting the date given up |
| `Awakener.AwakenSelected` | main.py:113-123 | Updating the selected records one by one: it runs to the end exactly when no selected record's update fails, and then yields the all-succeed sweep; otherwise it stops at a failing selected record, left untouched, with every record either untouched or reactivated |
| `Awakener.DailyAwaken` | main.py:95-129 | Failing query: 500, nothing changes. Empty selection: the distinct "no patients" 200. All updates succeed: the swept table and a count equal to the number selected. Some update fails: 500 after a partial sweep that left a failing selected record untouched. The callback list never changes |
| `Awakener.SweepIdempotent` | main.py:105-120 | A second sweep on the same day selects nothing and changes nothing |
| `Awakener.SweepCountsRewrites` | main.py:108-125 | The count of selected records equals the number of records the sweep rewrote |
| `Awakener.SweepKeepsWellFormed` | main.py:113-122 | The sweep keeps "next-permission date present exactly when Archived" |
| `Awakener.SweepWindowIsOpen` | main.py:101-105 | Both window bounds are exclusive: due today or in exactly 30 days is not selected, due tomorrow or in 29 days is |
| `CallbackList.EntriesOf` | main.py:151-152 | The rows returned for a patient are exactly the rows of the list that link to that patient |
| `CallbackList.EntriesOfAppend` | main.py:151-152 | The rows of a patient in a concatenated list are that patient's rows of each part, in order |
| `CallbackList.RemoveFirst` | main.py:168-170 | Deleting the first row of a listed patient removes exactly the first of their rows and one row in all; an unlisted patient leaves the list as it was; other patients' rows are untouched |
| `CallbackList.SyncEntries` | main.py:155-173 | Callback status: the patient's rows stay, or one new row records the status and day. Other status: the first row goes. Other patients' rows are untouched. With at most one row before: listed afterwards exactly when the status needs a callback, and at most once |
| `CallbackList.HandleCallbackSync` | main.py:134-179 | No record id: 400, nothing changes. Unreadable or unknown record: 500, nothing changes. The patient table is never written and other patients' rows are untouched. A ready sync answers 200 and, with at most one row before, lists the patient exactly when the status is PendingCallback or NotAnswering, at most once, a new row carrying the status and day. An already listed patient who needs a callback leaves the store unchanged; any other status deletes exactly the first of the patient's rows, or changes nothing when there is none. A failing write gives 500 exactly when membership has to change |
| `CallbackList.SyncTwiceIsOnce` | main.py:155-173 | With at most one row for the patient, running the sync again on any later day gives the same store and response as running it once |
| `CallbackList.SyncKeepsAtMostOne` | main.py:155-171 | If no patient has two rows before the sync, none has after |
| `CallbackList.SyncReconciles` | main.py:147-173 | After a successful sync the named patient is listed exactly when their status needs a callback, and every other patient is as much in step as before |
| `Scenarios.RegisteredExample` | main.py:60-73 | A Registered patient with key date 2024-01-10 is archived until 2026-01-09 with an "archived" note line |
| `Scenarios.ResignedSimpExample` | main.py:45-57 | A Resigned, SIMP-verified, dated patient is archived by the SIMP rule, not filed as a resignation |
| `Scenarios.CallbackExample` | main.py:155-173 | PendingCallback, then NotAnswering, then Registered: one row, still that one row, then none |
| `Scenarios.SweepExample` | main.py:101-122 | Of records due in 0, 15 and 30 days only the one due in 15 days is reactivated |

## Left out

- The table client, the HTTP framework and the request parsing: a request is
  reduced to "carries a record id, or not"; the client becomes the `Store`
  value and the `Faults` parameter.
- The environment configuration of the API key and base id (main.py:9-15),
  which is process setup, not workflow logic.
- Logging (`print`), which has no effect on the store or the responses.
- Timestamp parsing and formatting: dates are whole day numbers, time of day
  is not modelled, and the sweep's date-granularity comparison is the
  integer comparison of day numbers. A malformed stored date, which makes the
  source's parser raise and the handler answer 500, cannot occur in the model.
- Clinic.DayText: the date stamp in a note line renders the day number in
  decimal instead of the calendar date; the prefix and one-line properties of
  the notes do not depend on it.
- The formula strings of the two filtered queries are modelled as the
  predicates they express (`Awakener.Due`, `CallbackList.EntriesOf`).
- The columns of a patient row that the handlers neither read nor write.
- Concurrent invocations on the same record: each invocation is one
  transition of the store; interleavings and the store's last-write-wins
  behaviour are outside the code.
