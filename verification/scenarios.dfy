/** Worked examples of the three handlers on concrete tables. Days are
    counted from 1970-01-01: day 19732 is 2024-01-10 and day 20462 is
    2026-01-09.
 */
module Scenarios {
  import opened Clinic
  import RecordChange
  import CallbackList
  import Awakener

  const KeyDay: Day := 19732    // 2024-01-10
  const Today: Day := 19800

  function One(id: RecordId, p: Patient): Store {
    Store(map[id := p], [])
  }

  /** A registered patient with key-action date 2024-01-10 is archived until
      2026-01-09, with an "archived" line appended to the notes. */
  lemma RegisteredExample()
    ensures var p := Patient(Registered, false, Some(KeyDay), None, "Pierwsza wizyta.");
            var o := RecordChange.HandleRecordChange(One("recA", p), Request(Some("recA")), Today, NoFaults);
            && o.response == Ok
            && o.store.patients["recA"].status == Archived
            && o.store.patients["recA"].nextPermission == Some(20462)
            && o.store.patients["recA"].notes
                 == "Pierwsza wizyta." + NoteLine(Today, RecordChange.ArchivedNote)
  {
  }

  /** The SIMP rule outranks the resignation rule. */
  lemma ResignedSimpExample()
    ensures var p := Patient(Resigned, true, Some(KeyDay), None, "");
            var o := RecordChange.HandleRecordChange(One("recA", p), Request(Some("recA")), Today, NoFaults);
            && o.response == Ok
            && o.store.patients["recA"].status == Archived
            && o.store.patients["recA"].nextPermission == Some(KeyDay + ArchiveWindowDays)
  {
  }

  /** PendingCallback, then NotAnswering, then Registered: one row, still one
      row, then none. */
  lemma CallbackExample()
    ensures var req := Request(Some("recB"));
            var p := Patient(PendingCallback, false, None, None, "");
            var o1 := CallbackList.HandleCallbackSync(One("recB", p), req, Today, NoFaults);
            var s2 := o1.store.(patients := map["recB" := p.(status := NotAnswering)]);
            var o2 := CallbackList.HandleCallbackSync(s2, req, Today + 1, NoFaults);
            var s3 := o2.store.(patients := map["recB" := p.(status := Registered)]);
            var o3 := CallbackList.HandleCallbackSync(s3, req, Today + 2, NoFaults);
            && o1.store.callbacks == [Entry("recB", PendingCallback, Today)]
            && o2.store.callbacks == [Entry("recB", PendingCallback, Today)]
            && o3.store.callbacks == []
  {
  }

  /** Of three archived records due in 0, 15 and 30 days, the sweep
      reactivates only the middle one. */
  lemma SweepExample()
    ensures var a := Patient(Archived, false, None, Some(Today), "");
            var b := Patient(Archived, false, None, Some(Today + 15), "");
            var c := Patient(Archived, false, None, Some(Today + 30), "");
            var ps := map["a" := a, "b" := b, "c" := c];
            var r := Awakener.SweepAll(ps, Today);
            && Awakener.Selected(ps, Today) == {"b"}
            && r["a"] == a && r["c"] == c
            && r["b"].status == ToContact && r["b"].nextPermission == None
  {
  }
}
