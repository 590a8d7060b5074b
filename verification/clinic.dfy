/** The shared vocabulary of the clinic workflow: the patient table, the
    callback-list table, the requests the three handlers receive and the
    responses they return.

    The hosted tables are modelled as one immutable `Store` value; every
    handler is a function from a store (plus the current day and the store's
    failure behaviour) to a new store and a response.
 */
module Clinic {

  datatype Option<+T> = None | Some(value: T)

  /** A calendar day, counted in whole days (day 0 is 1970-01-01). */
  type Day = int

  /** The opaque identifier of a row of the patient table. */
  type RecordId = string

  /** Two years: the eligibility window written into the next-permission
      date by both archival rules. */
  const ArchiveWindowDays: int := 730

  /** How far ahead the daily sweep looks for records to reactivate. */
  const AwakenHorizonDays: int := 30

  /** The workflow states the handlers distinguish. The table stores them as
      emoji-prefixed Polish labels; `Other` stands for every label the
      handlers do not name, and for an empty Status field. */
  datatype Status =
    | Registered           // "✅ Zarejestrowana"
    | RegisteredElsewhere  // "🏢 Zapisana gdzie indziej"
    | Resigned             // "❌ Zrezygnowała"
    | PendingCallback      // "⏳ Oddzwonić później"
    | NotAnswering         // "📵 Nie odbiera"
    | ToContact            // "📞 Do kontaktu"
    | Archived             // "🗄️ Archiwalna"
    | ArchivedResignation  // "🗄️ Archiwum - Rezygnacja"
    | Other

  /** The fields of a patient row that the handlers read or write. An absent
      Notatki field reads as the empty string. */
  datatype Patient = Patient(
    status: Status,
    simpVerified: bool,
    keyActionDate: Option<Day>,
    nextPermission: Option<Day>,
    notes: string
  )

  /** A row of the callback list: the linked patient, the status the patient
      had when the row was created, and the creation day. */
  datatype Entry = Entry(patient: RecordId, statusAtAddition: Status, dateAdded: Day)

  /** The patient table keyed by record id, and the callback list in table
      order (the order in which a filtered query returns its rows). */
  datatype Store = Store(patients: map<RecordId, Patient>, callbacks: seq<Entry>)

  /** What the handlers keep of a webhook request: whether its JSON body
      carried a `record_id`, and which. */
  datatype Request = Request(recordId: Option<RecordId>)

  /** How the external store misbehaves during one invocation: every read
      (get or filtered query) fails, and/or the writes that concern the listed
      patient records fail. A failed write changes nothing. */
  datatype Faults = Faults(readFails: bool, failedWrites: set<RecordId>)

  const NoFaults: Faults := Faults(false, {})

  /** The handlers' responses. */
  datatype Response =
    | Ok               // 200 "OK"
    | MissingRecordId  // 400, no record_id in the request
    | MissingKeyDate   // 400, archival needs the key-action date
    | ServerError      // 500, any store failure
    | NoneToAwaken     // 200, the sweep found nothing to do
    | Awakened(count: nat)  // 200, the sweep reactivated `count` records
  {
    function Code(): int {
      match this
      case Ok | NoneToAwaken | Awakened(_) => 200
      case MissingRecordId | MissingKeyDate => 400
      case ServerError => 500
    }

    function Body(): string {
      match this
      case Ok => "OK"
      case MissingRecordId => "Brak ID rekordu w zapytaniu."
      case MissingKeyDate => "Brak daty kluczowej akcji."
      case ServerError => "Błąd serwera"
      case NoneToAwaken => "OK - Brak pacjentek"
      case Awakened(n) => "Wybudzono " + NatText(n) + " pacjentek."
    }
  }

  datatype Outcome = Outcome(store: Store, response: Response)

  /** The request names a record, the store can be read, the record exists and
      writes to it succeed: the situation in which a handler's rules apply. */
  predicate Ready(s: Store, req: Request, faults: Faults) {
    && req.recordId.Some?
    && !faults.readFails
    && req.recordId.value in s.patients
    && req.recordId.value !in faults.failedWrites
  }

  /** The consistency the archival and reactivation transitions maintain: a
      record carries a next-permission date exactly when it is Archived. */
  predicate WellFormed(p: Patient) {
    p.nextPermission.Some? <==> p.status == Archived
  }

  predicate AllWellFormed(ps: map<RecordId, Patient>) {
    forall id :: id in ps ==> WellFormed(ps[id])
  }

  // ---------------------------------------------------------------- notes

  function Digit(n: nat): char
    requires n < 10
  {
    "0123456789"[n]
  }

  /** Decimal rendering of a natural number. */
  function NatText(n: nat): (r: string)
    ensures |r| > 0
    decreases n
  {
    if n < 10 then [Digit(n)] else NatText(n / 10) + [Digit(n % 10)]
  }

  /** The date stamp written into a note (the day number in decimal; the
      calendar rendering is not modelled). */
  function DayText(d: Day): string {
    if d < 0 then "-" + NatText(-d) else NatText(d)
  }

  /** One system line of the notes log: a line break, the author and day,
      then the message. */
  function NoteLine(today: Day, msg: string): (line: string)
    ensures |line| > |msg|
    ensures line[0] == '\n'
    ensures line[|line| - |msg|..] == msg
  {
    "\nSystem (" + DayText(today) + "): " + msg
  }

  /** Appends a system line to a notes log. The old log is kept verbatim as a
      strict prefix and the added text is exactly one system line. */
  function AppendNote(notes: string, today: Day, msg: string): (r: string)
    ensures notes < r
    ensures r[|notes|..] == NoteLine(today, msg)
  {
    notes + NoteLine(today, msg)
  }
}
