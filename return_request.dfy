/** The helpers of the librarian's return-request table: `frontend/src/pages/librarian/ReturnRequest.jsx`. */
module ReturnRequestView {
  import opened Common
  import opened BorrowSchema

  /** The fine per started day overdue, in rupees. */
  const FinePerDay: int := 5
  /** The largest distance from the epoch a JavaScript `Date` can hold, in milliseconds. */
  const MaxDateMs: int := 8_640_000_000_000_000

  /** A date field as the page receives it: absent or falsy, text that `new Date` cannot parse, or a time. */
  datatype DateField = Missing | Unparseable | At(ms: int)

  /** A stored date as it reaches the page: `null` is falsy. */
  function FieldOf(d: Option<Time>): (f: DateField)
    ensures d.None? <==> f.Missing?
    ensures d.Some? ==> f == At(d.value)
  {
    if d.None? then Missing else At(d.value)
  }

  /** `new Date(x)` yields a valid time: a parsed time within the range a `Date` can hold. */
  predicate ValidDate(f: DateField) {
    f.At? && -MaxDateMs <= f.ms <= MaxDateMs
  }

  /** A table cell holding a date: "N/A", or the day of a valid time (its locale format is not modelled). */
  datatype DateCell = NotAvailable | LocalDate(ms: int)

  /** `safeDate`: "N/A" for a missing, unparseable or out-of-range date, the date itself otherwise. */
  function SafeDate(f: DateField): (c: DateCell)
    ensures c == NotAvailable <==> !ValidDate(f)
    ensures c.LocalDate? ==> f == At(c.ms)
  {
    match f
    case Missing => NotAvailable
    case Unparseable => NotAvailable
    case At(ms) => if -MaxDateMs <= ms <= MaxDateMs then LocalDate(ms) else NotAvailable
  }

  /** `Math.ceil(d / oneDay)` for a positive span: the number of days begun. */
  function DaysBegun(d: int): (days: int)
    requires d > 0
    ensures days >= 1
    ensures (days - 1) * DayMs < d <= days * DayMs
  {
    (d + DayMs - 1) / DayMs
  }

  /** What the Fine column shows: a whole number of rupees, or `NaN` for a due date that did not parse. */
  datatype Fine = Amount(rupees: int) | NotANumber

  /**
   * `calcFine`: nothing without a due date or while today is not after it;
   * otherwise 5 for every day begun since. A due date that does not make a valid
   * `Date` fails every comparison, so the arithmetic runs on `NaN`.
   */
  function CalcFine(due: DateField, today: Time): (fine: Fine)
    ensures due.Missing? ==> fine == Amount(0)
    ensures fine.NotANumber? <==> !due.Missing? && !ValidDate(due)
    ensures ValidDate(due) && today <= due.ms ==> fine == Amount(0)
    ensures ValidDate(due) && today > due.ms ==>
      fine.Amount? && fine.rupees > 0 && fine.rupees % FinePerDay == 0 &&
      (fine.rupees / FinePerDay - 1) * DayMs < today - due.ms <= (fine.rupees / FinePerDay) * DayMs
  {
    match due
    case Missing => Amount(0)
    case Unparseable => NotANumber
    case At(ms) =>
      if !ValidDate(due) then NotANumber
      else if today <= ms then Amount(0)
      else Amount(DaysBegun(today - ms) * FinePerDay)
  }

  /** One millisecond late already costs a full day's fine. */
  lemma OneMillisecondLate(due: Time)
    requires -MaxDateMs <= due <= MaxDateMs
    ensures CalcFine(At(due), due + 1) == Amount(FinePerDay)
  {
  }

  /** Exactly five days late costs 25; one millisecond more begins a sixth day. */
  lemma FiveDaysLate(due: Time)
    requires -MaxDateMs <= due <= MaxDateMs
    ensures CalcFine(At(due), due + 5 * DayMs) == Amount(25)
    ensures CalcFine(At(due), due + 5 * DayMs + 1) == Amount(30)
  {
    var f1 := CalcFine(At(due), due + 5 * DayMs);
    var f2 := CalcFine(At(due), due + 5 * DayMs + 1);
    assert f1.rupees / FinePerDay == 5;
    assert f2.rupees / FinePerDay == 6;
  }

  /** For a fixed due date the fine never goes down as the days pass. */
  lemma FineMonotonic(due: DateField, today1: Time, today2: Time)
    requires ValidDate(due) && today1 <= today2
    ensures CalcFine(due, today1).rupees <= CalcFine(due, today2).rupees
  {
    if today1 > due.ms {
      var d1 := DaysBegun(today1 - due.ms);
      var d2 := DaysBegun(today2 - due.ms);
      assert d1 <= d2;
    }
  }

  /** The colour of the status badge. */
  datatype BadgeStyle = Warning | Success | Secondary

  datatype Badge = Badge(style: BadgeStyle, caption: string)

  /** `badge`: yellow for a pending return, green once returned, grey otherwise; the caption is the status text. */
  function StatusBadge(status: string): (b: Badge)
    ensures b.caption == status
    ensures b.style == Warning <==> status == "Requested Return"
    ensures b.style == Success <==> status == "Returned"
  {
    if status == "Requested Return" then Badge(Warning, status)
    else if status == "Returned" then Badge(Success, status)
    else Badge(Secondary, status)
  }

  /** One table row: the issue and due dates, the fine, the badge and whether Approve/Reject are offered. */
  datatype Row = Row(issued: DateCell, due: DateCell, fine: Fine, badge: Badge, actions: bool)

  /** A ledger record as the table shows it on day `today`. */
  function RowOf(r: BorrowRecord, today: Time): (row: Row)
    ensures row.actions <==> r.status == RequestedReturn
    ensures row.badge.style == Warning <==> row.actions
    ensures r.dueDate.None? ==> row.due == NotAvailable && row.fine == Amount(0)
    ensures row.fine.NotANumber? <==> r.dueDate.Some? && row.due == NotAvailable
  {
    var name := StatusName(r.status);
    Row(SafeDate(FieldOf(r.issueDate)), SafeDate(FieldOf(r.dueDate)), CalcFine(FieldOf(r.dueDate), today),
        StatusBadge(name), name == "Requested Return")
  }
}
