/**
 * The Bill schema of models/Bill.js: the record a bill document holds, the
 * status enumeration, the defaults the schema fills in, the trim setter on
 * the title, and the validation a document passes before it is saved.
 * Mongoose timestamps (createdAt, updatedAt) are not part of this model.
 */
module BillSchema {
  import opened Wrappers
  import opened Text
  import opened Calendar

  /** Identifiers of users and bills (ObjectIds in the database). */
  type UserId = nat
  type BillId = nat

  /** statusEnum. */
  datatype Status = Incomplete | Pending | Completed
  {
    /** The string the database stores for the status. */
    function Name(): string {
      match this
      case Incomplete => "incomplete"
      case Pending => "pending"
      case Completed => "completed"
    }
  }

  /** The enum as the list of its names, in the order the schema declares them. */
  const StatusNames: seq<string> := ["incomplete", "pending", "completed"]

  /** `statusEnum.includes(s)` together with the status it names. */
  function ParseStatus(s: string): (r: Option<Status>)
    ensures r.Some? <==> s in StatusNames
    ensures r.Some? ==> r.value.Name() == s
  {
    if s == "incomplete" then Some(Incomplete)
    else if s == "pending" then Some(Pending)
    else if s == "completed" then Some(Completed)
    else None
  }

  /** Every status is one of exactly the three names, and reads back as itself. */
  lemma StatusNameRoundTrip(st: Status)
    ensures st.Name() in StatusNames
    ensures ParseStatus(st.Name()) == Some(st)
  {
  }

  /** A bill document. `amount` and `notes` are optional; the rest is required. */
  datatype Bill = Bill(
    id: BillId,
    userId: UserId,
    title: string,
    dueDate: Date,
    status: Status,
    amount: Option<int>,
    notes: Option<string>,
    recurring: bool)

  const DefaultStatus: Status := Incomplete
  const DefaultRecurring: bool := false

  /**
   * `new Bill({...})`: builds a document from the given fields. The title
   * goes through the schema's trim setter; a status or recurring flag that
   * is not supplied takes the schema default.
   */
  function NewDocument(id: BillId, userId: UserId, title: string, dueDate: Date,
                       status: Option<Status>, amount: Option<int>,
                       notes: Option<string>, recurring: Option<bool>): (b: Bill)
    ensures b.id == id && b.userId == userId && b.dueDate == dueDate
    ensures b.title == Trim(title)
    ensures b.status == if status.Some? then status.value else DefaultStatus
    ensures b.recurring == if recurring.Some? then recurring.value else DefaultRecurring
    ensures b.amount == amount && b.notes == notes
  {
    Bill(id, userId, Trim(title),  dueDate,
         match status case Some(s) => s case None => DefaultStatus,
         amount, notes,
         match recurring case Some(r) => r case None => DefaultRecurring)
  }

  /** Status defaults to incomplete and recurring to false. */
  lemma SchemaDefaults(id: BillId, userId: UserId, title: string, dueDate: Date,
                       amount: Option<int>, notes: Option<string>)
    ensures NewDocument(id, userId, title, dueDate, None, amount, notes, None).status == Incomplete
    ensures !NewDocument(id, userId, title, dueDate, None, amount, notes, None).recurring
  {
  }

  /** The validation save() runs: the required title must not be empty, and
      it is stored trimmed, as the trim setter leaves it. */
  predicate SchemaValid(b: Bill) {
    b.title != [] && IsTrimmed(b.title)
  }

  /** A document built from a title that is not blank passes validation. */
  lemma NewDocumentValid(id: BillId, userId: UserId, title: string, dueDate: Date,
                         status: Option<Status>, amount: Option<int>,
                         notes: Option<string>, recurring: Option<bool>)
    requires !IsBlank(title)
    ensures SchemaValid(NewDocument(id, userId, title, dueDate, status, amount, notes, recurring))
  {
  }
}
