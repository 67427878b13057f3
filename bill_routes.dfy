/**
 * routes/bills.js: the bill handlers over an in-memory bill table. Every
 * handler receives the caller's user id (what requireAuth puts on the
 * request) and only ever sees the caller's own bills.
 */
module BillRoutes {
  import opened Wrappers
  import opened Text
  import opened Calendar
  import opened JsDates
  import opened BillSchema
  import Sorting

  /** A field of a request body: absent (undefined), null, or a value. */
  datatype Field<T> = Absent | Null | Given(value: T)

  /**
   * The body of a create or patch request. Values arrive already converted:
   * `dueDate` as the Date that `new Date(dueDate)` yields, `amount` as the
   * number `Number(amount)` yields, `recurring` as `Boolean(recurring)`.
   */
  datatype BillInput = BillInput(
    title: Field<string>,
    dueDate: Field<Date>,
    status: Field<string>,
    amount: Field<int>,
    notes: Field<string>,
    recurring: Field<bool>)

  datatype BillError = TitleRequired | NotFound | ServerError

  /** The status code each handler answers an error with. */
  function HttpStatus(e: BillError): int {
    match e
    case TitleRequired => 400
    case NotFound => 404
    case ServerError => 500
  }

  /** `new Date(null)`: time value 0. */
  const Epoch: Date := DateTime(1970, 0, 1, 0)

  lemma EpochIsTimeZero()
    ensures Epoch.TimeValue() == 0
  {
  }

  // ---------------------------------------------------------------------
  // The list query: filter and sort order
  // ---------------------------------------------------------------------

  /** An inclusive range of due dates. */
  datatype Window = Window(start: Date, end: Date)

  /** The query `Bill.find(filter)` runs. */
  datatype BillFilter = BillFilter(userId: UserId, status: Option<Status>, due: Option<Window>)

  predicate InWindow(w: Window, d: Date) {
    w.start.TimeValue() <= d.TimeValue() <= w.end.TimeValue()
  }

  predicate Matches(f: BillFilter, b: Bill) {
    && b.userId == f.userId
    && (f.status.Some? ==> b.status == f.status.value)
    && (f.due.Some? ==> InWindow(f.due.value, b.dueDate))
  }

  /** The status part of the filter: only a non-empty status that is one of
      the three names narrows the query; anything else is ignored. */
  function StatusFilter(status: Option<string>): (r: Option<Status>)
    ensures r.Some? <==> status.Some? && status.value in StatusNames
    ensures r.Some? ==> r.value.Name() == status.value
  {
    if status.Some? && status.value != "" then ParseStatus(status.value) else None
  }

  /** `month.split("-").map(Number)`, first two items: the year and month
      numbers, or None when either is NaN (a missing month is undefined, NaN). */
  function MonthArgs(month: string): Option<(int, int)> {
    var parts := Split(month, '-');
    var y := StringToNumber(parts[0]);
    var m := if |parts| > 1 then StringToNumber(parts[1]) else None;
    if y.Some? && m.Some? then Some((y.value, m.value)) else None
  }

  /**
   * The window for year `y` and month number `m` (1 = January): from
   * `new Date(y, m - 1, 1)` to the last instant of that month. The Date
   * constructor reads years 0..99 as 1900..1999 and carries months outside
   * 1..12 into neighbouring years.
   */
  function MonthWindow(y: int, m: int): (w: Window)
    ensures w.start.Day() == MakeDay(FullYear(y), m - 1, 1) && w.start.time == 0
    ensures w.end == LastInstant(w.start.year, w.start.month)
  {
    var year := FullYear(y) + (m - 1) / 12;
    var month := (m - 1) % 12;
    Window(DateTime(year, month, 1, 0), LastInstant(year, month))
  }

  /** The month part of the filter: an empty or absent month, or one whose
      year or month is NaN, adds no condition. */
  function MonthFilter(month: Option<string>): Option<Window> {
    if month.None? || month.value == "" then None
    else match MonthArgs(month.value)
      case Some((y, m)) => Some(MonthWindow(y, m))
      case None => None
  }

  /** The filter the list handler builds from the query string. */
  function ListFilter(caller: UserId, month: Option<string>, status: Option<string>): BillFilter {
    BillFilter(caller, StatusFilter(status), MonthFilter(month))
  }

  /** A due date lies in a month window, both ends included, exactly when it
      falls on a day of that calendar month. */
  lemma MonthWindowIsCalendarMonth(y: int, m: int, d: Date)
    ensures var w := MonthWindow(y, m);
            InWindow(w, d) <==> d.year == w.start.year && d.month == w.start.month
  {
    var w := MonthWindow(y, m);
    WithinMonthIff(d, w.start.year, w.start.month);
  }

  /** For a month number 1..12 and a year outside 0..99, the window runs from
      day 1 at 00:00:00.000 to the month's last day at 23:59:59.999. */
  lemma MonthWindowOfOrdinaryMonth(y: int, m: int)
    requires 1 <= m <= 12 && !(0 <= y <= 99)
    ensures MonthWindow(y, m).start == DateTime(y, m - 1, 1, 0)
    ensures MonthWindow(y, m).end == DateTime(y, m - 1, DaysInMonth(y, m - 1), MakeTime(23, 59, 59, 999))
  {
  }

  /** The window of February ends on the 29th in leap years and on the 28th
      otherwise. */
  lemma FebruaryWindowEnds(y: int)
    requires !(0 <= y <= 99)
    ensures MonthWindow(y, 2).end.date == if IsLeapYear(y) then 29 else 28
  {
  }

  /** "24-3" is March 1924; "2024-13" is January 2025; "2024-0" is December 2023. */
  lemma MonthWindowNormalisation()
    ensures MonthWindow(24, 3).start == DateTime(1924, 2, 1, 0)
    ensures MonthWindow(2024, 13).start == DateTime(2025, 0, 1, 0)
    ensures MonthWindow(2024, 0).start == DateTime(2023, 11, 1, 0)
  {
  }

  /** A month with exactly one dash reads its year from the part before the
      dash and its month from the part after; either one NaN gives no window. */
  lemma MonthArgsOfParts(a: string, b: string)
    requires '-' !in a && '-' !in b
    ensures MonthArgs(a + "-" + b) ==
              if StringToNumber(a).Some? && StringToNumber(b).Some?
              then Some((StringToNumber(a).value, StringToNumber(b).value))
              else None
  {
    assert Split(a + "-" + b, '-') == [a, b] by {
      assert a + "-" + b == a + ['-'] + b;
      SplitAtSeparator(a, b, '-');
      SplitWithoutSeparator(b, '-');
    }
  }

  /** A month value without a dash (such as "2024") has a NaN month and adds
      no condition. */
  lemma MonthWithoutDash(s: string)
    requires '-' !in s
    ensures MonthFilter(Some(s)) == None
  {
    SplitWithoutSeparator(s, '-');
  }

  /** A month part that is not a number, as in "abc-03", is NaN, and the
      month adds no condition. */
  lemma MonthWithNonNumber()
    ensures StringToNumber("abc").None?
    ensures MonthFilter(Some("abc-03")) == None
  {
    TrimmedIsFixed("abc");
    assert !AllDigits("abc") by { assert !IsDigit("abc"[0]); }
    assert '-' !in "abc" && '-' !in "03";
    assert "abc-03" == "abc" + "-" + "03";
    MonthArgsOfParts("abc", "03");
  }

  /** A month written as digits, a dash and digits ("2024-03") filters on
      that year and month number. */
  lemma MonthFilterOfDigits(a: string, b: string)
    requires a != [] && AllDigits(a) && b != [] && AllDigits(b)
    ensures MonthFilter(Some(a + "-" + b)) == Some(MonthWindow(DigitsValue(a), DigitsValue(b)))
  {
    assert '-' !in a;
    assert '-' !in b;
    MonthArgsOfParts(a, b);
    DigitsAreTrimmed(a);
    DigitsAreTrimmed(b);
  }

  /**
   * The window for year `y` and month number `m`, as the list handler builds
   * it from Date objects (lines 33-34). The start is always day 1, which
   * every month has, so endOfMonth, as written, ends the start's own month.
   */
  method BuildWindow(y: int, m: int) returns (w: Window)
    ensures w == MonthWindow(y, m)
  {
    var start := new LocalDate.FromParts(y, m - 1, 1);
    DayNumberInjective(start.Value(), MonthWindow(y, m).start);
    var end := EndOfMonth(start);
    w := Window(start.Value(), end.Value());
  }

  /** Builds the filter of the list handler (lines 26-36). */
  method BuildFilter(caller: UserId, month: Option<string>, status: Option<string>) returns (f: BillFilter)
    ensures f == ListFilter(caller, month, status)
  {
    f := BillFilter(caller, None, None);
    if status.Some? && status.value != "" && status.value in StatusNames {
      f := f.(status := ParseStatus(status.value));
    }
    if month.Some? && month.value != "" {
      var args := MonthArgs(month.value);
      if args.Some? {
        var w := BuildWindow(args.value.0, args.value.1);
        f := f.(due := Some(w));
      }
    }
  }

  /** The position of a status in the order of its name: completed, then
      incomplete, then pending (not the order the schema declares). */
  function NameRank(st: Status): nat {
    match st
    case Completed => 0
    case Incomplete => 1
    case Pending => 2
  }

  /** Ranks order statuses as the database orders their names. */
  lemma StatusNameOrder(a: Status, b: Status)
    ensures LexLess(a.Name(), b.Name()) <==> NameRank(a) < NameRank(b)
  {
    if a == b {
      LexLessIrreflexive(a.Name());
    }
  }

  /** `.sort({ dueDate: 1, status: 1 })`: `a` may come before `b` when its due
      date is earlier, or the same and its status ranks no higher. */
  predicate SortsBefore(a: Bill, b: Bill) {
    || a.dueDate.TimeValue() < b.dueDate.TimeValue()
    || (a.dueDate.TimeValue() == b.dueDate.TimeValue() && NameRank(a.status) <= NameRank(b.status))
  }

  /** SortsBefore is the database's comparison: due date first, then the
      status name in binary string order. */
  lemma SortsBeforeComparesNames(a: Bill, b: Bill)
    ensures SortsBefore(a, b) <==>
              || a.dueDate.TimeValue() < b.dueDate.TimeValue()
              || (a.dueDate.TimeValue() == b.dueDate.TimeValue() && !LexLess(b.status.Name(), a.status.Name()))
  {
    StatusNameOrder(b.status, a.status);
  }

  /** Bills compare by due date and then status: a total preorder. */
  lemma SortsBeforeIsTotalPreorder()
    ensures Sorting.TotalPreorder(SortsBefore)
  {
  }

  /** In the order the list handler returns. */
  predicate Sorted(s: seq<Bill>) {
    Sorting.Sorted(s, SortsBefore)
  }

  function IdOf(b: Bill): BillId {
    b.id
  }

  predicate DistinctIds(s: seq<Bill>) {
    Sorting.DistinctKeys(s, IdOf)
  }

  // ---------------------------------------------------------------------
  // Create and patch: the documents the handlers build
  // ---------------------------------------------------------------------

  /** The notes a request stores: `notes?.trim() || undefined`. */
  function NotesValue(notes: Field<string>): (r: Option<string>)
    ensures r.Some? <==> notes.Given? && !IsBlank(notes.value)
    ensures r.Some? ==> r.value == Trim(notes.value)
    ensures r.Some? ==> r.value != [] && IsTrimmed(r.value)
  {
    if notes.Given? && !IsBlank(notes.value) then Some(Trim(notes.value)) else None
  }

  /** What the table keeps of every bill: a valid document whose notes, when
      set, are trimmed and not empty. */
  predicate WellFormed(b: Bill) {
    SchemaValid(b) && (b.notes.Some? ==> b.notes.value != [] && IsTrimmed(b.notes.value))
  }

  /** The title check of the create handler: `!title?.trim()`. */
  predicate TitleMissing(input: BillInput) {
    !input.title.Given? || IsBlank(input.title.value)
  }

  /**
   * The document the create handler saves (lines 49-58), with id `id` and
   * owner `caller`, at time `now`.
   */
  function NewBill(id: BillId, caller: UserId, input: BillInput, now: Date): (b: Bill)
    requires !TitleMissing(input)
    ensures WellFormed(b)
    ensures b.id == id && b.userId == caller && b.title == Trim(input.title.value)
    ensures b.dueDate == if input.dueDate.Given? then input.dueDate.value else now
    ensures input.status.Given? && input.status.value in StatusNames ==> b.status.Name() == input.status.value
    ensures !(input.status.Given? && input.status.value in StatusNames) ==> b.status == Incomplete
    ensures b.amount == if input.amount.Given? then Some(input.amount.value) else None
    ensures b.notes == NotesValue(input.notes)
    ensures b.recurring == (input.recurring.Given? && input.recurring.value)
  {
    var title := input.title.value;
    var due := if input.dueDate.Given? then input.dueDate.value else now;
    var status := if input.status.Given? then ParseStatus(input.status.value) else None;
    var amount := if input.amount.Given? then Some(input.amount.value) else None;
    var recurring := input.recurring.Given? && input.recurring.value;
    NewDocumentValid(id, caller, Trim(title), due, (if status.Some? then Some(status.value) else Some(Incomplete)), amount, NotesValue(input.notes), Some(recurring));
    TrimIdempotent(title);
    NewDocument(id, caller, Trim(title), due, (if status.Some? then Some(status.value) else Some(Incomplete)), amount, NotesValue(input.notes), Some(recurring))
  }

  /** The title the patch handler assigns: fails for null (`null.trim()`
      throws) and for a blank title (the required validator rejects ""). */
  predicate PatchTitleFails(input: BillInput) {
    input.title.Null? || (input.title.Given? && IsBlank(input.title.value))
  }

  /**
   * The fields of bill `b` after the patch assignments of lines 81-86: a field
   * that is absent stays as it was; a status that is not one of the three
   * names is ignored; null clears amount and notes, sets recurring to false
   * and the due date to the epoch. The id and the owner never change.
   */
  function Patched(b: Bill, input: BillInput): (r: Bill)
    requires !input.title.Null?
    ensures r.id == b.id && r.userId == b.userId
    ensures input.title.Absent? ==> r.title == b.title
    ensures input.dueDate.Absent? ==> r.dueDate == b.dueDate
    ensures !(input.status.Given? && input.status.value in StatusNames) ==> r.status == b.status
    ensures input.amount.Absent? ==> r.amount == b.amount
    ensures input.notes.Absent? ==> r.notes == b.notes
    ensures input.recurring.Absent? ==> r.recurring == b.recurring
    ensures input.title.Given? ==> r.title == Trim(input.title.value)
    ensures input.dueDate.Null? ==> r.dueDate == Epoch
    ensures input.dueDate.Given? ==> r.dueDate == input.dueDate.value
    ensures input.status.Given? && input.status.value in StatusNames ==> r.status.Name() == input.status.value
    ensures input.amount.Null? ==> r.amount.None?
    ensures input.amount.Given? ==> r.amount == Some(input.amount.value)
    ensures !input.notes.Absent? ==> r.notes == NotesValue(input.notes)
    ensures input.recurring.Null? ==> !r.recurring
    ensures input.recurring.Given? ==> r.recurring == input.recurring.value
  {
    Bill(
      b.id,
      b.userId,
      if input.title.Given? then Trim(input.title.value) else b.title,
      match input.dueDate case Absent => b.dueDate case Null => Epoch case Given(d) => d,
      if input.status.Given? && input.status.value in StatusNames then ParseStatus(input.status.value).value else b.status,
      match input.amount case Absent => b.amount case Null => None case Given(n) => Some(n),
      if input.notes.Absent? then b.notes else NotesValue(input.notes),
      match input.recurring case Absent => b.recurring case Null => false case Given(v) => v)
  }

  /** A patch whose title is not blank keeps a bill well formed. */
  lemma PatchedWellFormed(b: Bill, input: BillInput)
    requires WellFormed(b) && !PatchTitleFails(input)
    ensures WellFormed(Patched(b, input))
  {
    if input.title.Given? {
      TrimIdempotent(input.title.value);
    }
  }

  /** The assignments of lines 81-86, one field after the other. */
  method AssignFields(b: Bill, input: BillInput) returns (bill: Bill)
    requires !input.title.Null?
    ensures bill == Patched(b, input)
  {
    ghost var p := Patched(b, input);
    bill := b;
    match input.title {
      case Absent =>
      case Given(t) => bill := bill.(title := Trim(t));
    }
    assert bill == b.(title := p.title);
    match input.dueDate {
      case Absent =>
      case Null => bill := bill.(dueDate := Epoch);
      case Given(d) => bill := bill.(dueDate := d);
    }
    assert bill == b.(title := p.title, dueDate := p.dueDate);
    if input.status.Given? && input.status.value in StatusNames {
      bill := bill.(status := ParseStatus(input.status.value).value);
    }
    assert bill == b.(title := p.title, dueDate := p.dueDate, status := p.status);
    match input.amount {
      case Absent =>
      case Null => bill := bill.(amount := None);
      case Given(n) => bill := bill.(amount := Some(n));
    }
    assert bill == p.(notes := b.notes, recurring := b.recurring);
    if !input.notes.Absent? {
      bill := bill.(notes := NotesValue(input.notes));
    }
    assert bill == p.(recurring := b.recurring);
    match input.recurring {
      case Absent =>
      case Null => bill := bill.(recurring := false);
      case Given(v) => bill := bill.(recurring := v);
    }
  }

  /** A request with no fields. */
  const EmptyInput: BillInput := BillInput(Absent, Absent, Absent, Absent, Absent, Absent)

  /** A patch without fields changes nothing. */
  lemma EmptyPatchChangesNothing(b: Bill)
    ensures Patched(b, EmptyInput) == b
  {
  }

  /** Applying the same patch twice is applying it once. */
  lemma PatchIdempotent(b: Bill, input: BillInput)
    requires !input.title.Null?
    ensures Patched(Patched(b, input), input) == Patched(b, input)
  {
  }

  // ---------------------------------------------------------------------
  // The bill table
  // ---------------------------------------------------------------------

  /** `{ _id: id, userId: caller }` finds a bill: it exists and is the caller's. */
  predicate Owns(bills: map<BillId, Bill>, caller: UserId, id: BillId) {
    id in bills && bills[id].userId == caller
  }

  /** In a table that files every bill under its own id, a bill is stored
      exactly when its id maps to it. */
  lemma ValuesById(bills: map<BillId, Bill>)
    requires forall id :: id in bills ==> bills[id].id == id
    ensures forall b :: b in bills.Values <==> b.id in bills && bills[b.id] == b
  {
    forall b | b in bills.Values ensures b.id in bills && bills[b.id] == b {
      var id :| id in bills && bills[id] == b;
    }
  }

  /** `Bill.find(f).sort(...)`: every bill of the table that matches, once,
      in sort order. */
  method Find(bills: map<BillId, Bill>, f: BillFilter) returns (r: seq<Bill>)
    requires forall id :: id in bills ==> bills[id].id == id
    ensures Sorted(r) && DistinctIds(r)
    ensures forall b :: b in r <==> b in bills.Values && Matches(f, b)
  {
    r := [];
    var remaining := bills.Keys;
    while remaining != {}
      invariant remaining <= bills.Keys
      invariant Sorted(r) && DistinctIds(r)
      invariant forall b :: b in r <==> b.id in bills && b.id !in remaining && bills[b.id] == b && Matches(f, b)
      decreases remaining
    {
      var k :| k in remaining;
      if Matches(f, bills[k]) {
        assert forall x :: x in r ==> IdOf(x) != IdOf(bills[k]);
        SortsBeforeIsTotalPreorder();
        Sorting.InsertKeepsKeysDistinct(r, bills[k], SortsBefore, IdOf);
        Sorting.InsertMembers(r, bills[k], SortsBefore);
        r := Sorting.Insert(r, bills[k], SortsBefore);
      }
      remaining := remaining - {k};
    }
    ValuesById(bills);
  }

  class BillStore {
    var bills: map<BillId, Bill>
    var nextId: BillId

    /** Every bill is filed under its own id, below the next fresh id, and well formed. */
    ghost predicate Valid()
      reads this
    {
      forall id :: id in bills ==> bills[id].id == id && id < nextId && WellFormed(bills[id])
    }

    constructor ()
      ensures Valid() && bills == map[]
    {
      bills, nextId := map[], 0;
    }

    /** `bill.save()`: validates the document, then writes it under its id. */
    method Save(b: Bill) returns (ok: bool)
      requires Valid() && b.id < nextId
      requires b.notes.Some? ==> b.notes.value != [] && IsTrimmed(b.notes.value)
      modifies this
      ensures Valid() && nextId == old(nextId)
      ensures ok == SchemaValid(b)
      ensures bills == if ok then old(bills)[b.id := b] else old(bills)
    {
      ok := SchemaValid(b);
      if ok {
        bills := bills[b.id := b];
      }
    }

    /** GET /: the caller's bills that pass the status and month filters,
        each once, sorted by due date and then status name. */
    method List(caller: UserId, month: Option<string>, status: Option<string>) returns (r: seq<Bill>)
      requires Valid()
      ensures Sorted(r) && DistinctIds(r)
      ensures forall b :: b in r <==> b in bills.Values && Matches(ListFilter(caller, month, status), b)
    {
      var f := BuildFilter(caller, month, status);
      r := Find(bills, f);
    }

    /** POST /: a blank or missing title is refused; otherwise exactly one new
        bill, NewBill, is added under a fresh id. */
    method Create(caller: UserId, input: BillInput, now: Date) returns (r: Result<Bill, BillError>)
      requires Valid()
      modifies this
      ensures Valid()
      ensures r.Err? <==> TitleMissing(input)
      ensures r.Err? ==> r.error == TitleRequired && HttpStatus(r.error) == 400 && bills == old(bills)
      ensures r.Ok? ==> (&& old(nextId) !in old(bills)
                         && r.value == NewBill(old(nextId), caller, input, now)
                         && bills == old(bills)[old(nextId) := r.value])
    {
      if TitleMissing(input) {
        return Err(TitleRequired);
      }
      var bill := NewBill(nextId, caller, input, now);
      nextId := nextId + 1;
      var ok := Save(bill);
      if !ok {
        return Err(ServerError);
      }
      return Ok(bill);
    }

    /** GET /:id: the bill when it is the caller's; otherwise not found, the
        same answer whether the id is unknown or another user's. */
    method Get(caller: UserId, id: BillId) returns (r: Result<Bill, BillError>)
      requires Valid()
      ensures r.Ok? <==> Owns(bills, caller, id)
      ensures r.Ok? ==> r.value == bills[id] && r.value.userId == caller
      ensures r.Err? ==> r.error == NotFound && HttpStatus(r.error) == 404
    {
      if id in bills && bills[id].userId == caller {
        return Ok(bills[id]);
      }
      return Err(NotFound);
    }

    /**
     * PATCH /:id: not found unless the bill is the caller's; a null or blank
     * title makes the handler fail before anything is written; otherwise the
     * bill becomes Patched and no other bill changes.
     */
    method Patch(caller: UserId, id: BillId, input: BillInput) returns (r: Result<Bill, BillError>)
      requires Valid()
      modifies this
      ensures Valid()
      ensures !Owns(old(bills), caller, id) ==> r == Err(NotFound) && bills == old(bills)
      ensures Owns(old(bills), caller, id) && PatchTitleFails(input) ==> r == Err(ServerError) && bills == old(bills)
      ensures Owns(old(bills), caller, id) && !PatchTitleFails(input) ==>
                (r == Ok(Patched(old(bills)[id], input)) && bills == old(bills)[id := r.value])
      ensures r.Err? ==> HttpStatus(r.error) == if Owns(old(bills), caller, id) then 500 else 404
    {
      if !(id in bills && bills[id].userId == caller) {
        return Err(NotFound);
      }
      if input.title.Null? {
        return Err(ServerError);
      }
      assert WellFormed(bills[id]);
      var bill := AssignFields(bills[id], input);
      assert bill.notes.Some? ==> bill.notes.value != [] && IsTrimmed(bill.notes.value);
      if !PatchTitleFails(input) {
        PatchedWellFormed(bills[id], input);
      }
      var ok := Save(bill);
      if !ok {
        return Err(ServerError);
      }
      return Ok(bill);
    }

    /** DELETE /:id: removes exactly the caller's bill; not found otherwise. */
    method Delete(caller: UserId, id: BillId) returns (r: Result<(), BillError>)
      requires Valid()
      modifies this
      ensures Valid()
      ensures Owns(old(bills), caller, id) ==> r == Ok(()) && bills == old(bills) - {id}
      ensures !Owns(old(bills), caller, id) ==> r == Err(NotFound) && bills == old(bills)
      ensures r.Err? ==> HttpStatus(r.error) == 404
    {
      if id in bills && bills[id].userId == caller {
        bills := bills - {id};
        return Ok(());
      }
      return Err(NotFound);
    }
  }

  /** A bill just created is found by its owner and by nobody else. */
  method CreateThenGet(store: BillStore, caller: UserId, other: UserId, input: BillInput, now: Date)
      returns (created: Result<Bill, BillError>, mine: Result<Bill, BillError>, theirs: Result<Bill, BillError>)
    requires store.Valid() && other != caller && !TitleMissing(input)
    modifies store
    ensures created.Ok? && mine == Ok(created.value) && theirs == Err(NotFound)
  {
    created := store.Create(caller, input, now);
    mine := store.Get(caller, created.value.id);
    theirs := store.Get(other, created.value.id);
  }

  /** After a delete the bill is not found, whether or not the delete found it. */
  method DeleteThenGet(store: BillStore, caller: UserId, id: BillId)
      returns (deleted: Result<(), BillError>, got: Result<Bill, BillError>)
    requires store.Valid()
    modifies store
    ensures deleted.Ok? <==> Owns(old(store.bills), caller, id)
    ensures got == Err(NotFound)
  {
    deleted := store.Delete(caller, id);
    got := store.Get(caller, id);
  }
}
