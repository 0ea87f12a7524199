/** The calendar page (src/pages/SchedulePage.jsx): the page's cached copy of
    the tables, the dialog's selection state, and the three handlers that turn
    a click on a day into writes to `shifts` and `history`. */
module Schedule {
  import opened Js
  import opened Seqs
  import opened Sorting
  import opened Db

  /** Name logged or shown when a member cannot be found. */
  const Unknown: string := "Unknown"
  /** A row of `shifts.select('*, members(*)')`: a shift with its member embedded. */
  datatype ShiftRow = ShiftRow(shift: Shift, member: Option<Member>)

  /** The page's state. `null` for the selected day or member is modelled as `""`;
      the page reads both only through truthiness, where the two agree. */
  datatype View = View(
    members: seq<Member>,
    shifts: seq<ShiftRow>,
    selectedDate: Date,
    existing: Option<ShiftRow>,
    selectedMember: Id,
    cancelReason: string,
    modalOpen: bool)

  /** A calendar event derived from one cached shift. */
  datatype Event = Event(id: Id, title: string, date: Date, color: string)

  /** `member?.name`. */
  function NameOf(m: Option<Member>): Option<string> {
    if m.Some? then Some(m.value.name) else None
  }

  /** `member?.color`. */
  function ColorOf(m: Option<Member>): Option<string> {
    if m.Some? then m.value.color else None
  }

  function ShiftsOf(rows: seq<ShiftRow>): seq<Shift> {
    seq(|rows|, i requires 0 <= i < |rows| => rows[i].shift)
  }

  /** `shifts.select('*, members(*)')`: each shift with the member it references. */
  function Join(shifts: seq<Shift>, members: seq<Member>): seq<ShiftRow> {
    seq(|shifts|, i requires 0 <= i < |shifts| => ShiftRow(shifts[i], MemberById(members, shifts[i].memberId)))
  }

  /** `fetchData`: the cached tables become a snapshot of the store, members
      ordered by name; the dialog state is untouched. The shifts query asks for
      no order, so `scan` is the store's shifts in whatever order the database
      returns them. */
  function Fetch(st: Store, v: View, scan: seq<Shift>): (r: View)
    requires multiset(scan) == multiset(st.shifts)
    ensures multiset(r.members) == multiset(st.members) && SortedBy(r.members, NameLe)
    ensures ShiftsOf(r.shifts) == scan && multiset(ShiftsOf(r.shifts)) == multiset(st.shifts)
    ensures forall i :: 0 <= i < |r.shifts| && r.shifts[i].member.Some? ==>
      r.shifts[i].member.value in st.members && r.shifts[i].shift.memberId == Some(r.shifts[i].member.value.id)
    ensures forall i :: 0 <= i < |r.shifts| && r.shifts[i].member.None? ==>
      !(r.shifts[i].shift.memberId.Some? && HasMember(st.members, r.shifts[i].shift.memberId.value))
    ensures r.(members := v.members, shifts := v.shifts) == v
  {
    var rows := Join(scan, st.members);
    assert ShiftsOf(rows) == scan;
    v.(members := MembersByName(st.members), shifts := rows)
  }

  /** `shifts.find(s => s.shift_date === day)`. */
  function ShiftOnDay(rows: seq<ShiftRow>, day: Date): Option<ShiftRow> {
    Find(rows, (row: ShiftRow) => row.shift.shiftDate == day)
  }

  /** `handleDateClick`: selects the day, remembers the first cached shift on
      it, pre-selects that shift's member, clears the reason, opens the dialog. */
  function DateClick(v: View, day: Date): (r: View)
    ensures r.members == v.members && r.shifts == v.shifts
    ensures r.selectedDate == day && r.cancelReason == "" && r.modalOpen
    ensures r.existing.None? <==> forall row :: row in v.shifts ==> row.shift.shiftDate != day
    ensures r.existing.Some? ==> exists i :: (0 <= i < |v.shifts| && v.shifts[i] == r.existing.value &&
      v.shifts[i].shift.shiftDate == day && forall j :: 0 <= j < i ==> v.shifts[j].shift.shiftDate != day)
    ensures r.existing.None? ==> r.selectedMember == ""
    ensures r.existing.Some? ==> r.selectedMember == OrElse(r.existing.value.shift.memberId, "")
  {
    var existing := ShiftOnDay(v.shifts, day);
    v.(selectedDate := day,
       existing := existing,
       selectedMember := if existing.Some? then OrElse(existing.value.shift.memberId, "") else "",
       cancelReason := "",
       modalOpen := true)
  }

  /** The dialog reflects the store: the cache holds the store's shifts, in
      some order, and the remembered shift is the one the selected day shows. */
  predicate SelectionCurrent(st: Store, v: View) {
    && multiset(ShiftsOf(v.shifts)) == multiset(st.shifts)
    && v.existing == ShiftOnDay(v.shifts, v.selectedDate)
  }

  /** Clicking a day of a freshly fetched calendar yields a current selection. */
  lemma FetchThenClickIsCurrent(st: Store, v: View, scan: seq<Shift>, day: Date)
    requires multiset(scan) == multiset(st.shifts)
    ensures SelectionCurrent(st, DateClick(Fetch(st, v, scan), day))
  {
  }

  /** The name `handleAssign` logs: the cached member's name, or "Unknown". */
  function AssigneeName(members: seq<Member>, id: Id): string {
    OrElse(NameOf(MemberById(members, Some(id))), Unknown)
  }

  /** The shift `handleAssign` inserts. */
  function NewShift(v: View, shiftId: Id): Shift {
    Shift(shiftId, Some(v.selectedMember), v.selectedDate)
  }

  /** The history row `handleAssign` inserts. */
  function AssignedEntry(st: Store, v: View, entryId: Id): Entry {
    Entry(entryId, Some(v.selectedMember), AssigneeName(v.members, v.selectedMember), v.selectedDate,
          Assigned, None, st.clock)
  }

  /** A store shift survives a transition unless it carries the remembered shift's id. */
  predicate Untouched(v: View, s: Shift) {
    v.existing.None? || s.id != v.existing.value.shift.id
  }

  /** The store after `handleAssign`: with a member and a day selected,
      deletes the remembered shift (if any), inserts a shift for the
      selection and logs `assigned`. Reassigning to the same member is not
      special-cased. */
  function AssignWrites(st: Store, v: View, shiftId: Id, entryId: Id): (w: Store)
    ensures v.selectedMember == "" || v.selectedDate == "" ==> w == st
    ensures w.members == st.members
    ensures v.selectedMember != "" && v.selectedDate != "" && HasMember(st.members, v.selectedMember) ==>
      && |w.shifts| > 0
      && w.shifts[|w.shifts| - 1] == NewShift(v, shiftId)
      && (forall s :: s in w.shifts[..|w.shifts| - 1] <==> s in st.shifts && Untouched(v, s))
      && w.history == st.history + [AssignedEntry(st, v, entryId)]
    ensures (v.selectedMember != "" && v.selectedDate != "" && v.existing.None? &&
      HasMember(st.members, v.selectedMember)) ==> w.shifts == st.shifts + [NewShift(v, shiftId)]
    ensures v.selectedMember != "" && v.selectedDate != "" && !HasMember(st.members, v.selectedMember) ==>
      && (forall s :: s in w.shifts <==> s in st.shifts && Untouched(v, s))
      && w.history == st.history
  {
    if v.selectedMember == "" || v.selectedDate == "" then st
    else
      var cleared := if v.existing.Some? then DeleteShift(st, v.existing.value.shift.id) else st;
      var placed := InsertShift(cleared, shiftId, v.selectedMember, v.selectedDate);
      assert placed.shifts == cleared.shifts + [NewShift(v, shiftId)] ==>
        (placed.shifts)[..|placed.shifts| - 1] == cleared.shifts;
      InsertEntry(placed, entryId, Some(v.selectedMember), AssigneeName(v.members, v.selectedMember),
                  v.selectedDate, Assigned, None)
  }

  /** `handleAssign`: past the guard, the writes, then a refetch with the
      dialog closed; the selection itself is left as it was. `scan` is the
      order in which the refetch returns the new store's shifts. */
  function Assign(st: Store, v: View, shiftId: Id, entryId: Id, scan: seq<Shift>): (r: (Store, View))
    requires multiset(scan) == multiset(AssignWrites(st, v, shiftId, entryId).shifts)
    ensures r.0 == AssignWrites(st, v, shiftId, entryId)
    ensures v.selectedMember == "" || v.selectedDate == "" ==> r.1 == v
    ensures v.selectedMember != "" && v.selectedDate != "" ==>
      && r.1 == Fetch(r.0, v.(modalOpen := false), scan)
      && !r.1.modalOpen
      && multiset(r.1.members) == multiset(r.0.members) && SortedBy(r.1.members, NameLe)
      && multiset(ShiftsOf(r.1.shifts)) == multiset(r.0.shifts)
      && r.1.(members := v.members, shifts := v.shifts, modalOpen := v.modalOpen) == v
  {
    var written := AssignWrites(st, v, shiftId, entryId);
    if v.selectedMember == "" || v.selectedDate == "" then (st, v)
    else (written, Fetch(written, v.(modalOpen := false), scan))
  }

  /** The reason `handleCancel` logs: the typed text, or `null` when empty. */
  function CancelledEntry(st: Store, v: View, entryId: Id): Entry
    requires v.existing.Some?
  {
    Entry(entryId, v.existing.value.shift.memberId, OrElse(NameOf(v.existing.value.member), Unknown),
          v.selectedDate, Cancelled, EmptyToNull(v.cancelReason), st.clock)
  }

  /** The store after `handleCancel`: with a remembered shift, deletes it and
      logs `cancelled` for its previous assignee. */
  function CancelWrites(st: Store, v: View, entryId: Id): (w: Store)
    ensures v.existing.None? ==> w == st
    ensures w.members == st.members
    ensures v.existing.Some? ==> forall s :: s in w.shifts <==> s in st.shifts && s.id != v.existing.value.shift.id
    ensures v.existing.Some? && References(st, v.existing.value.shift.memberId) ==>
      && w.history == st.history + [CancelledEntry(st, v, entryId)]
      && w.history[|st.history|].reason == (if v.cancelReason == "" then None else Some(v.cancelReason))
    ensures v.existing.Some? && !References(st, v.existing.value.shift.memberId) ==> w.history == st.history
  {
    if v.existing.None? then st
    else
      var e := v.existing.value;
      InsertEntry(DeleteShift(st, e.shift.id), entryId, e.shift.memberId, OrElse(NameOf(e.member), Unknown),
                  v.selectedDate, Cancelled, EmptyToNull(v.cancelReason))
  }

  /** `handleCancel`: past the guard, the writes, then a refetch with the
      dialog closed. `scan` is the order in which the refetch returns the new
      store's shifts. */
  function Cancel(st: Store, v: View, entryId: Id, scan: seq<Shift>): (r: (Store, View))
    requires multiset(scan) == multiset(CancelWrites(st, v, entryId).shifts)
    ensures r.0 == CancelWrites(st, v, entryId)
    ensures v.existing.None? ==> r.1 == v
    ensures v.existing.Some? ==>
      && r.1 == Fetch(r.0, v.(modalOpen := false), scan)
      && !r.1.modalOpen
      && multiset(r.1.members) == multiset(r.0.members) && SortedBy(r.1.members, NameLe)
      && multiset(ShiftsOf(r.1.shifts)) == multiset(r.0.shifts)
      && r.1.(members := v.members, shifts := v.shifts, modalOpen := v.modalOpen) == v
  {
    var written := CancelWrites(st, v, entryId);
    if v.existing.None? then (st, v)
    else (written, Fetch(written, v.(modalOpen := false), scan))
  }

  /** The `events` list handed to the calendar: one event per cached shift,
      titled with its member's name and coloured with its member's colour,
      falling back to Unknown and the default colour when either is missing
      or empty. */
  function Events(rows: seq<ShiftRow>): (r: seq<Event>)
    ensures |r| == |rows|
    ensures forall i :: 0 <= i < |rows| ==> r[i].id == rows[i].shift.id && r[i].date == rows[i].shift.shiftDate
    ensures forall i :: 0 <= i < |rows| && rows[i].member.None? ==> r[i].title == Unknown && r[i].color == DefaultColor
    ensures forall i :: 0 <= i < |rows| && rows[i].member.Some? ==>
      && r[i].title == (if rows[i].member.value.name == "" then Unknown else rows[i].member.value.name)
      && r[i].color == (if Truthy(rows[i].member.value.color) then rows[i].member.value.color.value else DefaultColor)
  {
    seq(|rows|, i requires 0 <= i < |rows| =>
      Event(rows[i].shift.id, OrElse(NameOf(rows[i].member), Unknown), rows[i].shift.shiftDate,
            OrElse(ColorOf(rows[i].member), DefaultColor)))
  }

  // ---------------------------------------------------------------------------
  // Properties of the transitions

  /** Under a current selection on a store with one shift per day, every
      store shift on the selected day is the remembered one. */
  lemma CurrentSelectionIsTheDaysShift(st: Store, v: View)
    requires OneShiftPerDay(st.shifts) && SelectionCurrent(st, v)
    ensures forall s :: s in st.shifts && s.shiftDate == v.selectedDate ==>
      v.existing.Some? && s == v.existing.value.shift
    ensures v.existing.Some? ==> (v.existing.value.shift in st.shifts &&
      v.existing.value.shift.shiftDate == v.selectedDate)
  {
    if v.existing.Some? {
      var k :| 0 <= k < |v.shifts| && v.shifts[k] == v.existing.value;
      assert ShiftsOf(v.shifts)[k] == v.existing.value.shift;
      assert v.existing.value.shift in multiset(ShiftsOf(v.shifts));
    }
    forall s | s in st.shifts && s.shiftDate == v.selectedDate
      ensures v.existing.Some? && s == v.existing.value.shift
    {
      assert s in multiset(ShiftsOf(v.shifts));
      var i :| 0 <= i < |ShiftsOf(v.shifts)| && ShiftsOf(v.shifts)[i] == s;
      assert v.shifts[i] in v.shifts;
      DistinctSameKey(st.shifts, ShiftDay, s, v.existing.value.shift);
    }
  }

  /** Assigning from a current selection keeps at most one shift per day, and
      the selected day then holds only the new shift. */
  lemma AssignKeepsOneShiftPerDay(st: Store, v: View, shiftId: Id, entryId: Id)
    requires OneShiftPerDay(st.shifts) && SelectionCurrent(st, v)
    ensures OneShiftPerDay(AssignWrites(st, v, shiftId, entryId).shifts)
    ensures v.selectedMember != "" && v.selectedDate != "" && HasMember(st.members, v.selectedMember) ==>
      forall s :: s in AssignWrites(st, v, shiftId, entryId).shifts && s.shiftDate == v.selectedDate ==>
        s == NewShift(v, shiftId)
  {
    if v.selectedMember != "" && v.selectedDate != "" {
      CurrentSelectionIsTheDaysShift(st, v);
      var cleared := if v.existing.Some? then DeleteShift(st, v.existing.value.shift.id) else st;
      if v.existing.Some? {
        FilterKeepsDistinct(st.shifts, (s: Shift) => s.id != v.existing.value.shift.id, ShiftDay);
      }
      assert forall s :: s in cleared.shifts ==> ShiftDay(s) != ShiftDay(NewShift(v, shiftId));
      if HasMember(cleared.members, v.selectedMember) {
        AppendKeepsDistinct(cleared.shifts, NewShift(v, shiftId), ShiftDay);
      }
    }
  }

  /** Cancelling keeps at most one shift per day; from a current selection it
      leaves the selected day empty. */
  lemma CancelKeepsOneShiftPerDay(st: Store, v: View, entryId: Id)
    requires OneShiftPerDay(st.shifts)
    ensures OneShiftPerDay(CancelWrites(st, v, entryId).shifts)
    ensures SelectionCurrent(st, v) ==>
      forall s :: s in CancelWrites(st, v, entryId).shifts ==> s.shiftDate != v.selectedDate
  {
    if SelectionCurrent(st, v) {
      CurrentSelectionIsTheDaysShift(st, v);
    }
    if v.existing.Some? {
      FilterKeepsDistinct(st.shifts, (s: Shift) => s.id != v.existing.value.shift.id, ShiftDay);
    }
  }

  /** Assigning keeps the schema's constraints, given fresh ids for the new rows. */
  lemma AssignKeepsValid(st: Store, v: View, shiftId: Id, entryId: Id)
    requires Valid(st) && FreshShiftId(st, shiftId) && FreshEntryId(st, entryId)
    ensures Valid(AssignWrites(st, v, shiftId, entryId))
  {
    if v.selectedMember != "" && v.selectedDate != "" {
      var cleared := if v.existing.Some? then DeleteShift(st, v.existing.value.shift.id) else st;
      if v.existing.Some? {
        DeleteShiftKeepsValid(st, v.existing.value.shift.id);
      }
      InsertShiftKeepsValid(cleared, shiftId, v.selectedMember, v.selectedDate);
      var placed := InsertShift(cleared, shiftId, v.selectedMember, v.selectedDate);
      InsertEntryKeepsValid(placed, entryId, Some(v.selectedMember), AssigneeName(v.members, v.selectedMember),
                            v.selectedDate, Assigned, None);
    }
  }

  /** Cancelling keeps the schema's constraints, given a fresh id for the log row. */
  lemma CancelKeepsValid(st: Store, v: View, entryId: Id)
    requires Valid(st) && FreshEntryId(st, entryId)
    ensures Valid(CancelWrites(st, v, entryId))
  {
    if v.existing.Some? {
      var e := v.existing.value;
      DeleteShiftKeepsValid(st, e.shift.id);
      InsertEntryKeepsValid(DeleteShift(st, e.shift.id), entryId, e.shift.memberId,
                            OrElse(NameOf(e.member), Unknown), v.selectedDate, Cancelled, EmptyToNull(v.cancelReason));
    }
  }

  /** Cancelling a current selection on a valid store always logs: the
      previous assignee is still a member, or the reference is null. */
  lemma CurrentCancelIsLogged(st: Store, v: View, entryId: Id)
    requires Valid(st) && SelectionCurrent(st, v) && v.existing.Some?
    ensures CancelWrites(st, v, entryId).history == st.history + [CancelledEntry(st, v, entryId)]
  {
    var k :| 0 <= k < |v.shifts| && v.shifts[k] == v.existing.value;
    assert ShiftsOf(v.shifts)[k] == v.existing.value.shift;
    assert v.existing.value.shift in multiset(st.shifts);
  }

  /** After a fetch the calendar shows one event per store shift, in the
      order the database returned them, titled and coloured from the member
      the shift references, and no two events share a day when the store
      keeps one shift per day. */
  lemma FetchedEventsShowStore(st: Store, v: View, scan: seq<Shift>)
    requires Valid(st) && multiset(scan) == multiset(st.shifts)
    ensures |Events(Fetch(st, v, scan).shifts)| == |st.shifts|
    ensures forall i :: 0 <= i < |scan| ==>
      && scan[i] in st.shifts
      && Events(Fetch(st, v, scan).shifts)[i].id == scan[i].id
      && Events(Fetch(st, v, scan).shifts)[i].date == scan[i].shiftDate
    ensures forall i, m :: 0 <= i < |scan| && m in st.members && scan[i].memberId == Some(m.id) ==>
      && Events(Fetch(st, v, scan).shifts)[i].title == (if m.name == "" then Unknown else m.name)
      && Events(Fetch(st, v, scan).shifts)[i].color == (if Truthy(m.color) then m.color.value else DefaultColor)
    ensures forall i :: 0 <= i < |scan| && scan[i].memberId.None? ==>
      && Events(Fetch(st, v, scan).shifts)[i].title == Unknown
      && Events(Fetch(st, v, scan).shifts)[i].color == DefaultColor
    ensures OneShiftPerDay(st.shifts) ==> forall i, j :: 0 <= i < j < |scan| ==>
      Events(Fetch(st, v, scan).shifts)[i].date != Events(Fetch(st, v, scan).shifts)[j].date
  {
    var rows := Fetch(st, v, scan).shifts;
    var ev := Events(rows);
    assert |scan| == |multiset(scan)| == |multiset(st.shifts)| == |st.shifts|;
    forall i | 0 <= i < |scan| ensures scan[i] in st.shifts {
      assert scan[i] in multiset(scan);
    }
    forall i, m | 0 <= i < |scan| && m in st.members && scan[i].memberId == Some(m.id)
      ensures ev[i].title == (if m.name == "" then Unknown else m.name)
      ensures ev[i].color == (if Truthy(m.color) then m.color.value else DefaultColor)
    {
      assert ShiftsOf(rows)[i] == scan[i];
      assert HasMember(st.members, m.id);
      var found := rows[i].member.value;
      DistinctSameKey(st.members, MemberKey, m, found);
    }
    forall i | 0 <= i < |scan| ensures ev[i].id == scan[i].id && ev[i].date == scan[i].shiftDate {
      assert ShiftsOf(rows)[i] == scan[i];
    }
    forall i | 0 <= i < |scan| && scan[i].memberId.None? ensures ev[i].title == Unknown && ev[i].color == DefaultColor {
      assert ShiftsOf(rows)[i] == scan[i];
    }
    if OneShiftPerDay(st.shifts) {
      PermutationKeepsDistinct(st.shifts, scan, ShiftDay);
      forall i, j | 0 <= i < j < |scan| ensures ev[i].date != ev[j].date {
        assert ShiftDay(scan[i]) != ShiftDay(scan[j]);
      }
    }
  }

  /** Without a current selection the single-slot rule is lost: a session whose
      cache predates another session's assignment books the same day again. */
  lemma StaleViewCanDoubleBookADay()
    ensures exists st: Store, v: View ::
      OneShiftPerDay(st.shifts) && !OneShiftPerDay(AssignWrites(st, v, "s2", "h2").shifts)
  {
    var alice := Member("m1", "Alice", None, None, Some(DefaultColor));
    var st := Store([alice], [Shift("s1", Some("m1"), "2024-06-01")], [], 0);
    var stale := View([alice], [], "2024-06-01", None, "m1", "", true);
    assert alice in st.members;
    var after := AssignWrites(st, stale, "s2", "h2").shifts;
    assert after == st.shifts + [Shift("s2", Some("m1"), "2024-06-01")];
    assert ShiftDay(after[0]) == ShiftDay(after[1]);
    assert OneShiftPerDay(st.shifts) && !OneShiftPerDay(after);
  }
}
