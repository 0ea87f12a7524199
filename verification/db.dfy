/** The database the pages talk to (schema in src/supabase.js): three tables,
    their constraints, and each single-table call the pages issue modelled as
    one atomic update of the whole store. */
module Db {
  import opened Js
  import opened Seqs
  import opened Sorting
  import opened Strings

  /** A row id (a UUID); opaque. */
  type Id = string
  /** A calendar day as the `YYYY-MM-DD` text the calendar reports; days are
      compared as strings. */
  type Date = string

  /** The `color` column's default, also the fallback colour wherever a colour is missing. */
  const DefaultColor: string := "#6366f1"

  /** A row of `members`. A `NOT NULL` column is a plain field, a nullable one an `Option`. */
  datatype Member = Member(id: Id, name: string, email: Option<string>, phone: Option<string>, color: Option<string>)

  /** A row of `shifts`. `member_id` is nullable in the schema; `shift_date` is
      required and, deliberately, carries no uniqueness constraint. */
  datatype Shift = Shift(id: Id, memberId: Option<Id>, shiftDate: Date)

  /** The two values the application writes to the free-text `action` column. */
  datatype Action = Assigned | Cancelled

  /** A row of `history`. `member_name` is a copy taken when the row was written. */
  datatype Entry = Entry(
    id: Id,
    memberId: Option<Id>,
    memberName: string,
    shiftDate: Date,
    action: Action,
    reason: Option<string>,
    createdAt: nat)

  /** The three tables, plus the source of `created_at` timestamps: a counter
      that each history insert reads and advances. */
  datatype Store = Store(members: seq<Member>, shifts: seq<Shift>, history: seq<Entry>, clock: nat)

  function MemberKey(m: Member): Id { m.id }
  function ShiftKey(s: Shift): Id { s.id }
  function EntryKey(e: Entry): Id { e.id }
  function ShiftDay(s: Shift): Date { s.shiftDate }

  predicate HasMember(members: seq<Member>, id: Id) {
    exists m :: m in members && m.id == id
  }

  /** A foreign key value is acceptable: `NULL`, or the id of an existing member. */
  predicate References(st: Store, ref: Option<Id>) {
    ref.None? || HasMember(st.members, ref.value)
  }

  /** The schema's constraints: primary keys, both foreign keys into `members`,
      and timestamps that precede the clock. */
  ghost predicate Valid(st: Store) {
    && DistinctBy(st.members, MemberKey)
    && DistinctBy(st.shifts, ShiftKey)
    && DistinctBy(st.history, EntryKey)
    && (forall s :: s in st.shifts ==> References(st, s.memberId))
    && (forall e :: e in st.history ==> References(st, e.memberId))
    && (forall e :: e in st.history ==> e.createdAt < st.clock)
  }

  /** At most one shift per day: the single-slot rule the calendar assumes
      but the schema does not enforce. */
  predicate OneShiftPerDay(shifts: seq<Shift>) {
    DistinctBy(shifts, ShiftDay)
  }

  /** Freshly generated ids (`gen_random_uuid()`) collide with no existing row. */
  predicate FreshMemberId(st: Store, id: Id) { forall m :: m in st.members ==> m.id != id }
  predicate FreshShiftId(st: Store, id: Id) { forall s :: s in st.shifts ==> s.id != id }
  predicate FreshEntryId(st: Store, id: Id) { forall e :: e in st.history ==> e.id != id }

  // ---------------------------------------------------------------------------
  // Queries

  /** `order('name')`. */
  function NameLe(a: Member, b: Member): bool {
    LexLe(a.name, b.name)
  }

  lemma NameLeIsTotalPreorder()
    ensures TotalPreorder(NameLe)
  {
    forall a: Member, b: Member ensures NameLe(a, b) || NameLe(b, a) {
      LexLeTotal(a.name, b.name);
    }
    forall a: Member, b: Member, c: Member | NameLe(a, b) && NameLe(b, c) ensures NameLe(a, c) {
      LexLeTransitive(a.name, b.name, c.name);
    }
  }

  /** `members.select('*').order('name')`: the roster as a name-ordered permutation. */
  function MembersByName(members: seq<Member>): (r: seq<Member>)
    ensures multiset(r) == multiset(members)
    ensures SortedBy(r, NameLe)
  {
    NameLeIsTotalPreorder();
    Sort(members, NameLe)
  }

  /** `members.find(m => m.id === id)`, also the embedded `members(*)` of a shift. */
  function MemberById(members: seq<Member>, id: Option<Id>): Option<Member> {
    Find(members, (m: Member) => id == Some(m.id))
  }

  // ---------------------------------------------------------------------------
  // Single-table calls

  /** `shifts.delete().eq('id', id)`: removes exactly the rows with that id. */
  function DeleteShift(st: Store, id: Id): (r: Store)
    ensures r.members == st.members && r.history == st.history && r.clock == st.clock
    ensures forall s :: s in r.shifts <==> s in st.shifts && s.id != id
    ensures |r.shifts| <= |st.shifts|
  {
    st.(shifts := Filter(st.shifts, (s: Shift) => s.id != id))
  }

  /** `shifts.insert({ member_id, shift_date })`; the foreign key rejects an
      unknown member and the store is then unchanged. */
  function InsertShift(st: Store, id: Id, memberId: Id, date: Date): (r: Store)
    ensures r.members == st.members && r.history == st.history && r.clock == st.clock
    ensures HasMember(st.members, memberId) ==> r.shifts == st.shifts + [Shift(id, Some(memberId), date)]
    ensures !HasMember(st.members, memberId) ==> r == st
  {
    if HasMember(st.members, memberId) then st.(shifts := st.shifts + [Shift(id, Some(memberId), date)])
    else st
  }

  /** `history.insert({...})`, stamped with the current time; the foreign key
      rejects an unknown member. */
  function InsertEntry(st: Store, id: Id, memberId: Option<Id>, memberName: string, date: Date,
                       action: Action, reason: Option<string>): (r: Store)
    ensures r.members == st.members && r.shifts == st.shifts
    ensures References(st, memberId) ==>
      && r.history == st.history + [Entry(id, memberId, memberName, date, action, reason, st.clock)]
      && r.clock > st.clock
    ensures !References(st, memberId) ==> r == st
  {
    if References(st, memberId) then
      st.(history := st.history + [Entry(id, memberId, memberName, date, action, reason, st.clock)],
          clock := st.clock + 1)
    else st
  }

  /** `members.insert(fields)`. */
  function InsertMember(st: Store, m: Member): (r: Store)
    ensures r.members == st.members + [m]
    ensures r.shifts == st.shifts && r.history == st.history && r.clock == st.clock
  {
    st.(members := st.members + [m])
  }

  /** `members.update(fields).eq('id', id)`: every matching row takes the new
      field values and keeps its id. */
  function UpdateMember(st: Store, id: Id, name: string, email: Option<string>, phone: Option<string>,
                        color: Option<string>): (r: Store)
    ensures r.shifts == st.shifts && r.history == st.history && r.clock == st.clock
    ensures |r.members| == |st.members|
    ensures forall i :: 0 <= i < |r.members| ==> r.members[i].id == st.members[i].id
    ensures forall i :: 0 <= i < |r.members| && st.members[i].id != id ==> r.members[i] == st.members[i]
    ensures forall i :: 0 <= i < |r.members| && st.members[i].id == id ==>
      r.members[i] == Member(id, name, email, phone, color)
  {
    st.(members := seq(|st.members|, i requires 0 <= i < |st.members| =>
      if st.members[i].id == id then Member(id, name, email, phone, color) else st.members[i]))
  }

  /** The history row after its member is deleted (`ON DELETE SET NULL`). */
  function Unlink(e: Entry, id: Id): Entry {
    if e.memberId == Some(id) then e.(memberId := None) else e
  }

  /** `members.delete().eq('id', id)` with the schema's referential actions:
      shifts of the member are deleted (`ON DELETE CASCADE`) and history rows
      keep everything but their member reference (`ON DELETE SET NULL`). */
  function DeleteMember(st: Store, id: Id): (r: Store)
    ensures forall m :: m in r.members <==> m in st.members && m.id != id
    ensures forall s :: s in r.shifts <==> s in st.shifts && s.memberId != Some(id)
    ensures |r.history| == |st.history| && r.clock == st.clock
    ensures forall i :: 0 <= i < |r.history| ==>
      var (a, b) := (r.history[i], st.history[i]);
      && a.id == b.id && a.memberName == b.memberName && a.shiftDate == b.shiftDate
      && a.action == b.action && a.reason == b.reason && a.createdAt == b.createdAt
      && a.memberId == (if b.memberId == Some(id) then None else b.memberId)
  {
    Store(
      Filter(st.members, (m: Member) => m.id != id),
      Filter(st.shifts, (s: Shift) => s.memberId != Some(id)),
      seq(|st.history|, i requires 0 <= i < |st.history| => Unlink(st.history[i], id)),
      st.clock)
  }

  // ---------------------------------------------------------------------------
  // Every call keeps the schema's constraints

  lemma DeleteShiftKeepsValid(st: Store, id: Id)
    requires Valid(st)
    ensures Valid(DeleteShift(st, id))
  {
    FilterKeepsDistinct(st.shifts, (s: Shift) => s.id != id, ShiftKey);
  }

  lemma InsertShiftKeepsValid(st: Store, id: Id, memberId: Id, date: Date)
    requires Valid(st)
    requires FreshShiftId(st, id)
    ensures Valid(InsertShift(st, id, memberId, date))
  {
    if HasMember(st.members, memberId) {
      AppendKeepsDistinct(st.shifts, Shift(id, Some(memberId), date), ShiftKey);
    }
  }

  lemma InsertEntryKeepsValid(st: Store, id: Id, memberId: Option<Id>, memberName: string, date: Date,
                              action: Action, reason: Option<string>)
    requires Valid(st)
    requires FreshEntryId(st, id)
    ensures Valid(InsertEntry(st, id, memberId, memberName, date, action, reason))
  {
    if References(st, memberId) {
      AppendKeepsDistinct(st.history, Entry(id, memberId, memberName, date, action, reason, st.clock), EntryKey);
    }
  }

  lemma InsertMemberKeepsValid(st: Store, m: Member)
    requires Valid(st)
    requires FreshMemberId(st, m.id)
    ensures Valid(InsertMember(st, m))
  {
    AppendKeepsDistinct(st.members, m, MemberKey);
    var r := InsertMember(st, m);
    forall x | HasMember(st.members, x) ensures HasMember(r.members, x) {
      var w :| w in st.members && w.id == x;
      assert w in r.members;
    }
  }

  lemma UpdateMemberKeepsValid(st: Store, id: Id, name: string, email: Option<string>, phone: Option<string>,
                               color: Option<string>)
    requires Valid(st)
    ensures Valid(UpdateMember(st, id, name, email, phone, color))
  {
    var r := UpdateMember(st, id, name, email, phone, color);
    forall x | HasMember(st.members, x) ensures HasMember(r.members, x) {
      var i :| 0 <= i < |st.members| && st.members[i].id == x;
      assert r.members[i] in r.members;
    }
    assert DistinctBy(r.members, MemberKey) by {
      forall i, j | 0 <= i < j < |r.members| ensures MemberKey(r.members[i]) != MemberKey(r.members[j]) {
        assert MemberKey(st.members[i]) != MemberKey(st.members[j]);
      }
    }
  }

  /** The referential actions are exactly what keeps both foreign keys intact
      when a member disappears. */
  lemma {:induction false} DeleteMemberKeepsValid(st: Store, id: Id)
    requires Valid(st)
    ensures Valid(DeleteMember(st, id))
  {
    var r := DeleteMember(st, id);
    FilterKeepsDistinct(st.members, (m: Member) => m.id != id, MemberKey);
    FilterKeepsDistinct(st.shifts, (s: Shift) => s.memberId != Some(id), ShiftKey);
    forall x | HasMember(st.members, x) && x != id ensures HasMember(r.members, x) {
      var w :| w in st.members && w.id == x;
      assert w in r.members;
    }
    assert DistinctBy(r.history, EntryKey) by {
      forall i, j | 0 <= i < j < |r.history| ensures EntryKey(r.history[i]) != EntryKey(r.history[j]) {
        assert EntryKey(st.history[i]) != EntryKey(st.history[j]);
      }
    }
    forall e | e in r.history ensures References(r, e.memberId) && e.createdAt < r.clock {
      var i :| 0 <= i < |r.history| && r.history[i] == e;
      assert st.history[i] in st.history;
    }
  }

  /** Nothing in the schema stops two shifts on one day: a valid store can
      violate the single-slot rule. */
  lemma SchemaAllowsTwoShiftsOnADay()
    ensures exists st :: Valid(st) && !OneShiftPerDay(st.shifts)
  {
    var alice := Member("m1", "Alice", None, None, Some(DefaultColor));
    var st := Store([alice], [Shift("s1", Some("m1"), "2024-06-01"), Shift("s2", Some("m1"), "2024-06-01")], [], 0);
    assert alice in st.members;
    assert ShiftDay(st.shifts[0]) == ShiftDay(st.shifts[1]);
    assert Valid(st) && !OneShiftPerDay(st.shifts);
  }
}
