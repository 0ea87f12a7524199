/** The roster page (src/pages/ContactsPage.jsx): the add/edit form and the
    three roster writes it issues. */
module Contacts {
  import opened Js
  import opened Strings
  import opened Sorting
  import opened Db

  /** The form's fields. Name, email and phone are always strings; the colour
      is copied from the member as stored, so it can be `null`. */
  datatype Form = Form(name: string, email: string, phone: string, color: Option<string>)

  /** The page's state: the fetched roster, the member being edited (`null`
      when adding), the form, and whether the dialog is open. */
  datatype Roster = Roster(members: seq<Member>, editing: Option<Member>, form: Form, modalOpen: bool)

  const BlankForm: Form := Form("", "", "", Some(DefaultColor))

  /** The row a save writes: the form's values as typed; empty email and phone
      are written as empty strings, not `null`. */
  function FormMember(id: Id, f: Form): Member {
    Member(id, f.name, Some(f.email), Some(f.phone), f.color)
  }

  /** `fetchMembers`: the roster becomes the store's members ordered by name. */
  function Refresh(st: Store, p: Roster): (r: Roster)
    ensures multiset(r.members) == multiset(st.members) && SortedBy(r.members, NameLe)
    ensures r.(members := p.members) == p
  {
    p.(members := MembersByName(st.members))
  }

  /** `handleOpenModal(member)`: editing copies the member into the form with
      a missing email or phone shown as empty; adding starts from a blank form
      in the default colour. */
  function OpenEditor(p: Roster, member: Option<Member>): (r: Roster)
    ensures r.modalOpen && r.members == p.members && r.editing == member
    ensures member.None? ==> r.form == Form("", "", "", Some("#6366f1"))
    ensures member.Some? ==>
      && r.form.name == member.value.name
      && r.form.color == member.value.color
      && r.form.email == (if member.value.email.Some? then member.value.email.value else "")
      && r.form.phone == (if member.value.phone.Some? then member.value.phone.value else "")
  {
    if member.Some? then
      var m := member.value;
      p.(editing := member, form := Form(m.name, OrElse(m.email, ""), OrElse(m.phone, ""), m.color), modalOpen := true)
    else
      p.(editing := None, form := BlankForm, modalOpen := true)
  }

  /** `handleSave`: a blank name (empty or all whitespace) does nothing;
      otherwise the edited member is updated by id, or a new member inserted,
      and the roster refetched. The name is stored untrimmed. */
  function Save(st: Store, p: Roster, newId: Id): (r: (Store, Roster))
    ensures AllWhitespace(p.form.name) ==> r == (st, p)
    ensures !AllWhitespace(p.form.name) ==>
      && r.0.shifts == st.shifts && r.0.history == st.history
      && !r.1.modalOpen
      && multiset(r.1.members) == multiset(r.0.members) && SortedBy(r.1.members, NameLe)
      && r.1.(members := p.members, modalOpen := p.modalOpen) == p
    ensures !AllWhitespace(p.form.name) && p.editing.Some? ==>
      && |r.0.members| == |st.members|
      && forall i :: 0 <= i < |st.members| ==>
        r.0.members[i] == (if st.members[i].id == p.editing.value.id
                           then FormMember(p.editing.value.id, p.form) else st.members[i])
    ensures !AllWhitespace(p.form.name) && p.editing.None? ==>
      r.0.members == st.members + [FormMember(newId, p.form)]
  {
    TrimEmptyIffBlank(p.form.name);
    if Trim(p.form.name) == "" then (st, p)
    else
      var f := p.form;
      var written :=
        if p.editing.Some? then UpdateMember(st, p.editing.value.id, f.name, Some(f.email), Some(f.phone), f.color)
        else InsertMember(st, FormMember(newId, f));
      (written, Refresh(written, p.(modalOpen := false)))
  }

  /** `handleDelete`: unless the confirmation is declined, deletes the member;
      the database then drops their shifts and detaches their history rows,
      which keep the logged name. */
  function Delete(st: Store, p: Roster, id: Id, confirmed: bool): (r: (Store, Roster))
    ensures !confirmed ==> r == (st, p)
    ensures confirmed ==>
      && !HasMember(r.0.members, id)
      && (forall m :: m in st.members && m.id != id ==> m in r.0.members)
      && (forall s :: s in r.0.shifts ==> s.memberId != Some(id))
      && (forall s :: s in st.shifts && s.memberId != Some(id) ==> s in r.0.shifts)
      && (forall e :: e in r.0.history ==> e.memberId != Some(id))
      && |r.0.history| == |st.history|
      && (forall i :: 0 <= i < |st.history| ==> r.0.history[i].memberName == st.history[i].memberName)
      && multiset(r.1.members) == multiset(r.0.members) && SortedBy(r.1.members, NameLe)
      && r.1.(members := p.members) == p
    ensures confirmed ==> r.0 == DeleteMember(st, id)
  {
    if !confirmed then (st, p)
    else
      var deleted := DeleteMember(st, id);
      assert forall e :: e in deleted.history ==> e.memberId != Some(id) by {
        forall e | e in deleted.history ensures e.memberId != Some(id) {
          var i :| 0 <= i < |deleted.history| && deleted.history[i] == e;
        }
      }
      (deleted, Refresh(deleted, p))
  }

  /** The id of the row a save writes: the edited member's, or the new one. */
  function SavedId(p: Roster, newId: Id): Id {
    if p.editing.Some? then p.editing.value.id else newId
  }

  /** Saving a form and reopening the saved member shows the same form again:
      the form and the stored row agree field for field. */
  lemma SaveThenOpenRestoresForm(st: Store, p: Roster, newId: Id)
    requires !AllWhitespace(p.form.name)
    requires p.editing.Some? ==> HasMember(st.members, p.editing.value.id)
    requires p.editing.None? ==> FreshMemberId(st, newId)
    ensures MemberById(Save(st, p, newId).0.members, Some(SavedId(p, newId))).Some?
    ensures OpenEditor(Save(st, p, newId).1, MemberById(Save(st, p, newId).0.members, Some(SavedId(p, newId)))).form
      == p.form
  {
    var saved := Save(st, p, newId);
    var id := SavedId(p, newId);
    var found := MemberById(saved.0.members, Some(id));
    if p.editing.Some? {
      var i :| 0 <= i < |st.members| && st.members[i].id == id;
      assert saved.0.members[i].id == id;
      assert saved.0.members[i] in saved.0.members;
      assert found.Some?;
      var k :| 0 <= k < |saved.0.members| && saved.0.members[k] == found.value;
    } else {
      assert saved.0.members[|st.members|] == FormMember(newId, p.form);
      assert saved.0.members[|st.members|] in saved.0.members;
      assert found.Some?;
      var k :| 0 <= k < |saved.0.members| && saved.0.members[k] == found.value;
    }
  }

  /** Saving keeps the schema's constraints, given a fresh id for an insert. */
  lemma SaveKeepsValid(st: Store, p: Roster, newId: Id)
    requires Valid(st)
    requires p.editing.None? ==> FreshMemberId(st, newId)
    ensures Valid(Save(st, p, newId).0)
  {
    TrimEmptyIffBlank(p.form.name);
    var f := p.form;
    if p.editing.Some? {
      UpdateMemberKeepsValid(st, p.editing.value.id, f.name, Some(f.email), Some(f.phone), f.color);
    } else {
      InsertMemberKeepsValid(st, FormMember(newId, f));
    }
  }
}
