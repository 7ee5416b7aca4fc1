/** The member handlers: list, get, create, partial update and delete. */
module Members {
  import opened Wrappers
  import opened Models
  import opened Schemas
  import opened Store

  /** What a partial update means: every field the request sent is overwritten,
      every field it left out keeps its value. */
  function PatchMember(m: Member, u: MemberUpdate): Member {
    Member(
      if u.name.Sent? then u.name.value else m.name,
      if u.email.Sent? then u.email.value else m.email)
  }

  /** Assigning the dumped items of an update one by one gives the patched member. */
  lemma MemberUpdateDataPatches(m: Member, u: MemberUpdate)
    ensures SetAttrs(m, MemberUpdateData(u), SetMemberAttr) == PatchMember(m, u)
  {
    var n := if u.name.Sent? then [(Name, u.name.value)] else [];
    var e := if u.email.Sent? then [(Email, u.email.value)] else [];
    assert MemberUpdateData(u) == n + e;
    SetAttrsConcat(m, n, e, SetMemberAttr);
    assert forall p: (MemberField, string) :: [p][..0] == [];
  }

  /** An update that sends nothing leaves the member as it was. */
  lemma EmptyMemberUpdateKeepsMember(m: Member)
    ensures PatchMember(m, EmptyMemberUpdate) == m
  {
  }

  /** Sending the same update twice has the effect of sending it once. */
  lemma PatchMemberIdempotent(m: Member, u: MemberUpdate)
    ensures PatchMember(PatchMember(m, u), u) == PatchMember(m, u)
  {
  }

  /** The `setattr` loop over the fields the request sent. */
  method ApplyMemberUpdate(m: Member, u: MemberUpdate) returns (nm: Member)
    ensures nm == PatchMember(m, u)
  {
    var data := MemberUpdateData(u);
    nm := m;
    var i := 0;
    while i < |data|
      invariant 0 <= i <= |data|
      invariant nm == SetAttrs(m, data[..i], SetMemberAttr)
    {
      assert data[..i + 1][..i] == data[..i];
      nm := SetMemberAttr(nm, data[i].0, data[i].1);
      i := i + 1;
    }
    assert data[..i] == data;
    MemberUpdateDataPatches(m, u);
  }

  /** GET /members: every stored member, in ascending id order. */
  method GetMembers(db: Library) returns (members: seq<MemberResponse>)
    requires db.Valid()
    ensures forall i, j :: 0 <= i < j < |members| ==> members[i].id < members[j].id
    ensures forall i :: 0 <= i < |members| ==> members[i].id in db.members && members[i] == db.MemberView(members[i].id)
    ensures forall id :: id in db.members ==> exists i :: 0 <= i < |members| && members[i].id == id
  {
    var ids := StoredIds(db.members.Keys, db.nextMemberId);
    members := seq(|ids|, i reads db requires 0 <= i < |ids| && ids[i] in db.members => db.MemberView(ids[i]));
    assert forall i :: 0 <= i < |ids| ==> members[i].id == ids[i];
  }

  /** GET /members/{id}. */
  method GetMemberById(db: Library, id: int) returns (r: Result<MemberResponse>)
    ensures id in db.members ==> r == Ok(db.MemberView(id))
    ensures id !in db.members ==> r == NotFound("Member not found")
  {
    if id !in db.members {
      return NotFound("Member not found");
    }
    r := Ok(db.MemberView(id));
  }

  /** POST /members. The store refuses the insert at commit when the email is in use. */
  method CreateMember(db: Library, req: MemberCreate) returns (r: Result<MemberResponse>)
    requires db.Valid()
    modifies db
    ensures db.Valid()
    ensures db.books == old(db.books) && db.records == old(db.records)
    ensures db.nextBookId == old(db.nextBookId) && db.nextRecordId == old(db.nextRecordId)
    ensures old(EmailTaken(db.members, req.email, db.nextMemberId)) ==>
      r == Conflict("member.email") && db.members == old(db.members) && db.nextMemberId == old(db.nextMemberId)
    ensures !old(EmailTaken(db.members, req.email, db.nextMemberId)) ==>
      && r.Ok? && r.value.id !in old(db.members)
      && db.members == old(db.members)[r.value.id := NewMember(req)]
      && r.value == db.MemberView(r.value.id)
  {
    var member := NewMember(req);
    var id := db.nextMemberId;
    if EmailTaken(db.members, member.email, id) {
      return Conflict("member.email");
    }
    EmailsUniqueAfterWrite(db.members, id, member);
    db.members := db.members[id := member];
    db.nextMemberId := id + 1;
    r := Ok(db.MemberView(id));
  }

  /** PUT /members/{id}: writes only the fields the request sent. */
  method UpdateMember(db: Library, id: int, u: MemberUpdate) returns (r: Result<MemberResponse>)
    requires db.Valid()
    modifies db
    ensures db.Valid()
    ensures db.books == old(db.books) && db.records == old(db.records)
    ensures db.nextBookId == old(db.nextBookId) && db.nextMemberId == old(db.nextMemberId)
    ensures db.nextRecordId == old(db.nextRecordId)
    ensures id !in old(db.members) ==> r == NotFound("Member not found") && db.members == old(db.members)
    ensures id in old(db.members) && EmailTaken(old(db.members), PatchMember(old(db.members[id]), u).email, id) ==>
      r == Conflict("member.email") && db.members == old(db.members)
    ensures id in old(db.members) && !EmailTaken(old(db.members), PatchMember(old(db.members[id]), u).email, id) ==>
      db.members == old(db.members)[id := PatchMember(old(db.members[id]), u)] && r == Ok(db.MemberView(id))
  {
    if id !in db.members {
      return NotFound("Member not found");
    }
    var member := ApplyMemberUpdate(db.members[id], u);
    if EmailTaken(db.members, member.email, id) {
      return Conflict("member.email");
    }
    EmailsUniqueAfterWrite(db.members, id, member);
    db.members := db.members[id := member];
    r := Ok(db.MemberView(id));
  }

  /** DELETE /members/{id}. The member's records are left as they are. */
  method DeleteMember(db: Library, id: int) returns (r: Result<()>)
    requires db.Valid()
    modifies db
    ensures db.Valid()
    ensures db.books == old(db.books) && db.records == old(db.records)
    ensures db.nextBookId == old(db.nextBookId) && db.nextMemberId == old(db.nextMemberId)
    ensures db.nextRecordId == old(db.nextRecordId)
    ensures id !in old(db.members) ==> r == NotFound("Member not found")
    ensures id in old(db.members) ==> r == Ok(())
    ensures db.members == old(db.members) - {id}
  {
    if id !in db.members {
      return NotFound("Member not found");
    }
    db.members := db.members - {id};
    r := Ok(());
  }
}
