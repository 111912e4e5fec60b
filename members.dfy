/** The desk's member endpoints (backend/controllers/memberController.js):
    creating, updating and deleting a member, and a member's borrowed books.
    The temporary password is generated and hashed outside the model; its
    hash is an input. */
module Members {
  import opened Common
  import opened Schema
  import opened Ledger
  import opened Store
  import opened Messages

  const ErrEmailTaken := Failure(BadRequest, "Member with this email already exists")
  const ErrMemberHasLoans := Failure(BadRequest, "Cannot delete member with active transactions")

  /** The request body of createMember and updateMember; "" is an absent or
      empty text field, None an absent enumeration. */
  datatype MemberInput = MemberInput(
    firstName: string,
    lastName: string,
    email: string,
    phone: string,
    address: string,
    membershipType: Option<MembershipType>,
    status: Option<MemberStatus>)

  /** `SELECT member_id FROM members WHERE email = :email`. */
  predicate EmailUsed(members: map<int, Member>, email: string)
  {
    exists id :: id in members && HasEmail(members[id], email)
  }

  /** `... WHERE email = :email AND member_id != :id`. */
  predicate EmailUsedByOther(members: map<int, Member>, email: string, self: int)
  {
    exists id :: id in members && id != self && HasEmail(members[id], email)
  }

  /** No two members share a (non-NULL) email address. */
  ghost predicate EmailsUnique(members: map<int, Member>)
  {
    forall i, j :: i in members && j in members && i != j && members[i].email.Some? ==>
      members[i].email != members[j].email
  }

  /** The row createMember inserts: `membership_type || 'STUDENT'`, status
      from the column default, the temporary password's hash, and
      password_changed 0. */
  function NewMember(input: MemberInput, passwordHash: string): (m: Member)
    ensures m.firstName == input.firstName && m.lastName == input.lastName
    ensures m.email == Nullable(input.email) && m.phone == Nullable(input.phone) && m.address == Nullable(input.address)
    ensures m.status == Active && !m.passwordChanged && m.passwordHash == Some(passwordHash)
    ensures input.membershipType.Some? ==> m.membershipType == input.membershipType.value
    ensures input.membershipType.None? ==> m.membershipType == Student
  {
    Member(input.firstName, input.lastName, Nullable(input.email), Nullable(input.phone), Nullable(input.address),
           if input.membershipType.Some? then input.membershipType.value else Student,
           Active, Some(passwordHash), false)
  }

  /** The row as updateMember leaves it: every listed column is overwritten,
      so an absent email, phone or address becomes NULL, and absent type and
      status fall back to STUDENT and ACTIVE; the password columns are kept. */
  function UpdatedMember(old_: Member, input: MemberInput): (m: Member)
    ensures m.firstName == input.firstName && m.lastName == input.lastName
    ensures m.email == Nullable(input.email) && m.phone == Nullable(input.phone) && m.address == Nullable(input.address)
    ensures m.passwordHash == old_.passwordHash && m.passwordChanged == old_.passwordChanged
    ensures input.status.Some? ==> m.status == input.status.value
    ensures input.status.None? ==> m.status == Active
    ensures input.membershipType.Some? ==> m.membershipType == input.membershipType.value
    ensures input.membershipType.None? ==> m.membershipType == Student
  {
    old_.(firstName := input.firstName, lastName := input.lastName, email := Nullable(input.email),
          phone := Nullable(input.phone), address := Nullable(input.address),
          membershipType := if input.membershipType.Some? then input.membershipType.value else Student,
          status := if input.status.Some? then input.status.value else Active)
  }

  /** createMember: refused when the email is already used; otherwise the new
      member's id. A second create with the same non-empty email is refused. */
  method CreateMember(db: Database, input: MemberInput, passwordHash: string) returns (r: Result<int>)
    requires db.Valid()
    modifies db`members, db`nextId
    ensures db.Valid()
    ensures EmailUsed(old(db.members), input.email) ==> r == Err(ErrEmailTaken) && unchanged(db)
    ensures !EmailUsed(old(db.members), input.email) ==>
      && r == Ok(old(db.nextId)) && r.value !in old(db.members)
      && db.members == old(db.members)[r.value := NewMember(input, passwordHash)]
      && db.nextId == old(db.nextId) + 1
    ensures r.Ok? && input.email != "" ==> EmailUsed(db.members, input.email)
    ensures EmailsUnique(old(db.members)) ==> EmailsUnique(db.members)
  {
    if exists id :: id in db.members && HasEmail(db.members[id], input.email) {
      return Err(ErrEmailTaken);
    }
    var id := db.NewId();
    assert forall k :: k in db.members && db.members[k].email.Some? ==> db.members[k].email != Nullable(input.email);
    ghost var before := db.members;
    db.members := db.members[id := NewMember(input, passwordHash)];
    if EmailsUnique(before) {
      forall i, j | i in db.members && j in db.members && i != j && db.members[i].email.Some?
        ensures db.members[i].email != db.members[j].email
      {
        if i != id && j != id {
          assert db.members[i] == before[i] && db.members[j] == before[j];
        }
      }
    }
    if input.email != "" {
      assert HasEmail(db.members[id], input.email);
    }
    r := Ok(id);
  }

  /** updateMember's checks: the member exists, then (only when an email is
      sent) no other member has it. */
  function UpdateGuard(members: map<int, Member>, id: int, email: string): (f: Option<Failure>)
    ensures f == Some(ErrMemberNotFound) <==> id !in members
    ensures f == Some(ErrEmailTaken) <==> id in members && EmailUsedByOther(members, email, id)
    ensures f.None? <==> id in members && !EmailUsedByOther(members, email, id)
  {
    if id !in members then Some(ErrMemberNotFound)
    else if email != "" && EmailUsedByOther(members, email, id) then Some(ErrEmailTaken)
    else None
  }

  /** A member may always resend its own email address. */
  lemma {:induction false} OwnEmailAccepted(members: map<int, Member>, id: int)
    requires id in members && members[id].email.Some? && EmailsUnique(members)
    ensures UpdateGuard(members, id, members[id].email.value).None?
  {
  }

  /** updateMember. */
  method UpdateMember(db: Database, id: int, input: MemberInput) returns (r: Result<()>)
    requires db.Valid()
    modifies db`members
    ensures db.Valid()
    ensures UpdateGuard(old(db.members), id, input.email).Some? ==>
      r == Err(UpdateGuard(old(db.members), id, input.email).value) && unchanged(db)
    ensures UpdateGuard(old(db.members), id, input.email).None? ==>
      r == Ok(()) && db.members == old(db.members)[id := UpdatedMember(old(db.members)[id], input)]
    ensures EmailsUnique(old(db.members)) ==> EmailsUnique(db.members)
  {
    var f := UpdateGuard(db.members, id, input.email);
    if f.Some? {
      return Err(f.value);
    }
    db.members := db.members[id := UpdatedMember(db.members[id], input)];
    r := Ok(());
  }

  /** deleteMember's checks: the member exists and has no ISSUED or OVERDUE loan. */
  function DeleteGuard(members: map<int, Member>, txs: map<int, Transaction>, id: int): (f: Option<Failure>)
    ensures f == Some(ErrMemberNotFound) <==> id !in members
    ensures f == Some(ErrMemberHasLoans) <==> id in members && MemberLoans(txs, id) != {}
    ensures f.None? <==> id in members && MemberLoans(txs, id) == {}
  {
    if id !in members then Some(ErrMemberNotFound)
    else if MemberLoans(txs, id) != {} then Some(ErrMemberHasLoans)
    else None
  }

  /** deleteMember: the member row goes; no open loan is left pointing at it. */
  method DeleteMember(db: Database, id: int) returns (r: Result<()>)
    requires db.Valid()
    modifies db`members
    ensures db.Valid()
    ensures DeleteGuard(old(db.members), db.transactions, id).Some? ==>
      r == Err(DeleteGuard(old(db.members), db.transactions, id).value) && unchanged(db)
    ensures DeleteGuard(old(db.members), db.transactions, id).None? ==>
      r == Ok(()) && db.members == old(db.members) - {id}
    ensures r.Ok? ==> id !in db.members && MemberLoans(db.transactions, id) == {}
  {
    var f := DeleteGuard(db.members, db.transactions, id);
    if f.Some? {
      return Err(f.value);
    }
    db.members := db.members - {id};
    r := Ok(());
  }

  /** getMemberBorrowedBooks: the member's open loans joined with their
      books, newest issue first. */
  function MemberBorrowedBooks(books: map<int, Book>, txs: map<int, Transaction>, id: int, idBound: int)
    : (rows: seq<(int, Transaction)>)
    ensures forall x :: x in rows ==> x.0 in txs && txs[x.0] == x.1 && IsBorrowedBy(books, x.1, id)
    ensures forall t :: t in txs && 1 <= t < idBound && IsBorrowedBy(books, txs[t], id) ==>
      multiset(rows)[(t, txs[t])] == 1
    ensures forall i, j :: 0 <= i < j < |rows| ==> rows[i].1.issueDate >= rows[j].1.issueDate
  {
    BorrowedBooks(books, txs, id, idBound)
  }
}
