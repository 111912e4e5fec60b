/** The member-facing endpoints (backend/controllers/memberAuthController.js):
    login, password change, the merged fine history, borrowed books, and
    self-service reservations. The bcrypt comparison is an input. */
module MemberAuth {
  import opened Common
  import opened Schema
  import opened Ledger
  import opened FineRules
  import Query
  import opened Store
  import opened Messages
  import opened Reservations

  const ErrInvalidCredentials := Failure(Unauthorized, "Invalid credentials")
  const ErrAccountNotSetUp := Failure(Unauthorized, "Account not properly set up. Please contact administrator.")
  const ErrAccountInactive := Failure(Unauthorized, "Account is inactive")
  const ErrPasswordTooShort := Failure(BadRequest, "New password must be at least 6 characters long")
  const ErrWrongPassword := Failure(Unauthorized, "Current password is incorrect")
  const ErrChangeFailed := Failure(ServerError, "Failed to change password")
  const ErrBookIdRequired := Failure(BadRequest, "Book ID is required")
  const ErrNotYourReservation := Failure(Forbidden, "You can only cancel your own reservations")

  const MinPasswordLength: int := 6

  /** The claims of the token a successful login signs. */
  datatype Session = Session(memberId: int, email: Option<string>, tokenType: string, passwordChanged: bool)

  /** The member row the login reads: the lowest identity with that email. */
  function FindByEmail(members: map<int, Member>, idBound: int, email: string): (found: Option<int>)
    ensures found.Some? ==>
      found.value in members && 1 <= found.value < idBound && HasEmail(members[found.value], email)
    ensures found.Some? ==> forall id :: id in members && 1 <= id < found.value ==> !HasEmail(members[id], email)
    ensures found.None? ==> forall id :: id in members && 1 <= id < idBound ==> !HasEmail(members[id], email)
  {
    var rows := Query.SelectRows(members, (m: Member) => HasEmail(m, email), 1, idBound);
    if rows == [] then None
    else
      assert forall id :: id in members && 1 <= id < rows[0].0 && HasEmail(members[id], email) ==>
        (id, members[id]) in rows;
      Some(rows[0].0)
  }

  /** `!member.PASSWORD_HASH`: no hash, or an empty one. */
  predicate HasPassword(m: Member)
  {
    m.passwordHash.Some? && m.passwordHash.value != ""
  }

  /** memberLogin's decision; `matches(password, hash)` is bcrypt.compare. */
  function MemberLogin(members: map<int, Member>, idBound: int, email: string, password: string,
                       matches: (string, string) -> bool): (r: Result<Session>)
    ensures var found := FindByEmail(members, idBound, email);
      r == Err(ErrInvalidCredentials) <==>
        found.None? ||
        (HasPassword(members[found.value]) && members[found.value].status == Active
         && !matches(password, members[found.value].passwordHash.value))
    ensures var found := FindByEmail(members, idBound, email);
      r == Err(ErrAccountNotSetUp) <==> found.Some? && !HasPassword(members[found.value])
    ensures var found := FindByEmail(members, idBound, email);
      r == Err(ErrAccountInactive) <==>
        found.Some? && HasPassword(members[found.value]) && members[found.value].status != Active
    ensures var found := FindByEmail(members, idBound, email);
      r.Ok? <==>
        found.Some? && HasPassword(members[found.value]) && members[found.value].status == Active
        && matches(password, members[found.value].passwordHash.value)
    ensures r.Ok? ==>
      r.value.memberId in members && HasEmail(members[r.value.memberId], email)
      && r.value.tokenType == "member" && r.value.email == Some(email)
      && r.value.passwordChanged == members[r.value.memberId].passwordChanged
  {
    var found := FindByEmail(members, idBound, email);
    if found.None? then Err(ErrInvalidCredentials)
    else
      var m := members[found.value];
      if !HasPassword(m) then Err(ErrAccountNotSetUp)
      else if m.status != Active then Err(ErrAccountInactive)
      else if !matches(password, m.passwordHash.value) then Err(ErrInvalidCredentials)
      else Ok(Session(found.value, m.email, "member", m.passwordChanged))
  }

  /** changeMemberPassword's checks. The length test comes before any read;
      both branches on password_changed compare the current password with the
      stored hash, so the flag never changes the answer. A NULL hash makes
      bcrypt.compare throw, which is answered as a server error. */
  function ChangePasswordGuard(members: map<int, Member>, caller: int, current: string, newPassword: string,
                               matches: (string, string) -> bool): (f: Option<Failure>)
    ensures f == Some(ErrPasswordTooShort) <==> |newPassword| < MinPasswordLength
    ensures f == Some(ErrMemberNotFound) <==> |newPassword| >= MinPasswordLength && caller !in members
    ensures f == Some(ErrChangeFailed) <==>
      |newPassword| >= MinPasswordLength && caller in members && members[caller].passwordHash.None?
    ensures f == Some(ErrWrongPassword) <==>
      |newPassword| >= MinPasswordLength && caller in members && members[caller].passwordHash.Some?
      && !matches(current, members[caller].passwordHash.value)
    ensures f.None? <==>
      |newPassword| >= MinPasswordLength && caller in members && members[caller].passwordHash.Some?
      && matches(current, members[caller].passwordHash.value)
  {
    if |newPassword| < MinPasswordLength then Some(ErrPasswordTooShort)
    else if caller !in members then Some(ErrMemberNotFound)
    else if members[caller].passwordHash.None? then Some(ErrChangeFailed)
    else if !matches(current, members[caller].passwordHash.value) then Some(ErrWrongPassword)
    else None
  }

  /** The password_changed flag of the caller does not affect the checks. */
  lemma {:induction false} PasswordFlagIrrelevant(members: map<int, Member>, caller: int, current: string,
                                                  newPassword: string, matches: (string, string) -> bool, flag: bool)
    requires caller in members
    ensures ChangePasswordGuard(members[caller := members[caller].(passwordChanged := flag)], caller, current,
                                newPassword, matches)
         == ChangePasswordGuard(members, caller, current, newPassword, matches)
  {
  }

  /** changeMemberPassword. `newHash` is bcrypt.hash(newPassword). */
  method ChangeMemberPassword(db: Database, caller: int, current: string, newPassword: string, newHash: string,
                              matches: (string, string) -> bool) returns (r: Result<()>)
    requires db.Valid()
    modifies db`members
    ensures db.Valid()
    ensures ChangePasswordGuard(old(db.members), caller, current, newPassword, matches).Some? ==>
      r == Err(ChangePasswordGuard(old(db.members), caller, current, newPassword, matches).value) && unchanged(db)
    ensures ChangePasswordGuard(old(db.members), caller, current, newPassword, matches).None? ==>
      r == Ok(()) &&
      db.members == old(db.members)[caller := old(db.members)[caller].(passwordHash := Some(newHash), passwordChanged := true)]
  {
    var f := ChangePasswordGuard(db.members, caller, current, newPassword, matches);
    if f.Some? {
      return Err(f.value);
    }
    db.members := db.members[caller := db.members[caller].(passwordHash := Some(newHash), passwordChanged := true)];
    r := Ok(());
  }

  /** getMyBorrowedBooks: the caller's open loans, newest issue first. */
  function MyBorrowedBooks(books: map<int, Book>, txs: map<int, Transaction>, caller: int, idBound: int)
    : (rows: seq<(int, Transaction)>)
    ensures forall x :: x in rows ==> x.0 in txs && txs[x.0] == x.1 && IsBorrowedBy(books, x.1, caller)
    ensures forall id :: id in txs && 1 <= id < idBound && IsBorrowedBy(books, txs[id], caller) ==>
      multiset(rows)[(id, txs[id])] == 1
    ensures forall i, j :: 0 <= i < j < |rows| ==> rows[i].1.issueDate >= rows[j].1.issueDate
  {
    BorrowedBooks(books, txs, caller, idBound)
  }

  // ---------------------------------------------------------------- fine history

  /** An entry of getMyFineHistory: a fine_history row, or a fine computed
      for a loan that is overdue now (no fine id, flagged isCalculated). */
  datatype FineEntry =
    | Persisted(fineId: int, fine: Fine)
    | Computed(transactionId: int, amount: int, createdAt: int)

  /** The date the list is sorted by; computed entries use the due date. */
  function EntryDate(e: FineEntry): int
  {
    match e
    case Persisted(_, f) => f.createdAt
    case Computed(_, _, d) => d
  }

  /** A fine row of member `m` that the history query returns: it joins the
      row's transaction and that transaction's book. */
  predicate FineVisible(fines: map<int, Fine>, txs: map<int, Transaction>, books: map<int, Book>, m: int, id: int)
  {
    id in fines && fines[id].memberId == m && fines[id].transactionId in txs
    && txs[fines[id].transactionId].bookId in books
  }

  /** The history already holds a PENDING fine for loan `tid`. */
  ghost predicate HasPendingFine(fines: map<int, Fine>, txs: map<int, Transaction>, books: map<int, Book>, m: int, tid: int)
  {
    exists id :: FineVisible(fines, txs, books, m, id) && fines[id].status == Pending && fines[id].transactionId == tid
  }

  /** `t.member_id = :m AND t.status IN ('ISSUED', 'OVERDUE') AND t.due_date < SYSDATE`, joined with books. */
  predicate CurrentlyOverdue(books: map<int, Book>, t: Transaction, m: int, now: int)
  {
    IsBorrowedBy(books, t, m) && t.dueDate < now
  }

  /** The entry computed for an overdue loan: one rupee per started day. */
  function ComputedEntry(tid: int, t: Transaction, now: int): FineEntry
  {
    Computed(tid, LateFine(t.dueDate, now), t.dueDate)
  }

  /** The computed entries the forEach pushes for `rows`, in row order. */
  function ComputedFrom(rows: seq<(int, Transaction)>, pending: set<int>, now: int): seq<FineEntry>
  {
    if rows == [] then []
    else
      var last := rows[|rows| - 1];
      ComputedFrom(rows[..|rows| - 1], pending, now)
        + (if now > last.1.dueDate && last.0 !in pending then [ComputedEntry(last.0, last.1, now)] else [])
  }

  /** Row ids strictly increase, as a scan in identity order returns them. */
  ghost predicate IdsIncrease<T>(rows: seq<(int, T)>)
  {
    forall a, b :: 0 <= a < b < |rows| ==> rows[a].0 < rows[b].0
  }

  /** `rows` is what the fine_history query returns for member `m`. */
  ghost predicate IsFineRows(fines: map<int, Fine>, txs: map<int, Transaction>, books: map<int, Book>, m: int,
                             rows: seq<(int, Fine)>)
  {
    && (forall k :: 0 <= k < |rows| ==> FineVisible(fines, txs, books, m, rows[k].0) && fines[rows[k].0] == rows[k].1)
    && (forall id :: FineVisible(fines, txs, books, m, id) ==> (id, fines[id]) in rows)
    && IdsIncrease(rows)
  }

  /** `rows` is what the overdue-loan query returns for member `m`. */
  ghost predicate IsLoanRows(txs: map<int, Transaction>, books: map<int, Book>, m: int, now: int,
                             rows: seq<(int, Transaction)>)
  {
    && (forall k :: 0 <= k < |rows| ==>
          rows[k].0 in txs && txs[rows[k].0] == rows[k].1 && CurrentlyOverdue(books, rows[k].1, m, now))
    && (forall id :: id in txs && CurrentlyOverdue(books, txs[id], m, now) ==> (id, txs[id]) in rows)
    && IdsIncrease(rows)
  }

  /** The fine_history query of getMyFineHistory, in identity order. */
  function VisibleFines(fines: map<int, Fine>, txs: map<int, Transaction>, books: map<int, Book>, m: int, idBound: int)
    : (rows: seq<(int, Fine)>)
    requires forall id :: id in fines ==> 1 <= id < idBound
    ensures IsFineRows(fines, txs, books, m, rows)
  {
    Query.SelectRows(fines, (f: Fine) => f.memberId == m && f.transactionId in txs && txs[f.transactionId].bookId in books,
                     1, idBound)
  }

  /** The overdue-loan query of getMyFineHistory, in identity order. */
  function OverdueLoansOf(txs: map<int, Transaction>, books: map<int, Book>, m: int, now: int, idBound: int)
    : (rows: seq<(int, Transaction)>)
    requires forall id :: id in txs ==> 1 <= id < idBound
    ensures IsLoanRows(txs, books, m, now, rows)
  {
    Query.SelectRows(txs, (t: Transaction) => CurrentlyOverdue(books, t, m, now), 1, idBound)
  }

  /** The loans that already carry a PENDING fine row. */
  function PendingIds(rows: seq<(int, Fine)>): set<int>
  {
    set k | 0 <= k < |rows| && rows[k].1.status == Pending :: rows[k].1.transactionId
  }

  lemma PendingExact(fines: map<int, Fine>, txs: map<int, Transaction>, books: map<int, Book>, m: int,
                     rows: seq<(int, Fine)>)
    requires IsFineRows(fines, txs, books, m, rows)
    ensures forall tid :: tid in PendingIds(rows) <==> HasPendingFine(fines, txs, books, m, tid)
  {
    forall tid | HasPendingFine(fines, txs, books, m, tid)
      ensures tid in PendingIds(rows)
    {
      var id :| FineVisible(fines, txs, books, m, id) && fines[id].status == Pending && fines[id].transactionId == tid;
      var k :| 0 <= k < |rows| && rows[k] == (id, fines[id]);
    }
    forall tid | tid in PendingIds(rows)
      ensures HasPendingFine(fines, txs, books, m, tid)
    {
      var k :| 0 <= k < |rows| && rows[k].1.status == Pending && rows[k].1.transactionId == tid;
      assert FineVisible(fines, txs, books, m, rows[k].0);
    }
  }

  /** One more row of the loop: ComputedFrom grows by at most that row's entry. */
  lemma ComputedFromStep(rows: seq<(int, Transaction)>, i: int, pending: set<int>, now: int)
    requires 0 <= i < |rows|
    ensures ComputedFrom(rows[..i + 1], pending, now)
         == ComputedFrom(rows[..i], pending, now)
            + (if now > rows[i].1.dueDate && rows[i].0 !in pending then [ComputedEntry(rows[i].0, rows[i].1, now)] else [])
  {
    assert rows[..i + 1][..i] == rows[..i];
  }

  lemma {:induction false} ComputedSound(rows: seq<(int, Transaction)>, pending: set<int>, now: int)
    ensures forall e :: e in ComputedFrom(rows, pending, now) ==>
      exists k :: (0 <= k < |rows| && now > rows[k].1.dueDate && rows[k].0 !in pending
                   && e == ComputedEntry(rows[k].0, rows[k].1, now))
  {
    if rows != [] {
      var n := |rows| - 1;
      var init := rows[..n];
      ComputedSound(init, pending, now);
      forall e | e in ComputedFrom(rows, pending, now)
        ensures exists k :: (0 <= k < |rows| && now > rows[k].1.dueDate && rows[k].0 !in pending
                             && e == ComputedEntry(rows[k].0, rows[k].1, now))
      {
        if e in ComputedFrom(init, pending, now) {
          var k :| 0 <= k < |init| && now > init[k].1.dueDate && init[k].0 !in pending
            && e == ComputedEntry(init[k].0, init[k].1, now);
          assert rows[k] == init[k];
        } else {
          assert e == ComputedEntry(rows[n].0, rows[n].1, now);
        }
      }
    }
  }

  lemma {:induction false} ComputedComplete(rows: seq<(int, Transaction)>, pending: set<int>, now: int)
    ensures forall k :: 0 <= k < |rows| && now > rows[k].1.dueDate && rows[k].0 !in pending ==>
      ComputedEntry(rows[k].0, rows[k].1, now) in ComputedFrom(rows, pending, now)
  {
    if rows != [] {
      var n := |rows| - 1;
      var init := rows[..n];
      ComputedComplete(init, pending, now);
      forall k | 0 <= k < n && now > rows[k].1.dueDate && rows[k].0 !in pending
        ensures ComputedEntry(rows[k].0, rows[k].1, now) in ComputedFrom(rows, pending, now)
      {
        assert rows[k] == init[k];
      }
    }
  }

  lemma DistinctAppend<T>(s: seq<T>, x: T)
    requires Query.Distinct(s) && x !in s
    ensures Query.Distinct(s + [x])
  {
    forall a, b | 0 <= a < b < |s| + 1
      ensures (s + [x])[a] != (s + [x])[b]
    {
      if b == |s| {
        assert (s + [x])[a] == s[a];
      }
    }
  }

  /** A loan gets at most one computed entry. */
  lemma {:induction false} ComputedDistinct(rows: seq<(int, Transaction)>, pending: set<int>, now: int)
    requires IdsIncrease(rows)
    ensures Query.Distinct(ComputedFrom(rows, pending, now))
  {
    if rows != [] {
      var n := |rows| - 1;
      var init := rows[..n];
      ComputedDistinct(init, pending, now);
      ComputedSound(init, pending, now);
      var c0 := ComputedFrom(init, pending, now);
      if now > rows[n].1.dueDate && rows[n].0 !in pending {
        var x := ComputedEntry(rows[n].0, rows[n].1, now);
        forall e | e in c0
          ensures e != x
        {
          var k :| 0 <= k < |init| && now > init[k].1.dueDate && init[k].0 !in pending
            && e == ComputedEntry(init[k].0, init[k].1, now);
          assert init[k] == rows[k];
        }
        DistinctAppend(c0, x);
      }
    }
  }

  /** The fine_history rows as entries, in row order. */
  function PersistedEntries(rows: seq<(int, Fine)>): (es: seq<FineEntry>)
    ensures |es| == |rows|
    ensures forall k :: 0 <= k < |rows| ==> es[k] == Persisted(rows[k].0, rows[k].1)
  {
    seq(|rows|, k requires 0 <= k < |rows| => Persisted(rows[k].0, rows[k].1))
  }

  /** The forEach over the overdue loans: each loan without a PENDING fine
      row gets a computed entry, in row order. */
  method AppendComputed(base: seq<FineEntry>, loanRows: seq<(int, Transaction)>, pending: set<int>, now: int)
    returns (list: seq<FineEntry>)
    ensures list == base + ComputedFrom(loanRows, pending, now)
  {
    list := base;
    var i := 0;
    while i < |loanRows|
      invariant 0 <= i <= |loanRows|
      invariant list == base + ComputedFrom(loanRows[..i], pending, now)
    {
      var tid, t := loanRows[i].0, loanRows[i].1;
      ComputedFromStep(loanRows, i, pending, now);
      if now > t.dueDate && tid !in pending {
        list := list + [Computed(tid, LateFine(t.dueDate, now), t.dueDate)];
      }
      i := i + 1;
    }
    assert loanRows[..|loanRows|] == loanRows;
  }

  /** The merged list, before sorting, has no repeated entry. */
  lemma MergedDistinct(fineRows: seq<(int, Fine)>, loanRows: seq<(int, Transaction)>, pending: set<int>, now: int)
    requires IdsIncrease(fineRows) && IdsIncrease(loanRows)
    ensures Query.Distinct(PersistedEntries(fineRows) + ComputedFrom(loanRows, pending, now))
  {
    var p := PersistedEntries(fineRows);
    var c := ComputedFrom(loanRows, pending, now);
    ComputedDistinct(loanRows, pending, now);
    ComputedSound(loanRows, pending, now);
    var list := p + c;
    forall a, b | 0 <= a < b < |list|
      ensures list[a] != list[b]
    {
      if b < |p| {
        assert list[a] == p[a] && list[b] == p[b];
      } else if a >= |p| {
        assert list[a] == c[a - |p|] && list[b] == c[b - |p|];
      } else {
        assert list[a] == p[a];
        assert list[b] == c[b - |p|] && c[b - |p|] in c;
      }
    }
  }

  /** An entry of a reordering of `p + c` comes from `p` or from `c`. */
  lemma FromOnePart(p: seq<FineEntry>, c: seq<FineEntry>, entries: seq<FineEntry>)
    requires multiset(entries) == multiset(p + c)
    ensures forall e :: e in entries ==> e in p || e in c
  {
    forall e | e in entries
      ensures e in p || e in c
    {
      assert e in multiset(p + c);
      assert multiset(p + c) == multiset(p) + multiset(c);
    }
  }

  /** The sorted history holds only the caller's visible fine rows. */
  lemma PersistedSound(fines: map<int, Fine>, txs: map<int, Transaction>, books: map<int, Book>, m: int,
                       fineRows: seq<(int, Fine)>, computed: seq<FineEntry>, entries: seq<FineEntry>)
    requires forall k :: 0 <= k < |fineRows| ==>
      FineVisible(fines, txs, books, m, fineRows[k].0) && fines[fineRows[k].0] == fineRows[k].1
    requires forall e :: e in computed ==> e.Computed?
    requires multiset(entries) == multiset(PersistedEntries(fineRows) + computed)
    ensures forall e :: e in entries && e.Persisted? ==> FineVisible(fines, txs, books, m, e.fineId) && fines[e.fineId] == e.fine
  {
    var p := PersistedEntries(fineRows);
    FromOnePart(p, computed, entries);
    forall e | e in entries && e.Persisted?
      ensures FineVisible(fines, txs, books, m, e.fineId) && fines[e.fineId] == e.fine
    {
      var k :| 0 <= k < |p| && p[k] == e;
    }
  }

  /** Each visible fine row of the caller occurs once in the sorted history. */
  lemma PersistedOnce(fines: map<int, Fine>, txs: map<int, Transaction>, books: map<int, Book>, m: int,
                      fineRows: seq<(int, Fine)>, computed: seq<FineEntry>, entries: seq<FineEntry>)
    requires forall id :: FineVisible(fines, txs, books, m, id) ==> (id, fines[id]) in fineRows
    requires Query.Distinct(PersistedEntries(fineRows) + computed)
    requires multiset(entries) == multiset(PersistedEntries(fineRows) + computed)
    ensures forall id :: FineVisible(fines, txs, books, m, id) ==> multiset(entries)[Persisted(id, fines[id])] == 1
  {
    var p := PersistedEntries(fineRows);
    var list := p + computed;
    forall id | FineVisible(fines, txs, books, m, id)
      ensures multiset(entries)[Persisted(id, fines[id])] == 1
    {
      var k :| 0 <= k < |fineRows| && fineRows[k] == (id, fines[id]);
      assert list[k] == p[k];
      Query.DistinctOnce(list, Persisted(id, fines[id]));
    }
  }

  /** Every computed entry of the sorted history belongs to an open overdue
      loan of the caller that has no PENDING fine row, with the amount
      LateFine gives. */
  lemma ComputedEntriesSound(fines: map<int, Fine>, txs: map<int, Transaction>, books: map<int, Book>, m: int,
                             now: int, fineRows: seq<(int, Fine)>, loanRows: seq<(int, Transaction)>,
                             entries: seq<FineEntry>)
    requires IsFineRows(fines, txs, books, m, fineRows) && IsLoanRows(txs, books, m, now, loanRows)
    requires multiset(entries) == multiset(PersistedEntries(fineRows) + ComputedFrom(loanRows, PendingIds(fineRows), now))
    ensures forall e :: e in entries && e.Computed? ==>
      && e.transactionId in txs
      && CurrentlyOverdue(books, txs[e.transactionId], m, now)
      && !HasPendingFine(fines, txs, books, m, e.transactionId)
      && e == ComputedEntry(e.transactionId, txs[e.transactionId], now)
      && e.amount >= 1
  {
    var pending := PendingIds(fineRows);
    var p := PersistedEntries(fineRows);
    var c := ComputedFrom(loanRows, pending, now);
    PendingExact(fines, txs, books, m, fineRows);
    ComputedSound(loanRows, pending, now);
    FromOnePart(p, c, entries);
    forall e | e in entries && e.Computed?
      ensures && e.transactionId in txs
              && CurrentlyOverdue(books, txs[e.transactionId], m, now)
              && !HasPendingFine(fines, txs, books, m, e.transactionId)
              && e == ComputedEntry(e.transactionId, txs[e.transactionId], now)
              && e.amount >= 1
    {
      assert e !in p;
      var k :| 0 <= k < |loanRows| && now > loanRows[k].1.dueDate && loanRows[k].0 !in pending
        && e == ComputedEntry(loanRows[k].0, loanRows[k].1, now);
    }
  }

  /** Every open overdue loan of the caller without a PENDING fine row has
      exactly one computed entry. */
  lemma ComputedEntriesOnce(fines: map<int, Fine>, txs: map<int, Transaction>, books: map<int, Book>, m: int,
                            now: int, fineRows: seq<(int, Fine)>, loanRows: seq<(int, Transaction)>,
                            entries: seq<FineEntry>)
    requires IsFineRows(fines, txs, books, m, fineRows) && IsLoanRows(txs, books, m, now, loanRows)
    requires Query.Distinct(PersistedEntries(fineRows) + ComputedFrom(loanRows, PendingIds(fineRows), now))
    requires multiset(entries) == multiset(PersistedEntries(fineRows) + ComputedFrom(loanRows, PendingIds(fineRows), now))
    ensures forall tid ::
      (tid in txs && CurrentlyOverdue(books, txs[tid], m, now) && !HasPendingFine(fines, txs, books, m, tid)) ==>
      multiset(entries)[ComputedEntry(tid, txs[tid], now)] == 1
  {
    var pending := PendingIds(fineRows);
    var c := ComputedFrom(loanRows, pending, now);
    var list := PersistedEntries(fineRows) + c;
    PendingExact(fines, txs, books, m, fineRows);
    ComputedComplete(loanRows, pending, now);
    forall tid | tid in txs && CurrentlyOverdue(books, txs[tid], m, now) && !HasPendingFine(fines, txs, books, m, tid)
      ensures multiset(entries)[ComputedEntry(tid, txs[tid], now)] == 1
    {
      var k :| 0 <= k < |loanRows| && loanRows[k] == (tid, txs[tid]);
      assert ComputedEntry(tid, txs[tid], now) in c;
      Query.DistinctOnce(list, ComputedEntry(tid, txs[tid], now));
    }
  }

  /** Two computed entries never name the same loan. */
  lemma ComputedOnce(fines: map<int, Fine>, txs: map<int, Transaction>, books: map<int, Book>, m: int, now: int,
                     entries: seq<FineEntry>)
    requires forall e :: e in entries && e.Computed? ==>
      && e.transactionId in txs
      && CurrentlyOverdue(books, txs[e.transactionId], m, now)
      && !HasPendingFine(fines, txs, books, m, e.transactionId)
      && e == ComputedEntry(e.transactionId, txs[e.transactionId], now)
    requires forall tid ::
      (tid in txs && CurrentlyOverdue(books, txs[tid], m, now) && !HasPendingFine(fines, txs, books, m, tid)) ==>
      multiset(entries)[ComputedEntry(tid, txs[tid], now)] == 1
    ensures forall i, j :: 0 <= i < j < |entries| && entries[i].Computed? && entries[j].Computed? ==>
      entries[i].transactionId != entries[j].transactionId
  {
    forall i, j | 0 <= i < j < |entries| && entries[i].Computed? && entries[j].Computed?
      ensures entries[i].transactionId != entries[j].transactionId
    {
      assert entries[i] in entries && entries[j] in entries;
      if entries[i].transactionId == entries[j].transactionId {
        CountTwice(entries, i, j);
      }
    }
  }

  /** A value that sits at two positions occurs at least twice. */
  lemma CountTwice<T>(s: seq<T>, i: int, j: int)
    requires 0 <= i < j < |s| && s[i] == s[j]
    ensures multiset(s)[s[i]] >= 2
  {
    assert s == s[..j] + s[j..];
    assert s[i] in s[..j];
    assert s[j] in s[j..];
    assert multiset(s) == multiset(s[..j]) + multiset(s[j..]);
  }

  /** getMyFineHistory. Every fine row of the caller appears once; a computed
      entry appears, once, for exactly the open overdue loans that have no
      PENDING fine row; the list runs newest first. */
  method MyFineHistory(db: Database, caller: int, now: int) returns (entries: seq<FineEntry>)
    requires db.Valid()
    ensures forall e :: e in entries && e.Persisted? ==>
      FineVisible(db.fines, db.transactions, db.books, caller, e.fineId) && db.fines[e.fineId] == e.fine
    ensures forall id :: FineVisible(db.fines, db.transactions, db.books, caller, id) ==>
      multiset(entries)[Persisted(id, db.fines[id])] == 1
    ensures forall e :: e in entries && e.Computed? ==>
      && e.transactionId in db.transactions
      && CurrentlyOverdue(db.books, db.transactions[e.transactionId], caller, now)
      && !HasPendingFine(db.fines, db.transactions, db.books, caller, e.transactionId)
      && e == ComputedEntry(e.transactionId, db.transactions[e.transactionId], now)
      && e.amount >= 1
    ensures forall tid ::
      (tid in db.transactions && CurrentlyOverdue(db.books, db.transactions[tid], caller, now)
       && !HasPendingFine(db.fines, db.transactions, db.books, caller, tid)) ==>
      multiset(entries)[ComputedEntry(tid, db.transactions[tid], now)] == 1
    ensures forall i, j :: 0 <= i < j < |entries| && entries[i].Computed? && entries[j].Computed? ==>
      entries[i].transactionId != entries[j].transactionId
    ensures forall i, j :: 0 <= i < j < |entries| ==> EntryDate(entries[i]) >= EntryDate(entries[j])
  {
    var fines, txs, books := db.fines, db.transactions, db.books;
    var fineRows := VisibleFines(fines, txs, books, caller, db.nextId);
    var pending := PendingIds(fineRows);
    var loanRows := OverdueLoansOf(txs, books, caller, now, db.nextId);
    var list := AppendComputed(PersistedEntries(fineRows), loanRows, pending, now);
    MergedDistinct(fineRows, loanRows, pending, now);
    ComputedSound(loanRows, pending, now);

    entries := Query.SortBy(list, (e: FineEntry) => -EntryDate(e));
    PersistedSound(fines, txs, books, caller, fineRows, ComputedFrom(loanRows, pending, now), entries);
    PersistedOnce(fines, txs, books, caller, fineRows, ComputedFrom(loanRows, pending, now), entries);
    ComputedEntriesSound(fines, txs, books, caller, now, fineRows, loanRows, entries);
    ComputedEntriesOnce(fines, txs, books, caller, now, fineRows, loanRows, entries);
    ComputedOnce(fines, txs, books, caller, now, entries);
  }

  // ---------------------------------------------------------------- reservations

  /** createMyReservation's checks: the book id is present, the caller's
      account exists and is ACTIVE (one answer for both), then the
      book-side checks shared with the desk. */
  function MyReservationGuard(members: map<int, Member>, books: map<int, Book>, resv: map<int, Reservation>,
                              txs: map<int, Transaction>, caller: int, bookId: int): (f: Option<Failure>)
    ensures f == Some(ErrBookIdRequired) <==> bookId == 0
    ensures f == Some(ErrMemberInactive) <==> bookId != 0 && (caller !in members || members[caller].status != Active)
    ensures bookId != 0 && caller in members && members[caller].status == Active ==>
      f == BookChecks(books, resv, txs, caller, bookId)
  {
    if bookId == 0 then Some(ErrBookIdRequired)
    else if caller !in members || members[caller].status != Active then Some(ErrMemberInactive)
    else BookChecks(books, resv, txs, caller, bookId)
  }

  /** createMyReservation: on success the new reservation's id. */
  method CreateMyReservation(db: Database, caller: int, bookId: int, now: int) returns (r: Result<int>)
    requires db.Valid()
    modifies db`reservations, db`nextId
    ensures db.Valid()
    ensures MyReservationGuard(old(db.members), old(db.books), old(db.reservations), old(db.transactions), caller, bookId).Some? ==>
      r == Err(MyReservationGuard(old(db.members), old(db.books), old(db.reservations), old(db.transactions), caller, bookId).value)
      && unchanged(db)
    ensures MyReservationGuard(old(db.members), old(db.books), old(db.reservations), old(db.transactions), caller, bookId).None? ==>
      && r == Ok(old(db.nextId)) && r.value !in old(db.reservations)
      && db.reservations == old(db.reservations)[r.value := NewReservation(caller, bookId, now)]
      && db.reservations[r.value].expiryDate - now == ReservationDays * DAY
      && db.nextId == old(db.nextId) + 1
  {
    var f := MyReservationGuard(db.members, db.books, db.reservations, db.transactions, caller, bookId);
    if f.Some? {
      return Err(f.value);
    }
    var id := InsertReservation(db, NewReservation(caller, bookId, now));
    r := Ok(id);
  }

  /** cancelMyReservation's checks: found (404), owned by the caller (403),
      still PENDING or AVAILABLE. */
  function CancelMineGuard(resv: map<int, Reservation>, caller: int, id: int): (f: Option<Failure>)
    ensures f == Some(ErrReservationNotFound) <==> id !in resv
    ensures f == Some(ErrNotYourReservation) <==> id in resv && resv[id].memberId != caller
    ensures f == Some(ErrNotCancellable) <==>
      id in resv && resv[id].memberId == caller && (resv[id].status.Fulfilled? || resv[id].status.Cancelled?)
    ensures f.None? <==>
      id in resv && resv[id].memberId == caller
      && (resv[id].status.ReservationPending? || resv[id].status.ReservationAvailable?)
  {
    if id !in resv then Some(ErrReservationNotFound)
    else if resv[id].memberId != caller then Some(ErrNotYourReservation)
    else CancelGuard(resv, id)
  }

  /** cancelMyReservation: only the status of the caller's own reservation changes. */
  method CancelMyReservation(db: Database, caller: int, id: int) returns (r: Result<()>)
    requires db.Valid()
    modifies db`reservations
    ensures db.Valid()
    ensures CancelMineGuard(old(db.reservations), caller, id).Some? ==>
      r == Err(CancelMineGuard(old(db.reservations), caller, id).value) && unchanged(db)
    ensures CancelMineGuard(old(db.reservations), caller, id).None? ==>
      r == Ok(()) && db.reservations == old(db.reservations)[id := old(db.reservations)[id].(status := Cancelled)]
  {
    var f := CancelMineGuard(db.reservations, caller, id);
    if f.Some? {
      return Err(f.value);
    }
    MarkCancelled(db, id);
    r := Ok(());
  }
}
