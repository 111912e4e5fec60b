# Library loans, fines and reservations — a Dafny model

This project models the circulation core of a library management back end
(Express on Node.js over an Oracle database). The library lends copies of
books to members, charges a late fine of one rupee per started day, takes
fine payments through the Razorpay gateway, and lets members reserve a book
whose copies are all out on loan. Its tables are books, members,
transactions (one row per loan), fine_history and reservations.

The database is one object, `Store.Database`. Each table is a `map` from
identity value to row, and one counter stands for Oracle's identity columns.
Each controller is a module:

- `Transactions`: issue, return, renew, the admin fine payment and the
  overdue list.
- `Payments`: Razorpay order creation and payment verification.
- `MemberAuth`: member login, password change, the merged fine history,
  borrowed books, and self-service reservations.
- `Reservations`: reservations made at the desk, the sort whitelist of the
  reservation list.
- `Members`: member create, update, delete and borrowed books.
- `Books`: book create, update, delete and search.
- `Paging`: the page arithmetic the paginated lists share.

Each handler has two parts:

- A pure guard function. It returns the first refusal the handler sends, and
  each refusal is stated as an if-and-only-if over the tables.
- A method that changes only the tables the handler writes. On a refusal
  nothing changes. On success the new table content is stated exactly.

The stock invariant is `Ledger.StockInvariant`. It says:

- a book's available copies equal its total copies less its open
  (ISSUED or OVERDUE) loans;
- that number lies between 0 and the total;
- no member holds two ISSUED loans of the same book.

Issuing, returning, renewing and deleting a book keep this invariant. Creating
a book keeps it too, unless the copy count is negative. Updating a book keeps
it exactly when the new counts agree with its open loans
(`Books.UpdateStockIff`). The model keeps the code's own quirks as written:

- The duplicate-loan test at issue time looks only at ISSUED loans, so a
  member with an OVERDUE loan of a book can borrow it again.
- The renewal cap counts the member's open loans of the same book. It does not
  count renewals, so one loan can be renewed any number of times.
- The admin payFine refuses only a PAID fine, so a WAIVED fine can be paid.
- updateBook stores `available_copies || total_copies || 1` without looking at
  the open loans.

Inputs from outside the database enter as parameters:

- the current time, in milliseconds;
- the bcrypt comparison, as a function;
- the new password hash, as a value;
- the HMAC function and the gateway secret;
- the gateway's order and payment answers, as optional values.

JavaScript's `x || default` is modelled with 0 for an absent number and "" for
an absent text field; Oracle stores "" as NULL.

The comment at transactionController.js:533 promises at most 2 renewals. The
test at transactionController.js:510 and 534 counts the open loan rows of the
member and book instead. The model follows the code:
`Transactions.RenewalsUnlimited` proves that a renewable loan stays renewable
after a renewal.

## Model

| member | source | states |
|---|---|---|
| FineRules.LateFine | backend/controllers/transactionController.js:183-190 | the fine is never negative; it is zero exactly when the book comes back on or before the due date; otherwise it is the number of started days late, bounded by `(fine-1)*DAY < late <= fine*DAY` |
| FineRules.LateFineWholeDays | backend/controllers/transactionController.js:186-190 | exactly k days late costs k rupees; one millisecond more costs k+1 |
| FineRules.LateFineMonotone | backend/controllers/transactionController.js:186-190 | a later return date never gives a smaller fine |
| FineRules.InPaise | backend/controllers/paymentController.js:71-72 | the paise amount divided by 100 is the rupee amount, it is a multiple of 100, and it is positive exactly when the rupee amount is |
| Ledger.TakeCopy | backend/controllers/transactionController.js:116-120 | only the issued book's available copies change, and they go down by one; the set of books is the same |
| Ledger.PutBackCopy | backend/controllers/transactionController.js:207-211 | only the returned book's available copies change, and they go up by one |
| Ledger.IssueKeepsStock | backend/controllers/transactionController.js:100-120 | a new ISSUED loan of a book with a copy on the shelf, together with the decrement, keeps the stock invariant when the member has no ISSUED loan of that book |
| Ledger.ReturnKeepsStock | backend/controllers/transactionController.js:192-212 | closing an open loan as RETURNED and putting the copy back keeps the stock invariant |
| Ledger.RenewKeepsStock | backend/controllers/transactionController.js:543-556 | rewriting an open loan as open again, for the same member and book, keeps the stock invariant |
| Ledger.BorrowedBooks | backend/controllers/memberController.js:443-450 | the rows are exactly the member's open loans whose book exists, each once, newest issue date first |
| Store.Database.NewId | backend/controllers/transactionController.js:101-111 | the returned identity is unused in every table and the counter moves past it |
| Transactions.IssueGuard | backend/controllers/transactionController.js:9-89 | each refusal of issueBook holds exactly when the checks before it pass and its own fails: unparsable ids, member missing, member not ACTIVE, book missing, book not AVAILABLE, no copy left, an ISSUED loan of the pair |
| Transactions.IssueDueDate | backend/controllers/transactionController.js:91-98 | a requested due date is used as given; otherwise the loan is due 14 days after now |
| Transactions.IssueBook | backend/controllers/transactionController.js:100-120 | on a refusal nothing changes; otherwise one new ISSUED loan under a fresh id, one copy fewer on the shelf, and the stock invariant is kept |
| Transactions.IssueBesideOverdueLoan | backend/controllers/transactionController.js:76-89 | a member whose only loans of a book are OVERDUE passes the duplicate check |
| Transactions.ReturnGuard | backend/controllers/transactionController.js:160-180 | 404 exactly when the loan is missing; "not currently issued" exactly when it is neither ISSUED nor OVERDUE |
| Transactions.ReturnBook | backend/controllers/transactionController.js:183-225 | the loan becomes RETURNED with the return date and the late fine; the copy goes back; a PENDING fine row is added exactly when the fine is positive; the stock invariant is kept; a second return is refused |
| Transactions.RenewGuard | backend/controllers/transactionController.js:504-540 | 404 for a missing loan; refused when the loan is not open; refused exactly when the member has two or more open loans of the same book |
| Transactions.ExtensionDays | backend/controllers/transactionController.js:504 | the extension is the requested number of days, or 14 days |
| Transactions.Renewed | backend/controllers/transactionController.js:543-556 | the due date moves by the extension, the loan becomes OVERDUE exactly when the new due date is already past, it stays open, and no other column changes |
| Transactions.RenewBook | backend/controllers/transactionController.js:501-560 | only the renewed loan changes, as Renewed says, and the stock invariant is kept |
| Transactions.RenewalCapMeansSecondLoan | backend/controllers/transactionController.js:508-540 | an open loan hits the renewal cap exactly when another open loan of the same member and book exists |
| Transactions.RenewalsUnlimited | backend/controllers/transactionController.js:508-556 | a loan that may be renewed may be renewed again after the renewal |
| Transactions.PayFineGuard | backend/controllers/transactionController.js:455-472 | 404 for a missing fine; refused exactly when it is PAID; accepted for PENDING and for WAIVED |
| Transactions.PayFine | backend/controllers/transactionController.js:474-482 | only the fine changes: it becomes PAID with the paid date set; a second payment is refused |
| Transactions.OverdueBooks | backend/controllers/transactionController.js:349-361 | the rows are exactly the ISSUED loans past their due date whose member and book exist, each once, earliest due date first |
| Paging.PageOffset | backend/controllers/transactionController.js:257 | the offset is not negative for page ≥ 1, and offset plus limit is page times limit |
| Paging.TotalPages | backend/controllers/transactionController.js:332 | there is no page count exactly when the limit is 0; for a positive limit the pages are the ceiling of total/limit, zero exactly for an empty list |
| Paging.RowOnItsPage | backend/controllers/transactionController.js:257-301 | with a positive limit, row i is on page `i / limit + 1`, at position `i % limit` of the rows that `OFFSET (page - 1) * limit ROWS FETCH NEXT limit ROWS ONLY` returns |
| Paging.RowOnOnePage | backend/controllers/reservationController.js:133 | with a positive limit, every row is on exactly one page, and that page is within the total page count |
| Payments.OrderGuard | backend/controllers/paymentController.js:18-69 | each refusal of createRazorpayOrder holds exactly when the checks before it pass: no fine id, not the caller's fine, PAID, WAIVED, a non-positive amount |
| Payments.CreateOrder | backend/controllers/paymentController.js:72-110 | on a refusal or a gateway failure the fine row is unchanged; otherwise only its order id is set, and the answer carries the amount in rupees and in paise |
| Payments.SignedMessage | backend/controllers/paymentController.js:176-178 | the signed text is the order id, a bar, then the payment id |
| Payments.VerifyGuard | backend/controllers/paymentController.js:131-187 | each refusal of verifyPayment before the gateway call holds exactly when the earlier checks pass: a missing parameter, not the caller's fine, PAID, a different order id, a wrong signature |
| Payments.GatewayGuard | backend/controllers/paymentController.js:190-218 | refused when the gateway gives no answer, when the status is neither captured nor authorized, when the order id or the amount in paise differs |
| Payments.VerifyPayment | backend/controllers/paymentController.js:221-255 | the fine becomes PAID, with payment id, signature and dates, only when every check passes; any failure leaves the tables unchanged |
| Payments.SignatureBindsPayment | backend/controllers/paymentController.js:176-187 | if the HMAC is one-to-one and verifyPayment accepts a signature for one payment id, the same signature with any other non-empty payment id is refused as an invalid signature |
| Payments.WaivedFineCanBeSettled | backend/controllers/paymentController.js:155-166 | verifyPayment does not refuse a WAIVED fine whose order id and signature match |
| Reservations.BookChecks | backend/controllers/reservationController.js:35-83 | book missing, a copy on the shelf, a PENDING reservation of the pair, an open loan of the pair: each refusal holds exactly when the earlier checks pass |
| Reservations.CreateGuard | backend/controllers/reservationController.js:13-83 | a missing member and an inactive member are refused with different answers before the book checks |
| Reservations.InsertReservation | backend/controllers/reservationController.js:86-100 | one new reservation under a fresh id and nothing else |
| Reservations.CreateReservation | backend/controllers/reservationController.js:5-107 | on a refusal nothing changes; otherwise one new PENDING reservation that expires 30 days after now |
| Reservations.CancelGuard | backend/controllers/reservationController.js:245-262 | 404 for a missing reservation; refused exactly when it is FULFILLED or CANCELLED |
| Reservations.MarkCancelled | backend/controllers/reservationController.js:265-268 | only the reservation's status changes, to CANCELLED |
| Reservations.CancelReservation | backend/controllers/reservationController.js:237-275 | only the status changes; cancelling twice is refused |
| Reservations.FulfillGuard | backend/controllers/reservationController.js:299-329 | 404 for a missing reservation; refused unless AVAILABLE; a server error when its book row is gone; refused when the book has no copy on the shelf |
| Reservations.FulfillReservation | backend/controllers/reservationController.js:331-335 | only the reservation becomes FULFILLED, the book's copies are untouched, and fulfilling twice is refused |
| Reservations.SafeSortBy | backend/controllers/reservationController.js:157-158 | whatever the caller sends, the ORDER BY column is one of the five whitelisted names, and a listed column is used in upper case |
| Reservations.SafeSortOrder | backend/controllers/reservationController.js:159 | the order is ASC or DESC, and ASC exactly when the argument upper-cases to ASC |
| Reservations.SortOrderIgnoresCase | backend/controllers/reservationController.js:159 | every spelling of "asc" sorts ascending |
| MemberAuth.FindByEmail | backend/controllers/memberAuthController.js:11-26 | the member found has the email and no lower id has it; when none is found, no member has it |
| MemberAuth.MemberLogin | backend/controllers/memberAuthController.js:19-62 | "Invalid credentials" exactly for an unknown email or a wrong password of an active member with a hash; "not properly set up" exactly when the hash is missing; "inactive" exactly for a non-ACTIVE member; a session only for the member with that email |
| MemberAuth.ChangePasswordGuard | backend/controllers/memberAuthController.js:96-141 | a new password shorter than 6 is refused first; then a missing member; then a NULL hash is a server error; then a wrong current password is refused |
| MemberAuth.PasswordFlagIrrelevant | backend/controllers/memberAuthController.js:123-141 | the password_changed flag never changes the outcome of the checks |
| MemberAuth.ChangeMemberPassword | backend/controllers/memberAuthController.js:144-153 | only the caller's row changes: the new hash is stored and password_changed becomes 1 |
| MemberAuth.MyBorrowedBooks | backend/controllers/memberAuthController.js:224-231 | the rows are exactly the caller's open loans whose book exists, each once, newest issue first |
| MemberAuth.VisibleFines | backend/controllers/memberAuthController.js:269-279 | the rows are exactly the caller's fine rows whose loan and book exist, in identity order |
| MemberAuth.OverdueLoansOf | backend/controllers/memberAuthController.js:282-291 | the rows are exactly the caller's open loans past due whose book exists |
| MemberAuth.AppendComputed | backend/controllers/memberAuthController.js:323-351 | the loop appends, in row order, one computed entry for each overdue loan without a PENDING fine row |
| MemberAuth.MyFineHistory | backend/controllers/memberAuthController.js:263-358 | every visible fine row appears once; a computed entry with the LateFine amount appears once for exactly each overdue open loan without a PENDING fine; the amount is at least 1; no loan has two computed entries; the list runs newest first |
| MemberAuth.MyReservationGuard | backend/controllers/memberAuthController.js:428-503 | a missing book id is refused first; a missing or non-ACTIVE caller gets one answer; then the desk's book checks |
| MemberAuth.CreateMyReservation | backend/controllers/memberAuthController.js:505-521 | on a refusal nothing changes; otherwise one new PENDING reservation expiring 30 days after now |
| MemberAuth.CancelMineGuard | backend/controllers/memberAuthController.js:551-575 | 404 for a missing reservation, 403 for another member's, refused when FULFILLED or CANCELLED |
| MemberAuth.CancelMyReservation | backend/controllers/memberAuthController.js:577-581 | only the status of the caller's own reservation becomes CANCELLED |
| Members.NewMember | backend/controllers/memberController.js:191-205 | the new row has the given names, the given email, phone and address (each NULL when empty), type STUDENT unless given, status ACTIVE, the temporary hash and password_changed 0 |
| Members.CreateMember | backend/controllers/memberController.js:172-207 | refused exactly when the email is in use; otherwise one new member under a fresh id; the email is then in use; email uniqueness is kept |
| Members.UpdateGuard | backend/controllers/memberController.js:258-285 | 404 for a missing member; refused exactly when another member has the non-empty email |
| Members.OwnEmailAccepted | backend/controllers/memberController.js:271-285 | resending one's own email is accepted while emails are unique |
| Members.UpdatedMember | backend/controllers/memberController.js:288-308 | the names are as given; an absent email, phone or address becomes NULL; type and status default to STUDENT and ACTIVE; the password columns are kept |
| Members.UpdateMember | backend/controllers/memberController.js:242-315 | only that member's row changes, as UpdatedMember says, and email uniqueness is kept |
| Members.DeleteGuard | backend/controllers/memberController.js:333-360 | 404 for a missing member; refused exactly when the member has an open loan |
| Members.DeleteMember | backend/controllers/memberController.js:327-370 | only that member's row is removed, and no open loan names the removed member |
| Members.MemberBorrowedBooks | backend/controllers/memberController.js:443-450 | the rows are exactly the member's open loans whose book exists, each once, newest issue first |
| Books.NewBook | backend/controllers/bookController.js:187-203 | the title and author are as given, ISBN and category are NULL when empty, the copy count is the given one or 1, every copy is on the shelf, and the status is AVAILABLE |
| Books.CreateBook | backend/controllers/bookController.js:172-205 | refused exactly when a non-empty ISBN is in use; otherwise one new book under a fresh id; ISBN uniqueness and, for a non-negative count, the stock invariant are kept |
| Books.NewBookKeepsStock | backend/controllers/bookController.js:187-203 | a new book with all copies on the shelf, under a number no loan names, keeps the stock invariant |
| Books.UpdateGuard | backend/controllers/bookController.js:246-274 | 404 for a missing book; refused exactly when another book has the non-empty ISBN |
| Books.UpdatedBook | backend/controllers/bookController.js:276-304 | the copy count is the given one or 1; the shelf count is the given one, else the new copy count; status defaults to AVAILABLE |
| Books.UpdateBook | backend/controllers/bookController.js:226-311 | only that book's row changes, as UpdatedBook says, and ISBN uniqueness is kept |
| Books.UpdateStockIff | backend/controllers/bookController.js:298 | an update keeps the stock invariant exactly when the new shelf count is the copy count less the open loans and lies in range |
| Books.AbsentAvailableBreaksStock | backend/controllers/bookController.js:298 | leaving available_copies out while copies are on loan breaks the stock invariant |
| Books.DeleteGuard | backend/controllers/bookController.js:329-356 | 404 for a missing book; refused exactly when the book has an open loan |
| Books.DeleteBook | backend/controllers/bookController.js:323-366 | only that book's row is removed, and the stock invariant is kept |
| Books.ParseSearchType | backend/controllers/bookController.js:388-402 | each of the four column names selects its column, and anything else searches all columns |
| Books.SearchBooks | backend/controllers/bookController.js:380-407 | the result is exactly the books the selected WHERE clause keeps, each once |
| Books.ColumnHitIsAnyHit | backend/controllers/bookController.js:401-406 | a hit of a one-column search is also a hit of the all-columns search |
| Books.SearchIgnoresCase | backend/controllers/bookController.js:389-399 | title, author and category searches give the same answer for the query in any case |
| Books.EmptyQueryFindsAll | backend/controllers/bookController.js:386 | an empty query finds every book by title and by the all-columns search |

## Left out

- HTTP routing, request validators and JWT middleware: the model describes each handler as called directly. As a result it includes inputs the routes refuse and handlers no route reaches:
  - validation.js:44-46 refuses a sent total_copies outside 1..999, so the negative count in the CreateBook invariant clause cannot be reached through the route. The field is optional, so an absent total_copies still reaches the `|| 1` defaults of createBook and updateBook.
  - validation.js:67 (the member routes) and routes/memberAuth.js:13 (member login) apply `normalizeEmail`. This rewrites the email before the handlers compare it with `=`; the model compares the email as given.
  - validation.js:126-136 requires member_id and book_id to be integers of at least 1, and due_date to be ISO 8601.
  - validation.js:142-149 trims the search query, requires 1 to 100 characters and whitelists `type`. Books.EmptyQueryFindsAll is about an input this validator refuses.
  - routes/memberAuth.js:15-28 refuse an empty password and an empty current password.
  - Unrouted handlers: renewBook has no route (routes/transactions.js:18-23). createMyReservation and cancelMyReservation have no route (routes/memberAuth.js:37-41). server.js:52-55 mounts no memberAuth, reservations or payments router.
- Concurrency: each handler runs its reads and writes as one step. Interleavings of two requests, such as two issues of the last copy, are not modelled.
- Oracle errors: a non-numeric route id, a malformed due_date string, a NOT NULL or foreign-key violation, and a dropped connection are not modelled. The code answers each with its generic 500.
- `parseFloat`, floating-point amounts and `Math.round`: amounts are whole rupees, so `Math.round(amount * 100)` is exact.
- Unicode: case mapping covers ASCII letters only. Password length counts characters, not UTF-16 code units.
- LIKE patterns: a `%` or `_` typed inside a search query is read as a literal character. An absent `query` (the text "undefined") is not modelled.
- Row order where the SQL has no ORDER BY, as in searchBooks and the login lookup: the model uses identity order and takes the lowest id. Among equal sort keys, the model keeps identity order.
- Column defaults the handlers rely on are assumed, not modelled: issue_date = now, status ISSUED / PENDING / ACTIVE / AVAILABLE, created_at = now.
- Descriptive book columns (publisher, publication_year, price, description) and the response formatting (ISO dates, field renaming) are not modelled.
- The reservation expiry `setDate(getDate() + 30)` is taken as 30 × 24 hours. Calendar days across a daylight-saving change are not modelled.
- A NULL created_at in the fine history (the sort falls back to the due date) is not modelled.
- bcrypt, the random temporary password and the account email: a hash is an input, and the comparison is an input function.
- An absent password: when `password` or `currentPassword` is missing from the request body, bcrypt.compare rejects and memberLogin answers 500 "Login failed" (memberAuthController.js:84), and changeMemberPassword answers 500 "Failed to change password" (memberAuthController.js:165). The model always passes a string, so it answers 401 there.
- getTransactions' filters and its unescaped `sortBy`, getAnalytics, getFineHistory and the other read-only lists outside this model: these only read.
- Transactions.RenewBook and Transactions.RenewGuard: the renewal cap is stated as the code has it (open loans of the pair), which is weaker than a cap on renewals.
- FineRules.LateFineMonotone, Payments.SignatureBindsPayment, Payments.WaivedFineCanBeSettled, Transactions.IssueBesideOverdueLoan and Members.OwnEmailAccepted: these follow from the guards' contracts, so their bodies are empty.
