/** The rows of the five tables the controllers read and write: books,
    members, transactions (loans), fine_history and reservations. */
module Schema {
  import opened Common

  datatype BookStatus = BookAvailable | BookUnavailable | BookLost | BookDamaged

  datatype MemberStatus = Active | Inactive | Suspended

  datatype MembershipType = Student | Faculty | Staff

  datatype LoanStatus = Issued | Overdue | Returned | Lost

  datatype FineStatus = Pending | Paid | Waived

  datatype ReservationStatus = ReservationPending | ReservationAvailable | Fulfilled | Cancelled

  /** A loan still holds a copy of its book while it is ISSUED or OVERDUE. */
  predicate IsOpen(s: LoanStatus)
  {
    s == Issued || s == Overdue
  }

  datatype Book = Book(
    isbn: Option<string>,
    title: string,
    author: string,
    category: Option<string>,
    totalCopies: int,
    availableCopies: int,
    status: BookStatus)

  datatype Member = Member(
    firstName: string,
    lastName: string,
    email: Option<string>,
    phone: Option<string>,
    address: Option<string>,
    membershipType: MembershipType,
    status: MemberStatus,
    passwordHash: Option<string>,
    passwordChanged: bool)

  /** `WHERE email = :email`; an empty email binds as NULL and matches nothing. */
  predicate HasEmail(m: Member, email: string)
  {
    email != "" && m.email == Some(email)
  }

  /** One borrow event. Dates are milliseconds; `fineAmount` is whole rupees. */
  datatype Transaction = Transaction(
    memberId: int,
    bookId: int,
    issueDate: int,
    dueDate: int,
    returnDate: Option<int>,
    fineAmount: int,
    status: LoanStatus)

  /** A row of fine_history, with the payment gateway's order id, payment id
      and signature once a payment has been started or verified. */
  datatype Fine = Fine(
    transactionId: int,
    memberId: int,
    amount: int,
    reason: string,
    status: FineStatus,
    createdAt: int,
    paidDate: Option<int>,
    paymentDate: Option<int>,
    orderId: Option<string>,
    paymentId: Option<string>,
    signature: Option<string>)

  datatype Reservation = Reservation(
    memberId: int,
    bookId: int,
    status: ReservationStatus,
    reservationDate: int,
    expiryDate: int)
}
