/** Refusals that several controllers answer with the same status and text. */
module Messages {
  import opened Common

  const ErrMemberNotFound := Failure(NotFound, "Member not found")
  const ErrMemberInactive := Failure(BadRequest, "Member account is not active")
  const ErrBookNotFound := Failure(NotFound, "Book not found")
  const ErrFineAlreadyPaid := Failure(BadRequest, "Fine already paid")
}
