/** Online fine payment through the Razorpay gateway
    (backend/controllers/paymentController.js): opening a gateway order for a
    fine, then verifying the signed payment and marking the fine PAID.
    The gateway and the HMAC-SHA256 function are inputs. */
module Payments {
  import opened Common
  import opened Schema
  import opened FineRules
  import opened Store
  import opened Messages

  const ErrFineIdRequired := Failure(BadRequest, "Fine ID is required")
  const ErrFineNotOwned := Failure(NotFound, "Fine not found or you do not have permission to pay this fine")
  const ErrFineWaived := Failure(BadRequest, "Fine has been waived")
  const ErrInvalidAmount := Failure(BadRequest, "Invalid fine amount")
  const ErrOrderFailed := Failure(ServerError, "Failed to create payment order")
  const ErrMissingParams := Failure(BadRequest, "Missing required payment parameters")
  const ErrInvalidOrderId := Failure(BadRequest, "Invalid order ID")
  const ErrInvalidSignature := Failure(BadRequest, "Invalid payment signature")
  const ErrGatewayFailed := Failure(ServerError, "Failed to verify payment with Razorpay")
  const ErrOrderMismatch := Failure(BadRequest, "Order ID mismatch")
  const ErrAmountMismatch := Failure(BadRequest, "Amount mismatch")

  function ErrPaymentNotSuccessful(status: string): Failure
  {
    Failure(BadRequest, "Payment not successful. Status: " + status)
  }

  /** What `razorpay.orders.create` answers, or None when it throws. */
  datatype GatewayOrder = GatewayOrder(id: string, currency: string)

  /** What `razorpay.payments.fetch` answers. */
  datatype GatewayPayment = GatewayPayment(status: string, orderId: string, amount: int)

  /** The data of a successful createRazorpayOrder answer. */
  datatype OrderInfo = OrderInfo(orderId: string, amount: int, amountInPaise: int, currency: string, keyId: string)

  /** The data of a successful verifyPayment answer. */
  datatype Receipt = Receipt(fineId: int, paymentId: string, orderId: string)

  /** The fine exists and belongs to the caller:
      `WHERE fine_id = :fine_id AND member_id = :member_id`. */
  predicate OwnedBy(fines: map<int, Fine>, fineId: int, caller: int)
  {
    fineId in fines && fines[fineId].memberId == caller
  }

  /** createRazorpayOrder's checks in source order; `fineId` 0 is an absent field. */
  function OrderGuard(fines: map<int, Fine>, caller: int, fineId: int): (f: Option<Failure>)
    ensures f == Some(ErrFineIdRequired) <==> fineId == 0
    ensures f == Some(ErrFineNotOwned) <==> fineId != 0 && !OwnedBy(fines, fineId, caller)
    ensures f == Some(ErrFineAlreadyPaid) <==> fineId != 0 && OwnedBy(fines, fineId, caller) && fines[fineId].status == Paid
    ensures f == Some(ErrFineWaived) <==> fineId != 0 && OwnedBy(fines, fineId, caller) && fines[fineId].status == Waived
    ensures f == Some(ErrInvalidAmount) <==>
      fineId != 0 && OwnedBy(fines, fineId, caller) && fines[fineId].status.Pending? && fines[fineId].amount <= 0
    ensures f.None? <==>
      fineId != 0 && OwnedBy(fines, fineId, caller) && fines[fineId].status.Pending? && fines[fineId].amount > 0
  {
    if fineId == 0 then Some(ErrFineIdRequired)
    else if !OwnedBy(fines, fineId, caller) then Some(ErrFineNotOwned)
    else if fines[fineId].status == Paid then Some(ErrFineAlreadyPaid)
    else if fines[fineId].status == Waived then Some(ErrFineWaived)
    else if fines[fineId].amount <= 0 then Some(ErrInvalidAmount)
    else None
  }

  /** createRazorpayOrder. `order` is the gateway's answer to the order request
      (None: the call threw). Only the fine's gateway order id is written. */
  method CreateOrder(db: Database, caller: int, fineId: int, order: Option<GatewayOrder>, keyId: string)
    returns (r: Result<OrderInfo>)
    requires db.Valid()
    modifies db`fines
    ensures db.Valid()
    ensures OrderGuard(old(db.fines), caller, fineId).Some? ==>
      r == Err(OrderGuard(old(db.fines), caller, fineId).value) && unchanged(db)
    ensures OrderGuard(old(db.fines), caller, fineId).None? && order.None? ==>
      r == Err(ErrOrderFailed) && unchanged(db)
    ensures OrderGuard(old(db.fines), caller, fineId).None? && order.Some? ==>
      var amount := old(db.fines)[fineId].amount;
      && r == Ok(OrderInfo(order.value.id, amount, InPaise(amount), order.value.currency, keyId))
      && db.fines == old(db.fines)[fineId := old(db.fines)[fineId].(orderId := Some(order.value.id))]
  {
    var f := OrderGuard(db.fines, caller, fineId);
    if f.Some? {
      return Err(f.value);
    }
    if order.None? {
      return Err(ErrOrderFailed);
    }
    var fine := db.fines[fineId];
    db.fines := db.fines[fineId := fine.(orderId := Some(order.value.id))];
    r := Ok(OrderInfo(order.value.id, fine.amount, InPaise(fine.amount), order.value.currency, keyId));
  }

  /** The text the gateway signs: `${razorpay_order_id}|${razorpay_payment_id}`. */
  function SignedMessage(orderId: string, paymentId: string): (msg: string)
    ensures |msg| == |orderId| + 1 + |paymentId|
    ensures msg[..|orderId|] == orderId && msg[|orderId|] == '|' && msg[|orderId| + 1..] == paymentId
  {
    orderId + "|" + paymentId
  }

  /** verifyPayment's checks before the gateway is asked, in source order.
      "" and 0 are absent fields; `hmac(key, text)` is the hex HMAC-SHA256. */
  function VerifyGuard(fines: map<int, Fine>, caller: int, orderId: string, paymentId: string, signature: string,
                       fineId: int, hmac: (string, string) -> string, secret: string): (f: Option<Failure>)
    ensures f == Some(ErrMissingParams) <==> orderId == "" || paymentId == "" || signature == "" || fineId == 0
    ensures f == Some(ErrFineNotOwned) <==>
      orderId != "" && paymentId != "" && signature != "" && fineId != 0 && !OwnedBy(fines, fineId, caller)
    ensures f == Some(ErrFineAlreadyPaid) <==>
      orderId != "" && paymentId != "" && signature != "" && fineId != 0 && OwnedBy(fines, fineId, caller)
      && fines[fineId].status == Paid
    ensures f == Some(ErrInvalidOrderId) <==>
      orderId != "" && paymentId != "" && signature != "" && fineId != 0 && OwnedBy(fines, fineId, caller)
      && fines[fineId].status != Paid && fines[fineId].orderId != Some(orderId)
    ensures f == Some(ErrInvalidSignature) <==>
      orderId != "" && paymentId != "" && signature != "" && fineId != 0 && OwnedBy(fines, fineId, caller)
      && fines[fineId].status != Paid && fines[fineId].orderId == Some(orderId)
      && hmac(secret, SignedMessage(orderId, paymentId)) != signature
    ensures f.None? <==>
      orderId != "" && paymentId != "" && signature != "" && fineId != 0 && OwnedBy(fines, fineId, caller)
      && fines[fineId].status != Paid && fines[fineId].orderId == Some(orderId)
      && hmac(secret, SignedMessage(orderId, paymentId)) == signature
  {
    if orderId == "" || paymentId == "" || signature == "" || fineId == 0 then Some(ErrMissingParams)
    else if !OwnedBy(fines, fineId, caller) then Some(ErrFineNotOwned)
    else if fines[fineId].status == Paid then Some(ErrFineAlreadyPaid)
    else if fines[fineId].orderId != Some(orderId) then Some(ErrInvalidOrderId)
    else if hmac(secret, SignedMessage(orderId, paymentId)) != signature then Some(ErrInvalidSignature)
    else None
  }

  /** The three comparisons against the payment record the gateway returns;
      None for the record stands for a fetch that threw. */
  function GatewayGuard(payment: Option<GatewayPayment>, orderId: string, amount: int): (f: Option<Failure>)
    ensures f == Some(ErrGatewayFailed) <==> payment.None?
    ensures payment.Some? && payment.value.status != "captured" && payment.value.status != "authorized" ==>
      f == Some(ErrPaymentNotSuccessful(payment.value.status))
    ensures f == Some(ErrOrderMismatch) <==>
      payment.Some? && payment.value.status in ["captured", "authorized"] && payment.value.orderId != orderId
    ensures f == Some(ErrAmountMismatch) <==>
      payment.Some? && payment.value.status in ["captured", "authorized"] && payment.value.orderId == orderId
      && payment.value.amount != InPaise(amount)
    ensures f.None? <==>
      payment.Some? && payment.value.status in ["captured", "authorized"] && payment.value.orderId == orderId
      && payment.value.amount == InPaise(amount)
  {
    if payment.None? then Some(ErrGatewayFailed)
    else
      var p := payment.value;
      if p.status != "captured" && p.status != "authorized" then Some(ErrPaymentNotSuccessful(p.status))
      else if p.orderId != orderId then Some(ErrOrderMismatch)
      else if p.amount != InPaise(amount) then Some(ErrAmountMismatch)
      else None
  }

  /** The fine row once a payment is verified. */
  function Settled(fine: Fine, paymentId: string, signature: string, now: int): Fine
  {
    fine.(status := Paid, paidDate := Some(now), paymentId := Some(paymentId), signature := Some(signature),
          paymentDate := Some(now))
  }

  /** verifyPayment. The fine is written only when every check passes. */
  method VerifyPayment(db: Database, caller: int, orderId: string, paymentId: string, signature: string, fineId: int,
                       hmac: (string, string) -> string, secret: string, payment: Option<GatewayPayment>, now: int)
    returns (r: Result<Receipt>)
    requires db.Valid()
    modifies db`fines
    ensures db.Valid()
    ensures VerifyGuard(old(db.fines), caller, orderId, paymentId, signature, fineId, hmac, secret).Some? ==>
      r == Err(VerifyGuard(old(db.fines), caller, orderId, paymentId, signature, fineId, hmac, secret).value)
      && unchanged(db)
    ensures VerifyGuard(old(db.fines), caller, orderId, paymentId, signature, fineId, hmac, secret).None? ==>
      var g := GatewayGuard(payment, orderId, old(db.fines)[fineId].amount);
      && (g.Some? ==> r == Err(g.value) && unchanged(db))
      && (g.None? ==> r == Ok(Receipt(fineId, paymentId, orderId))
                      && db.fines == old(db.fines)[fineId := Settled(old(db.fines)[fineId], paymentId, signature, now)])
    ensures r.Err? ==> unchanged(db)
  {
    var f := VerifyGuard(db.fines, caller, orderId, paymentId, signature, fineId, hmac, secret);
    if f.Some? {
      return Err(f.value);
    }
    var fine := db.fines[fineId];
    var g := GatewayGuard(payment, orderId, fine.amount);
    if g.Some? {
      return Err(g.value);
    }
    db.fines := db.fines[fineId := Settled(fine, paymentId, signature, now)];
    r := Ok(Receipt(fineId, paymentId, orderId));
  }

  /** When the HMAC under the merchant secret is one-to-one, a signature
      accepted for one payment id of an order is refused for every other:
      the signed text determines the payment id, so verifyPayment answers
      "Invalid payment signature" for any other non-empty payment id. */
  lemma {:induction false} SignatureBindsPayment(fines: map<int, Fine>, caller: int, orderId: string,
                                                 paymentId: string, otherId: string, fineId: int,
                                                 hmac: (string, string) -> string, secret: string)
    requires forall m1, m2 :: hmac(secret, m1) == hmac(secret, m2) ==> m1 == m2
    requires VerifyGuard(fines, caller, orderId, paymentId, hmac(secret, SignedMessage(orderId, paymentId)),
                         fineId, hmac, secret).None?
    requires otherId != paymentId && otherId != ""
    ensures hmac(secret, SignedMessage(orderId, otherId)) != hmac(secret, SignedMessage(orderId, paymentId))
    ensures VerifyGuard(fines, caller, orderId, otherId, hmac(secret, SignedMessage(orderId, paymentId)),
                        fineId, hmac, secret) == Some(ErrInvalidSignature)
  {
  }

  /** A fine that the gateway order was opened for can still be refused by
      verifyPayment only for the reasons listed above: a WAIVED fine is not
      among them, so a waived fine whose order id matches is settled. */
  lemma {:induction false} WaivedFineCanBeSettled(fines: map<int, Fine>, caller: int, orderId: string, paymentId: string,
                                                  fineId: int, hmac: (string, string) -> string, secret: string)
    requires orderId != "" && paymentId != "" && fineId != 0
    requires OwnedBy(fines, fineId, caller) && fines[fineId].status == Waived && fines[fineId].orderId == Some(orderId)
    requires hmac(secret, SignedMessage(orderId, paymentId)) != ""
    ensures VerifyGuard(fines, caller, orderId, paymentId, hmac(secret, SignedMessage(orderId, paymentId)),
                        fineId, hmac, secret).None?
  {
  }
}
