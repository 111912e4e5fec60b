/** The late-return fine rule (one rupee per started day past the due date)
    and the conversion of rupees to the gateway's minor unit, paise. */
module FineRules {
  import opened Common

  /** Rupees charged per day of lateness. */
  const FinePerDay: int := 1

  /** The fine for an item due at `due` and returned (or looked at) at `at`:
      Math.ceil((at - due) / DAY) * 1 when `at` is past `due`, else 0. */
  function LateFine(due: int, at: int): (fine: int)
    ensures fine >= 0
    ensures fine == 0 <==> at <= due
    ensures at > due ==> (fine - 1) * DAY < at - due <= fine * DAY
  {
    if at > due then (at - due + DAY - 1) / DAY * FinePerDay else 0
  }

  /** A minute late costs a whole day; exactly k days late costs k rupees. */
  lemma {:induction false} LateFineWholeDays(due: int, k: nat)
    ensures LateFine(due, due + k * DAY) == k
    ensures LateFine(due, due + k * DAY + 1) == k + 1
  {
    var f := LateFine(due, due + k * DAY);
    if k > 0 {
      assert (f - 1) * DAY < k * DAY <= f * DAY;
      assert f - 1 < k <= f;
    }
    var g := LateFine(due, due + k * DAY + 1);
    assert (g - 1) * DAY < k * DAY + 1 <= g * DAY;
    assert (g - 1) * DAY <= k * DAY;
    assert k < g;
  }

  /** The fine never decreases as the return date moves later. */
  lemma {:induction false} LateFineMonotone(due: int, at1: int, at2: int)
    requires at1 <= at2
    ensures LateFine(due, at1) <= LateFine(due, at2)
  {
  }

  /** Paise per rupee: Math.round(amount * 100) on a whole-rupee amount. */
  function InPaise(rupees: int): (paise: int)
    ensures paise / 100 == rupees && paise % 100 == 0
    ensures paise > 0 <==> rupees > 0
  {
    rupees * 100
  }
}
