/** The pure decisions of frontend/vouchers.js: the status badge of a voucher
    card (class and text), the buttons it offers, the checks claimVoucher
    makes before it calls the contract, and the points field of the create
    form. `now` is `Math.floor(Date.now() / 1000)`. The rows are those
    getVouchers returns. */
module VoucherView {
  import opened Wrappers
  import opened Db
  import Exchange
  import Ledger

  // ---------------------------------------------------------------------------
  // getVoucherStatusClass / getVoucherStatusText

  /** getVoucherStatusClass: the deadline is tested first, so an overdue
      voucher shows as expired whatever its status says. */
  function StatusClass(v: Voucher, now: int): string {
    if v.deadline < now then "expired"
    else if v.status == Used then "used"
    else "pending"
  }

  /** getVoucherStatusText. */
  function StatusText(v: Voucher, now: int): string {
    if v.deadline < now then "만료됨"
    else if v.status == Used then "사용됨"
    else "사용 가능"
  }

  /** The class names the three texts belong to. */
  function TextForClass(c: string): string {
    if c == "expired" then "만료됨" else if c == "used" then "사용됨" else "사용 가능"
  }

  /** The badge class: 'expired' exactly when the deadline has passed (even
      for a used voucher), otherwise 'used' exactly for status 'used',
      otherwise 'pending'. */
  lemma StatusClassCases(v: Voucher, now: int)
    ensures StatusClass(v, now) in {"expired", "used", "pending"}
    ensures StatusClass(v, now) == "expired" <==> v.deadline < now
    ensures StatusClass(v, now) == "used" <==> v.deadline >= now && v.status == Used
    ensures StatusClass(v, now) == "pending" <==> v.deadline >= now && v.status != Used
  {
  }

  /** Text and class make the same case split in the same order, so the
      badge text always names the badge class. */
  lemma TextAgreesWithClass(v: Voucher, now: int)
    ensures StatusText(v, now) == TextForClass(StatusClass(v, now))
  {
  }

  // ---------------------------------------------------------------------------
  // getVoucherActions (the second declaration, which replaces the first)

  datatype Button = Claim | Refund | Redeposit

  predicate IsSettled(s: Status) {
    s == Used || s == Redeposited || s == ExpiredRefunded
  }

  /** The buttons of a card: none for a settled voucher, the refund button
      for an overdue or expired one, else claim and redeposit. */
  function Actions(v: Voucher, now: int): (bs: seq<Button>) {
    if IsSettled(v.status) then []
    else if v.deadline < now || v.status == Expired then [Refund]
    else [Claim, Redeposit]
  }

  /** The three outcomes of Actions, each with the exact condition. */
  lemma ActionsCases(v: Voucher, now: int)
    ensures Actions(v, now) == [] <==> v.status in {Used, Redeposited, ExpiredRefunded}
    ensures Actions(v, now) == [Refund] <==>
      v.status in {Pending, Expired} && (v.deadline < now || v.status == Expired)
    ensures Actions(v, now) == [Claim, Redeposit] <==> v.status == Pending && v.deadline >= now
  {
  }

  /** The card offers the refund button exactly when the backend's refund
      guard holds at the same clock; it offers redeposit only when the
      backend's redeposit guard holds. The converse fails: an overdue pending
      voucher that the sweep has not reached is redepositable on the server
      but shows only the refund button. */
  lemma ActionsMatchServerGuards(v: Voucher, now: int)
    ensures Refund in Actions(v, now) <==> Exchange.RefundEligible(v, now)
    ensures Redeposit in Actions(v, now) ==> Exchange.RedepositEligible(v)
    ensures Exchange.RedepositEligible(v) && v.deadline < now ==> Redeposit !in Actions(v, now)
    ensures Refund in Actions(v, now) ==> Claim !in Actions(v, now) && Redeposit !in Actions(v, now)
  {
  }

  /** Every row getVouchers sends ('pending' or 'expired') gets at least one
      button: refund, or claim and redeposit. */
  lemma ListedRowsHaveButtons(vs: map<string, Voucher>, address: string, n: string, now: int)
    requires n in Ledger.Listed(vs, address)
    ensures Actions(Ledger.Listed(vs, address)[n], now) != []
  {
  }

  /** The badge does not look at the settled statuses: a redeposited or
      refunded voucher whose deadline is still ahead reads 'available' while
      its card offers no button. */
  lemma BadgeIgnoresSettlement(v: Voucher, now: int)
    requires v.status in {Redeposited, ExpiredRefunded} && v.deadline >= now
    ensures StatusText(v, now) == "사용 가능" && StatusClass(v, now) == "pending"
    ensures Actions(v, now) == []
  {
  }

  // ---------------------------------------------------------------------------
  // claimVoucher, up to the contract call

  datatype ClaimError = NotFound | PastDeadline

  /** `vouchers.find(v => String(v.nonce) === String(nonce))`. */
  function FindByNonce(vs: seq<Voucher>, nonce: string): (found: Option<Voucher>)
    ensures found.None? <==> forall i :: 0 <= i < |vs| ==> vs[i].nonce != nonce
    ensures found.Some? ==> exists i :: 0 <= i < |vs| && vs[i] == found.value && found.value.nonce == nonce
                                        && forall j :: 0 <= j < i ==> vs[j].nonce != nonce
  {
    if vs == [] then None
    else if vs[0].nonce == nonce then Some(vs[0])
    else
      var rest := FindByNonce(vs[1..], nonce);
      assert forall j :: 0 <= j < |vs| - 1 ==> vs[1..][j] == vs[j + 1];
      assert rest.Some? ==> exists i :: 0 <= i < |vs| && vs[i] == rest.value
                                        && forall j :: 0 <= j < i ==> vs[j].nonce != nonce by {
        if rest.Some? {
          var i :| 0 <= i < |vs| - 1 && vs[1..][i] == rest.value
                   && forall j :: 0 <= j < i ==> vs[1..][j].nonce != nonce;
          assert vs[i + 1] == rest.value;
          assert forall j :: 0 <= j < i + 1 ==> vs[j].nonce != nonce by {
            forall j | 0 <= j < i + 1 ensures vs[j].nonce != nonce {
              if j > 0 { assert vs[j] == vs[1..][j - 1]; }
            }
          }
        }
      }
      rest
  }

  /** The checks before the mint: the nonce must be in the fetched list and
      the first voucher found with it must not be past its deadline. */
  function ClaimPrecheck(vs: seq<Voucher>, nonce: string, now: int): (r: Result<Voucher, ClaimError>)
    ensures r == Failure(NotFound) <==> forall i :: 0 <= i < |vs| ==> vs[i].nonce != nonce
    ensures r.Success? ==> r.value in vs && r.value.nonce == nonce && r.value.deadline >= now
    ensures r.Success? <==> FindByNonce(vs, nonce).Some? && FindByNonce(vs, nonce).value.deadline >= now
    ensures r.Success? ==> FindByNonce(vs, nonce) == Some(r.value)
  {
    match FindByNonce(vs, nonce)
    case None => Failure(NotFound)
    case Some(v) => if v.deadline < now then Failure(PastDeadline) else Success(v)
  }

  /** A card that shows the claim button passes the deadline check. */
  lemma ClaimButtonPassesPrecheck(vs: seq<Voucher>, v: Voucher, now: int)
    requires Claim in Actions(v, now)
    requires v in vs && forall w :: w in vs && w.nonce == v.nonce ==> w == v
    ensures ClaimPrecheck(vs, v.nonce, now) == Success(v)
  {
    var i :| 0 <= i < |vs| && vs[i] == v;
  }

  // ---------------------------------------------------------------------------
  // The create-voucher handler's points field

  /** A JavaScript number: NaN, an infinity, or a finite value. */
  datatype JsNumber = NaN | Infinity | NegativeInfinity | Finite(value: real)

  /** `Number.isFinite(pts) && pts > 0 && Number.isInteger(pts)`: the
      points to pass to createVoucher, or None when the handler alerts and
      stops. */
  function PointsInput(pts: JsNumber): (r: Option<nat>)
    ensures r.Some? <==> pts.Finite? && pts.value > 0.0 && pts.value == pts.value.Floor as real
    ensures r.Some? ==> r.value > 0 && r.value as real == pts.value
  {
    if pts.Finite? && pts.value > 0.0 && pts.value == pts.value.Floor as real
    then Some(pts.value.Floor)
    else None
  }

  /** Whatever the handler lets through passes the server's own 'invalid
      points' check. */
  lemma InputPassesServerCheck(pts: JsNumber, s: Tables, address: string, rate: nat, t: nat, r: nat, now: nat,
                               sign: Exchange.IssuedVoucher -> Option<string>)
    requires PointsInput(pts).Some? && rate >= 1 && r < Exchange.NONCE_SCALE && address != ""
    ensures Exchange.Create(s, address, PointsInput(pts).value, rate, t, r, now, sign).result
      != Failure(Exchange.InvalidPoints)
  {
  }
}
