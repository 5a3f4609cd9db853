/** Points-to-token vouchers of backend/exchange.js: the exchange terms, the
    nonce, voucher creation, and the two ways a voucher's points come back
    (refund after expiry, redeposit while pending). The clock, the random
    draw and the EIP-712 signer are parameters. */
module Exchange {
  import opened Wrappers
  import opened Text
  import opened Db
  import opened Ledger

  /** A voucher is valid for one hour after creation. */
  const VALIDITY_SECONDS: nat := 3600

  /** The nonce is milliseconds * 1_000_000 + a random draw below 1_000_000. */
  const NONCE_SCALE: nat := 1_000_000

  /** One token is 10^18 base units (DECIMALS = 18). */
  const WEI: nat := 1_000_000_000_000_000_000

  // ---------------------------------------------------------------------------
  // Exchange terms

  /** `Math.floor(pointsToSpend / POINTS_PER_TOKEN)`: the largest number of
      whole tokens the points pay for. */
  function TokensFor(points: nat, rate: nat): (tokens: nat)
    requires rate >= 1
    ensures tokens * rate <= points < tokens * rate + rate
    ensures tokens == 0 <==> points < rate
  {
    points / rate
  }

  /** The floor rounding charges at most what was offered and keeps the
      remainder, which is less than one token's price, with the user. */
  lemma {:induction false} UsedPointsBounds(points: nat, rate: nat)
    requires rate >= 1 && points >= rate
    ensures var used := TokensFor(points, rate) * rate;
      0 < used <= points < used + rate
  {
    var tokens := TokensFor(points, rate);
    assert tokens >= 1;
    var k: nat := tokens - 1;
    assert k * rate >= 0;
    assert tokens * rate == k * rate + rate;
  }

  // ---------------------------------------------------------------------------
  // generateUniqueNonceBig

  /** `t * 1_000_000n + r` for the clock `t` (milliseconds) and the draw `r`. */
  function Nonce(t: nat, r: nat): (n: nat)
    requires r < NONCE_SCALE
    ensures n / NONCE_SCALE == t && n % NONCE_SCALE == r
  {
    t * NONCE_SCALE + r
  }

  /** A strictly later clock always gives a strictly larger nonce, whatever
      the two random draws were. */
  lemma {:induction false} NonceOrderedByTime(t1: nat, r1: nat, t2: nat, r2: nat)
    requires r1 < NONCE_SCALE && r2 < NONCE_SCALE && t1 < t2
    ensures Nonce(t1, r1) < Nonce(t2, r2)
  {
    assert t1 * NONCE_SCALE + NONCE_SCALE <= t2 * NONCE_SCALE by {
      assert (t2 - t1) * NONCE_SCALE >= NONCE_SCALE;
    }
  }

  /** Two nonces collide exactly when clock and draw both repeat. */
  lemma NonceInjective(t1: nat, r1: nat, t2: nat, r2: nat)
    requires r1 < NONCE_SCALE && r2 < NONCE_SCALE
    ensures Nonce(t1, r1) == Nonce(t2, r2) <==> t1 == t2 && r1 == r2
  {
  }

  // ---------------------------------------------------------------------------
  // createExchangeVoucher

  /** The voucher object createExchangeVoucher returns and signs: `user` keeps
      the caller's spelling, the big numbers are decimal strings. */
  datatype IssuedVoucher = IssuedVoucher(
    user: string,
    pointsDeducted: nat,
    tokenAmount: string,
    nonce: string,
    deadline: string)

  datatype Created = Created(voucher: IssuedVoucher, signature: string, usedPoints: nat, rate: nat)

  datatype CreateError =
    | MissingAddress        // 'missing address'
    | InvalidPoints         // 'invalid points'
    | InsufficientPoints    // 'insufficient points'
    | BelowMinimum          // 'points must be >= rate'
    | SigningFailed         // signVoucher rejected
    | DuplicateNonce        // saveVoucher hit the PRIMARY KEY on nonce

  /** `UPDATE users SET points = points - used WHERE address = addr`: a
      missing row is not created. */
  function Debit(users: map<string, int>, addr: string, used: int): map<string, int> {
    if addr in users then users[addr := users[addr] - used] else users
  }

  /** The voucher built for `tokens` tokens at `rate`, clock `t`/`now`, draw `r`. */
  function Issue(address: string, tokens: nat, rate: nat, t: nat, r: nat, now: nat): IssuedVoucher
    requires r < NONCE_SCALE
  {
    IssuedVoucher(address, tokens * rate, DecimalString(tokens * WEI),
                  DecimalString(Nonce(t, r)), DecimalString(now + VALIDITY_SECONDS))
  }

  /** createExchangeVoucher, step by step: the validations, the debit, the
      signature, then the insert. The debit and the insert are separate
      writes: when signing fails or the nonce is already stored, the debit has
      happened and no voucher row exists. */
  function Create(s: Tables, address: string, points: int, rate: nat, t: nat, r: nat, now: nat,
                  sign: IssuedVoucher -> Option<string>): Step<Result<Created, CreateError>>
    requires rate >= 1 && r < NONCE_SCALE
  {
    if address == "" then Step(Failure(MissingAddress), s)
    else if points <= 0 then Step(Failure(InvalidPoints), s)
    else
      var addr := Lower(address);
      if Balance(s.users, addr) < points then Step(Failure(InsufficientPoints), s)
      else
        var tokens := TokensFor(points, rate);
        if tokens <= 0 then Step(Failure(BelowMinimum), s)
        else
          var used := tokens * rate;
          var debited := Tables(Debit(s.users, addr, used), s.vouchers);
          var v := Issue(address, tokens, rate, t, r, now);
          match sign(v)
          case None => Step(Failure(SigningFailed), debited)
          case Some(sig) =>
            if v.nonce in s.vouchers then Step(Failure(DuplicateNonce), debited)
            else
              var row := NewRow(v.nonce, address, used, v.tokenAmount, now + VALIDITY_SECONDS, sig);
              Step(Success(Created(v, sig, used, rate)), Tables(debited.users, s.vouchers[v.nonce := row]))
  }

  /** The checks that precede any write, in the code's order, each leaving
      both tables untouched. */
  lemma CreateRejects(s: Tables, address: string, points: int, rate: nat, t: nat, r: nat, now: nat,
                      sign: IssuedVoucher -> Option<string>)
    requires rate >= 1 && r < NONCE_SCALE
    ensures var out := Create(s, address, points, rate, t, r, now, sign);
      && (address == "" ==> out == Step(Failure(MissingAddress), s))
      && (address != "" && points <= 0 ==> out == Step(Failure(InvalidPoints), s))
      && (address != "" && points > 0 && Balance(s.users, address) < points ==>
            out == Step(Failure(InsufficientPoints), s))
      && (address != "" && points > 0 && Balance(s.users, address) >= points && points < rate ==>
            out == Step(Failure(BelowMinimum), s))
  {
    BalanceIgnoresCase(s.users, address);
  }

  /** A successful create debits exactly `used` from the lower-cased address,
      never below zero, stores one pending voucher for it under a fresh nonce
      with deadline now + 3600, and touches nothing else. */
  lemma {:induction false} CreateSucceeds(s: Tables, address: string, points: int, rate: nat, t: nat, r: nat,
                       now: nat, sign: IssuedVoucher -> Option<string>)
    requires rate >= 1 && r < NONCE_SCALE
    requires Create(s, address, points, rate, t, r, now, sign).result.Success?
    ensures var out := Create(s, address, points, rate, t, r, now, sign);
      var c := out.result.value;
      var used := c.usedPoints;
      var n := c.voucher.nonce;
      && address != "" && points >= rate
      && used == TokensFor(points, rate) * rate && c.voucher.pointsDeducted == used
      && 0 < used <= points < used + rate
      && Balance(out.state.users, address) == Balance(s.users, address) - used >= 0
      && Balance(out.state.users, address) >= Balance(s.users, address) - points
      && (forall a :: a != Lower(address) && a in s.users ==> a in out.state.users && out.state.users[a] == s.users[a])
      && out.state.users.Keys == s.users.Keys
      && n !in s.vouchers
      && out.state.vouchers == s.vouchers[n := out.state.vouchers[n]]
      && out.state.vouchers[n].status == Pending
      && out.state.vouchers[n].userAddress == Lower(address)
      && out.state.vouchers[n].pointsDeducted == used
      && out.state.vouchers[n].deadline == now + VALIDITY_SECONDS
      && ParseDecimal(out.state.vouchers[n].tokenAmount) == TokensFor(points, rate) * WEI
      && ParseDecimal(n) == Nonce(t, r) && ParseDecimal(n) / NONCE_SCALE == t
  {
    BalanceIgnoresCase(s.users, address);
    UsedPointsBounds(points, rate);
    var tokens := TokensFor(points, rate);
    DecimalRoundTrip(tokens * WEI);
    DecimalRoundTrip(Nonce(t, r));
  }

  /** Which of the steps after the checks decides the outcome: the create
      succeeds exactly when every check passes, the signer returns a
      signature and the rendered nonce is not yet a key of the table; it
      fails at signing exactly when the checks pass and the signer returns
      nothing; and it hits the primary key exactly when the checks pass, the
      signer answers and the nonce is taken. */
  lemma CreateOutcome(s: Tables, address: string, points: int, rate: nat, t: nat, r: nat, now: nat,
                      sign: IssuedVoucher -> Option<string>)
    requires rate >= 1 && r < NONCE_SCALE
    ensures var out := Create(s, address, points, rate, t, r, now, sign);
      var passes := address != "" && points >= rate && Balance(s.users, address) >= points;
      && (out.result.Success? <==>
            passes && sign(Issue(address, TokensFor(points, rate), rate, t, r, now)).Some?
            && DecimalString(Nonce(t, r)) !in s.vouchers)
      && (out.result == Failure(SigningFailed) <==>
            passes && sign(Issue(address, TokensFor(points, rate), rate, t, r, now)).None?)
      && (out.result == Failure(DuplicateNonce) <==>
            passes && sign(Issue(address, TokensFor(points, rate), rate, t, r, now)).Some?
            && DecimalString(Nonce(t, r)) in s.vouchers)
  {
    BalanceIgnoresCase(s.users, address);
  }

  /** As written, the debit is not undone when the later steps fail: a
      signing failure or a nonce already in the table leaves the balance
      reduced by `used` and no voucher row for it. */
  lemma CreateDebitOutlivesFailedInsert(s: Tables, address: string, points: int, rate: nat, t: nat, r: nat,
                                        now: nat, sign: IssuedVoucher -> Option<string>)
    requires rate >= 1 && r < NONCE_SCALE
    requires Create(s, address, points, rate, t, r, now, sign).result in
      {Failure(SigningFailed), Failure(DuplicateNonce)}
    ensures var out := Create(s, address, points, rate, t, r, now, sign);
      && out.state.vouchers == s.vouchers
      && points >= rate
      && Balance(out.state.users, address) == Balance(s.users, address) - TokensFor(points, rate) * rate
  {
    BalanceIgnoresCase(s.users, address);
  }

  // ---------------------------------------------------------------------------
  // refundExpiredVoucher and redepositVoucher

  /** `SELECT * FROM vouchers WHERE nonce = ? AND user_address = lower(address)`. */
  function Lookup(vs: map<string, Voucher>, address: string, nonce: string): (found: Option<Voucher>)
    ensures found.Some? <==> nonce in vs && vs[nonce].userAddress == Lower(address)
    ensures found.Some? ==> found.value == vs[nonce]
  {
    if nonce in vs && vs[nonce].userAddress == Lower(address) then Some(vs[nonce]) else None
  }

  /** The refund guard: 'expired', or 'pending' with the deadline passed. */
  predicate RefundEligible(v: Voucher, now: int) {
    v.status == Expired || (v.status == Pending && v.deadline < now)
  }

  /** The redeposit guard: 'pending'. The deadline is not consulted. */
  predicate RedepositEligible(v: Voucher) {
    v.status == Pending
  }

  datatype ReturnError = VoucherNotFound | NotExpired | NotPending

  /** What both operations return: the points given back and the new balance. */
  datatype Returned = Returned(amount: int, points: int)

  /** Credit the deduction of `v` to `addr` and give the row its final status. */
  function GiveBack(s: Tables, addr: string, v: Voucher, status: Status): Step<Result<Returned, ReturnError>> {
    var users := Credit(s.users, addr, v.pointsDeducted);
    Step(Success(Returned(v.pointsDeducted, Balance(users, addr))),
         Tables(users, WithStatus(s.vouchers, v.nonce, status)))
  }

  /** refundExpiredVoucher(address, nonce) at clock `now`. */
  function Refund(s: Tables, address: string, nonce: string, now: int): Step<Result<Returned, ReturnError>> {
    var addr := Lower(address);
    match Lookup(s.vouchers, addr, nonce)
    case None => Step(Failure(VoucherNotFound), s)
    case Some(v) =>
      if !RefundEligible(v, now) then Step(Failure(NotExpired), s)
      else GiveBack(s, addr, v, ExpiredRefunded)
  }

  /** redepositVoucher(address, nonce). */
  function Redeposit(s: Tables, address: string, nonce: string): Step<Result<Returned, ReturnError>> {
    var addr := Lower(address);
    match Lookup(s.vouchers, addr, nonce)
    case None => Step(Failure(VoucherNotFound), s)
    case Some(v) =>
      if !RedepositEligible(v) then Step(Failure(NotPending), s)
      else GiveBack(s, addr, v, Redeposited)
  }

  /** A refund succeeds exactly for the caller's own voucher that is
      'expired' or pending past its deadline; it then credits exactly the
      stored deduction, marks the row 'expired_refunded' and reports the
      balance old + refunded. Any other call changes nothing. */
  lemma RefundOutcome(s: Tables, address: string, nonce: string, now: int)
    requires WellFormed(s)
    ensures var out := Refund(s, address, nonce, now);
      && (out.result.Success? <==>
            nonce in s.vouchers && s.vouchers[nonce].userAddress == Lower(address)
            && RefundEligible(s.vouchers[nonce], now))
      && (out.result.Failure? ==> out.state == s)
      && (out.result.Success? ==>
            var v := s.vouchers[nonce];
            && out.result.value.amount == v.pointsDeducted
            && out.result.value.points == Balance(s.users, address) + v.pointsDeducted
            && out.state.users == Credit(s.users, address, v.pointsDeducted)
            && out.state.vouchers == s.vouchers[nonce := v.(status := ExpiredRefunded)])
  {
    LowerIdempotent(address);
    BalanceIgnoresCase(s.users, address);
  }

  /** A redeposit succeeds exactly for the caller's own pending voucher,
      whatever its deadline; it then credits exactly the stored deduction
      and marks the row 'redeposited'. Any other call changes nothing. */
  lemma RedepositOutcome(s: Tables, address: string, nonce: string)
    requires WellFormed(s)
    ensures var out := Redeposit(s, address, nonce);
      && (out.result.Success? <==>
            nonce in s.vouchers && s.vouchers[nonce].userAddress == Lower(address)
            && s.vouchers[nonce].status == Pending)
      && (out.result.Failure? ==> out.state == s)
      && (out.result.Success? ==>
            var v := s.vouchers[nonce];
            && out.result.value.amount == v.pointsDeducted
            && out.result.value.points == Balance(s.users, address) + v.pointsDeducted
            && out.state.users == Credit(s.users, address, v.pointsDeducted)
            && out.state.vouchers == s.vouchers[nonce := v.(status := Redeposited)])
  {
    LowerIdempotent(address);
    BalanceIgnoresCase(s.users, address);
  }

  /** A row marked 'expired_refunded' or 'redeposited' passes neither guard,
      so neither operation can credit it again, for any caller and clock. */
  lemma SettledVoucherRejected(s: Tables, address: string, nonce: string, now: int)
    requires nonce in s.vouchers && s.vouchers[nonce].status in {ExpiredRefunded, Redeposited}
    ensures Refund(s, address, nonce, now).result.Failure?
    ensures Redeposit(s, address, nonce).result.Failure?
    ensures Refund(s, address, nonce, now).state == s && Redeposit(s, address, nonce).state == s
  {
  }

  /** Whichever of the two succeeds first, the voucher it credited is then
      refused by both. */
  lemma {:induction false} CreditedOnce(s: Tables, address: string, nonce: string, now: int,
                                        address2: string, now2: int)
    requires WellFormed(s)
    ensures var a := Refund(s, address, nonce, now);
      a.result.Success? ==> Refund(a.state, address2, nonce, now2).result.Failure?
                            && Redeposit(a.state, address2, nonce).result.Failure?
    ensures var b := Redeposit(s, address, nonce);
      b.result.Success? ==> Refund(b.state, address2, nonce, now2).result.Failure?
                            && Redeposit(b.state, address2, nonce).result.Failure?
  {
    RefundOutcome(s, address, nonce, now);
    RedepositOutcome(s, address, nonce);
    var a := Refund(s, address, nonce, now);
    if a.result.Success? {
      SettledVoucherRejected(a.state, address2, nonce, now2);
    }
    var b := Redeposit(s, address, nonce);
    if b.result.Success? {
      SettledVoucherRejected(b.state, address2, nonce, now2);
    }
  }

  /** The redeposit guard ignores the deadline: a pending voucher past its
      deadline that the sweep has not reached yet can still be redeposited,
      although it is also refundable. */
  lemma RedepositIgnoresDeadline(v: Voucher, now: int)
    requires v.status == Pending && v.deadline < now
    ensures RedepositEligible(v) && RefundEligible(v, now)
  {
  }

  // ---------------------------------------------------------------------------
  // The operations against the database object

  /** createExchangeVoucher(address, pointsToSpend). `t` is Date.now() in
      milliseconds, `r` the random draw, `now` the clock in seconds and
      `sign` the EIP-712 signer. */
  method CreateExchangeVoucher(db: Database, address: string, points: int, rate: nat, t: nat, r: nat,
                               now: nat, sign: IssuedVoucher -> Option<string>)
    returns (res: Result<Created, CreateError>)
    requires db.Valid() && rate >= 1 && r < NONCE_SCALE
    modifies db
    ensures db.Valid()
    ensures Step(res, db.Snapshot()) == Create(old(db.Snapshot()), address, points, rate, t, r, now, sign)
  {
    if address == "" {
      return Failure(MissingAddress);
    }
    if points <= 0 {
      return Failure(InvalidPoints);
    }
    var addr := Lower(address);
    var current := GetPoints(db, addr);
    if current < points {
      return Failure(InsufficientPoints);
    }
    var tokens := points / rate;
    if tokens <= 0 {
      return Failure(BelowMinimum);
    }
    var used := tokens * rate;
    var voucher := Issue(address, tokens, rate, t, r, now);
    // the debit, in its own transaction
    if addr in db.users {
      db.users := db.users[addr := db.users[addr] - used];
    }
    var signature := sign(voucher);
    if signature.None? {
      return Failure(SigningFailed);
    }
    var inserted := SaveVoucher(db, voucher.nonce, address, used, voucher.tokenAmount,
                                now + VALIDITY_SECONDS, signature.value);
    if !inserted {
      return Failure(DuplicateNonce);
    }
    res := Success(Created(voucher, signature.value, used, rate));
  }

  /** refundExpiredVoucher(address, nonce) at clock `now` (seconds). */
  method RefundExpiredVoucher(db: Database, address: string, nonce: string, now: int)
    returns (res: Result<Returned, ReturnError>)
    requires db.Valid()
    modifies db
    ensures db.Valid()
    ensures Step(res, db.Snapshot()) == Refund(old(db.Snapshot()), address, nonce, now)
  {
    var addr := Lower(address);
    var row := Lookup(db.vouchers, addr, nonce);
    if row.None? {
      return Failure(VoucherNotFound);
    }
    var v := row.value;
    if !(v.status == Expired || (v.status == Pending && v.deadline < now)) {
      return Failure(NotExpired);
    }
    var refunded := v.pointsDeducted;
    var _ := AddPoints(db, addr, refunded);
    UpdateVoucherStatus(db, v.nonce, ExpiredRefunded);
    var points := GetPoints(db, addr);
    res := Success(Returned(refunded, points));
  }

  /** redepositVoucher(address, nonce). */
  method RedepositVoucher(db: Database, address: string, nonce: string)
    returns (res: Result<Returned, ReturnError>)
    requires db.Valid()
    modifies db
    ensures db.Valid()
    ensures Step(res, db.Snapshot()) == Redeposit(old(db.Snapshot()), address, nonce)
  {
    var addr := Lower(address);
    var row := Lookup(db.vouchers, addr, nonce);
    if row.None? {
      return Failure(VoucherNotFound);
    }
    var v := row.value;
    if v.status != Pending {
      return Failure(NotPending);
    }
    var restored := v.pointsDeducted;
    var _ := AddPoints(db, addr, restored);
    UpdateVoucherStatus(db, v.nonce, Redeposited);
    var points := GetPoints(db, addr);
    res := Success(Returned(restored, points));
  }
}
