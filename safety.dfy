/** What the operations of backend/exchange.js and backend/db.js keep true
    together, over any sequence of calls: the tables stay consistent, no
    balance goes negative, a voucher row only ever changes its status and only
    forwards, and refund and redeposit credit each voucher at most once. */
module Safety {
  import opened Wrappers
  import opened Text
  import opened Db
  import opened Ledger
  import Exchange
  import Burn

  /** The server's configuration: POINTS_PER_TOKEN, the token contract's
      address, and the signer. */
  datatype Config = Config(rate: nat, tokenAddress: string, sign: Exchange.IssuedVoucher -> Option<string>)

  /** One call into the ledger, with the clock and random draws it saw. */
  datatype Op =
    | CreateOp(address: string, points: int, t: nat, r: nat, issuedAt: nat)
    | RefundOp(address: string, nonce: string, now: int)
    | RedepositOp(address: string, nonce: string)
    | SweepOp(now: int)
    | BurnOp(address: string, tokens: int, txHash: string, receipt: Option<Burn.Receipt>)

  predicate ValidOp(op: Op) {
    op.CreateOp? ==> op.r < Exchange.NONCE_SCALE
  }

  predicate ValidOps(ops: seq<Op>) {
    forall i :: 0 <= i < |ops| ==> ValidOp(ops[i])
  }

  /** The tables after one call, whether it succeeded or threw. */
  function Apply(cfg: Config, s: Tables, op: Op): Tables
    requires cfg.rate >= 1 && ValidOp(op)
  {
    match op
    case CreateOp(address, points, t, r, now) =>
      Exchange.Create(s, address, points, cfg.rate, t, r, now, cfg.sign).state
    case RefundOp(address, nonce, now) => Exchange.Refund(s, address, nonce, now).state
    case RedepositOp(address, nonce) => Exchange.Redeposit(s, address, nonce).state
    case SweepOp(now) => Tables(s.users, Sweep(s.vouchers, now))
    case BurnOp(address, tokens, txHash, receipt) =>
      Burn.CreditFromBurn(s, address, tokens, txHash, receipt, cfg.tokenAddress, cfg.rate).state
  }

  /** The call credits back the deduction of voucher `n`. */
  predicate CreditsVoucher(s: Tables, op: Op, n: string) {
    match op
    case RefundOp(address, nonce, now) => nonce == n && Exchange.Refund(s, address, nonce, now).result.Success?
    case RedepositOp(address, nonce) => nonce == n && Exchange.Redeposit(s, address, nonce).result.Success?
    case _ => false
  }

  function Run(cfg: Config, s: Tables, ops: seq<Op>): Tables
    requires cfg.rate >= 1 && ValidOps(ops)
    decreases |ops|
  {
    if ops == [] then s else Run(cfg, Apply(cfg, s, ops[0]), ops[1..])
  }

  /** How many calls of the trace credit voucher `n` back. */
  function CreditCount(cfg: Config, s: Tables, ops: seq<Op>, n: string): nat
    requires cfg.rate >= 1 && ValidOps(ops)
    decreases |ops|
  {
    if ops == [] then 0
    else (if CreditsVoucher(s, ops[0], n) then 1 else 0) + CreditCount(cfg, Apply(cfg, s, ops[0]), ops[1..], n)
  }

  // ---------------------------------------------------------------------------
  // Consistency

  /** The tables as the operations leave them: well formed, every voucher
      owned by an existing user row (the vouchers only come from a create
      that found the owner's row) and carrying a positive deduction, and no
      balance below zero. */
  ghost predicate Sound(s: Tables) {
    && WellFormed(s)
    && (forall n :: n in s.vouchers ==>
          s.vouchers[n].userAddress in s.users && s.vouchers[n].pointsDeducted > 0)
    && (forall a :: a in s.users ==> s.users[a] >= 0)
  }

  lemma EmptySound()
    ensures Sound(Tables(map[], map[]))
  {
  }

  lemma BalanceNonNegative(s: Tables, address: string)
    requires Sound(s)
    ensures Balance(s.users, address) >= 0
  {
  }

  /** A non-negative credit to any address keeps the users table sound. */
  lemma CreditKeepsSound(s: Tables, address: string, delta: int, vs: map<string, Voucher>)
    requires Sound(s) && delta >= 0
    requires WellFormed(Tables(s.users, vs))
    requires forall n :: n in vs ==> vs[n].userAddress in s.users && vs[n].pointsDeducted > 0
    ensures Sound(Tables(Credit(s.users, address, delta), vs))
  {
    BalanceNonNegative(s, address);
  }

  lemma {:induction false} CreateKeepsSound(cfg: Config, s: Tables, address: string, points: int,
                                            t: nat, r: nat, now: nat)
    requires cfg.rate >= 1 && r < Exchange.NONCE_SCALE && Sound(s)
    ensures Sound(Exchange.Create(s, address, points, cfg.rate, t, r, now, cfg.sign).state)
  {
    var out := Exchange.Create(s, address, points, cfg.rate, t, r, now, cfg.sign);
    if address != "" && points > 0 {
      var addr := Lower(address);
      LowerIdempotent(address);
      if Balance(s.users, addr) >= points && Exchange.TokensFor(points, cfg.rate) > 0 {
        Exchange.UsedPointsBounds(points, cfg.rate);
        var used := Exchange.TokensFor(points, cfg.rate) * cfg.rate;
        assert addr in s.users && s.users[addr] >= points >= used > 0;
        var users := Exchange.Debit(s.users, addr, used);
        assert users == s.users[addr := s.users[addr] - used];
        assert out.state.users == users;
        assert Sound(Tables(users, s.vouchers));
        if out.result.Success? {
          var v := Exchange.Issue(address, Exchange.TokensFor(points, cfg.rate), cfg.rate, t, r, now);
          var row := out.state.vouchers[v.nonce];
          assert out.state.vouchers == s.vouchers[v.nonce := row];
          assert row.nonce == v.nonce && row.userAddress == addr && row.pointsDeducted == used;
        }
      }
    }
  }

  /** Every call keeps the tables sound, whatever it returns. */
  lemma {:induction false} ApplyKeepsSound(cfg: Config, s: Tables, op: Op)
    requires cfg.rate >= 1 && ValidOp(op) && Sound(s)
    ensures Sound(Apply(cfg, s, op))
  {
    match op
    case CreateOp(address, points, t, r, now) =>
      CreateKeepsSound(cfg, s, address, points, t, r, now);
    case RefundOp(address, nonce, now) =>
      Exchange.RefundOutcome(s, address, nonce, now);
      var out := Exchange.Refund(s, address, nonce, now);
      if out.result.Success? {
        var v := s.vouchers[nonce];
        var vs := s.vouchers[nonce := v.(status := ExpiredRefunded)];
        CreditKeepsSound(s, address, v.pointsDeducted, vs);
      }
    case RedepositOp(address, nonce) =>
      Exchange.RedepositOutcome(s, address, nonce);
      var out := Exchange.Redeposit(s, address, nonce);
      if out.result.Success? {
        var v := s.vouchers[nonce];
        var vs := s.vouchers[nonce := v.(status := Redeposited)];
        CreditKeepsSound(s, address, v.pointsDeducted, vs);
      }
    case SweepOp(now) =>
      SweepWellFormed(s, now);
      forall n | n in s.vouchers ensures Sweep(s.vouchers, now)[n].userAddress == s.vouchers[n].userAddress
        && Sweep(s.vouchers, now)[n].pointsDeducted == s.vouchers[n].pointsDeducted
      {
        SweepExact(s.vouchers, now, n);
      }
    case BurnOp(address, tokens, txHash, receipt) =>
      var v := Burn.Verdict(address, tokens, txHash, receipt, cfg.tokenAddress, cfg.rate);
      if v.Success? {
        CreditKeepsSound(s, Lower(address), v.value, s.vouchers);
      }
  }

  /** Soundness holds after any sequence of calls from a sound start, in
      particular from the empty tables. */
  lemma {:induction false} RunKeepsSound(cfg: Config, s: Tables, ops: seq<Op>)
    requires cfg.rate >= 1 && ValidOps(ops) && Sound(s)
    ensures Sound(Run(cfg, s, ops))
    decreases |ops|
  {
    if ops != [] {
      ApplyKeepsSound(cfg, s, ops[0]);
      RunKeepsSound(cfg, Apply(cfg, s, ops[0]), ops[1..]);
    }
  }

  // ---------------------------------------------------------------------------
  // Row history

  /** The status moves a row can make in one call: none, the sweep's
      pending to expired, or a settlement from pending or expired. */
  predicate StatusMove(from: Status, to: Status) {
    || from == to
    || (from == Pending && to in {Expired, ExpiredRefunded, Redeposited})
    || (from == Expired && to == ExpiredRefunded)
  }

  predicate Settled(st: Status) {
    st == ExpiredRefunded || st == Redeposited
  }

  /** A voucher row is never deleted, never changes anything but its status,
      and its status only moves forwards. */
  lemma {:induction false} ApplyKeepsRows(cfg: Config, s: Tables, op: Op, n: string)
    requires cfg.rate >= 1 && ValidOp(op) && Sound(s) && n in s.vouchers
    ensures var after := Apply(cfg, s, op).vouchers;
      && n in after
      && after[n] == s.vouchers[n].(status := after[n].status)
      && StatusMove(s.vouchers[n].status, after[n].status)
  {
    match op
    case CreateOp(address, points, t, r, now) =>
      var out := Exchange.Create(s, address, points, cfg.rate, t, r, now, cfg.sign);
      if out.result.Success? {
        Exchange.CreateSucceeds(s, address, points, cfg.rate, t, r, now, cfg.sign);
      }
    case RefundOp(address, nonce, now) =>
      Exchange.RefundOutcome(s, address, nonce, now);
    case RedepositOp(address, nonce) =>
      Exchange.RedepositOutcome(s, address, nonce);
    case SweepOp(now) =>
      SweepExact(s.vouchers, now, n);
    case BurnOp(address, tokens, txHash, receipt) =>
  }

  /** A voucher that has been credited back, and any voucher of any other
      settled status, is never credited by a later call. */
  lemma {:induction false} SettledNeverCredited(cfg: Config, s: Tables, ops: seq<Op>, n: string)
    requires cfg.rate >= 1 && ValidOps(ops) && Sound(s)
    requires n in s.vouchers && Settled(s.vouchers[n].status)
    ensures CreditCount(cfg, s, ops, n) == 0
    decreases |ops|
  {
    if ops != [] {
      var op := ops[0];
      if op.RefundOp? {
        Exchange.SettledVoucherRejected(s, op.address, n, op.now);
      } else if op.RedepositOp? {
        Exchange.SettledVoucherRejected(s, op.address, n, 0);
      }
      ApplyKeepsSound(cfg, s, op);
      ApplyKeepsRows(cfg, s, op, n);
      SettledNeverCredited(cfg, Apply(cfg, s, op), ops[1..], n);
    }
  }

  /** Over any sequence of calls, refund and redeposit together credit a
      voucher's deduction back at most once. */
  lemma {:induction false} AtMostOneCredit(cfg: Config, s: Tables, ops: seq<Op>, n: string)
    requires cfg.rate >= 1 && ValidOps(ops) && Sound(s)
    ensures CreditCount(cfg, s, ops, n) <= 1
    decreases |ops|
  {
    if ops != [] {
      var op := ops[0];
      var next := Apply(cfg, s, op);
      ApplyKeepsSound(cfg, s, op);
      if CreditsVoucher(s, op, n) {
        if op.RefundOp? {
          Exchange.RefundOutcome(s, op.address, n, op.now);
        } else {
          Exchange.RedepositOutcome(s, op.address, n);
        }
        assert n in next.vouchers && Settled(next.vouchers[n].status);
        SettledNeverCredited(cfg, next, ops[1..], n);
      } else {
        AtMostOneCredit(cfg, next, ops[1..], n);
      }
    }
  }
}
