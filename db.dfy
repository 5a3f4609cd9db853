/** The SQLite store of backend/db.js: a `users` table keyed by lower-cased
    address and a `vouchers` table keyed by nonce, plus the periodic sweep
    that marks overdue pending vouchers as expired. */
module Db {
  import opened Text

  /** The status strings the code writes or tests: 'pending' (the column
      default and the value saveVoucher writes), 'expired' (the sweep),
      'expired_refunded' and 'redeposited' (the two credits), and 'used',
      which only the frontend tests for. */
  datatype Status = Pending | Expired | ExpiredRefunded | Redeposited | Used

  /** One row of `vouchers`. `tokenAmount` is the TEXT column holding the
      base-unit amount as a decimal string. */
  datatype Voucher = Voucher(
    nonce: string,
    userAddress: string,
    pointsDeducted: int,
    tokenAmount: string,
    deadline: int,
    signature: string,
    status: Status)

  /** The two tables. A map models a PRIMARY KEY: at most one row per key. */
  datatype Tables = Tables(users: map<string, int>, vouchers: map<string, Voucher>)

  /** What an operation returned together with the tables it left behind. */
  datatype Step<R> = Step(result: R, state: Tables)

  /** The shape every write of the code keeps: user rows are keyed by
      lower-cased address, and each voucher row sits under its own nonce and
      belongs to a lower-cased address. */
  ghost predicate WellFormed(t: Tables) {
    && (forall a :: a in t.users ==> IsLowerCase(a))
    && (forall n :: n in t.vouchers ==>
          t.vouchers[n].nonce == n && IsLowerCase(t.vouchers[n].userAddress))
  }

  // ---------------------------------------------------------------------------
  // cleanupExpiredVouchers: UPDATE vouchers SET status = 'expired'
  //                         WHERE status = 'pending' AND deadline < now

  predicate Overdue(v: Voucher, now: int) {
    v.status == Pending && v.deadline < now
  }

  /** The nonces the sweep's WHERE clause selects. */
  function OverdueNonces(vs: map<string, Voucher>, now: int): (ns: set<string>)
    ensures forall n :: n in ns <==> n in vs && Overdue(vs[n], now)
  {
    set n | n in vs && Overdue(vs[n], now)
  }

  function SweptRow(v: Voucher, now: int): Voucher {
    if Overdue(v, now) then v.(status := Expired) else v
  }

  /** The vouchers table after the sweep. */
  function Sweep(vs: map<string, Voucher>, now: int): (ws: map<string, Voucher>)
    ensures ws.Keys == vs.Keys
  {
    map n | n in vs :: SweptRow(vs[n], now)
  }

  /** The sweep sets 'expired' on exactly the overdue pending rows, changes
      no other column of them, and leaves every other row as it was. */
  lemma SweepExact(vs: map<string, Voucher>, now: int, n: string)
    requires n in vs
    ensures n in Sweep(vs, now)
    ensures n in OverdueNonces(vs, now) ==> Sweep(vs, now)[n] == vs[n].(status := Expired)
    ensures n !in OverdueNonces(vs, now) ==> Sweep(vs, now)[n] == vs[n]
  {
  }

  /** A second sweep with the same clock finds nothing to update. */
  lemma {:induction false} SweepIdempotent(vs: map<string, Voucher>, now: int)
    ensures OverdueNonces(Sweep(vs, now), now) == {}
    ensures Sweep(Sweep(vs, now), now) == Sweep(vs, now)
  {
    var ws := Sweep(vs, now);
    forall n | n in ws ensures !Overdue(ws[n], now) {
      assert ws[n] == SweptRow(vs[n], now);
    }
    assert OverdueNonces(ws, now) == {};
  }

  /** The sweep keeps the invariants of the tables. */
  lemma SweepWellFormed(t: Tables, now: int)
    requires WellFormed(t)
    ensures WellFormed(Tables(t.users, Sweep(t.vouchers, now)))
  {
    var ws := Sweep(t.vouchers, now);
    forall n | n in ws
      ensures ws[n].nonce == n && IsLowerCase(ws[n].userAddress)
    {
      assert ws[n] == SweptRow(t.vouchers[n], now);
    }
  }

  // ---------------------------------------------------------------------------
  // The database object

  class Database {
    var users: map<string, int>
    var vouchers: map<string, Voucher>

    function Snapshot(): Tables
      reads this
    {
      Tables(users, vouchers)
    }

    ghost predicate Valid()
      reads this
    {
      WellFormed(Snapshot())
    }

    /** CREATE TABLE IF NOT EXISTS on a fresh file: both tables empty. */
    constructor ()
      ensures Valid()
      ensures users == map[] && vouchers == map[]
    {
      users := map[];
      vouchers := map[];
    }

    /** cleanupExpiredVouchers: the bulk conditional UPDATE, returning the
        number of rows it changed. The clock is a parameter. */
    method CleanupExpiredVouchers(now: int) returns (changes: nat)
      requires Valid()
      modifies this
      ensures Valid()
      ensures vouchers == Sweep(old(vouchers), now) && users == old(users)
      ensures changes == |OverdueNonces(old(vouchers), now)|
    {
      SweepWellFormed(Snapshot(), now);
      changes := |OverdueNonces(vouchers, now)|;
      vouchers := Sweep(vouchers, now);
    }
  }
}
