/** The database helpers of backend/exchange.js: the points ledger
    (getPoints, setPoints, addPoints) and the voucher rows (getVouchers,
    saveVoucher, updateVoucherStatus). Every address is lower-cased before it
    reaches a table. */
module Ledger {
  import opened Text
  import opened Db

  // ---------------------------------------------------------------------------
  // Specification on table values

  /** The balance getPoints reports: the stored points of the lower-cased
      address, or 0 when it has no row. */
  function Balance(users: map<string, int>, address: string): int {
    var a := Lower(address);
    if a in users then users[a] else 0
  }

  /** The users table after addPoints(address, delta). */
  function Credit(users: map<string, int>, address: string, delta: int): map<string, int> {
    users[Lower(address) := Balance(users, address) + delta]
  }

  /** getPoints of an address without a row is 0. */
  lemma BalanceOfUnknown(users: map<string, int>, address: string)
    requires Lower(address) !in users
    ensures Balance(users, address) == 0
  {
  }

  /** getPoints does not see the case of the address it is given. */
  lemma BalanceIgnoresCase(users: map<string, int>, address: string)
    ensures Balance(users, Lower(address)) == Balance(users, address)
  {
    LowerIdempotent(address);
  }

  /** addPoints(a, d) moves a's balance to old + d, adds at most the row of
      lower(a), and leaves every other address where it was. */
  lemma CreditEffect(users: map<string, int>, address: string, delta: int, other: string)
    ensures Balance(Credit(users, address, delta), address) == Balance(users, address) + delta
    ensures Credit(users, address, delta).Keys == users.Keys + {Lower(address)}
    ensures Lower(other) != Lower(address) ==>
      Balance(Credit(users, address, delta), other) == Balance(users, other)
  {
  }

  /** The rows getVouchers lists: those of the lower-cased address whose
      status is 'pending' or 'expired'. */
  function Listed(vs: map<string, Voucher>, address: string): (ls: map<string, Voucher>)
    ensures ls.Keys <= vs.Keys
    ensures forall n :: n in ls ==> ls[n] == vs[n]
    ensures forall n :: n in vs ==>
      (n in ls <==> vs[n].userAddress == Lower(address) && vs[n].status in {Pending, Expired})
  {
    map n | n in vs && vs[n].userAddress == Lower(address) && vs[n].status in {Pending, Expired} :: vs[n]
  }

  /** The row saveVoucher inserts for a voucher: owner lower-cased, status
      'pending'. */
  function NewRow(nonce: string, user: string, pointsDeducted: int, tokenAmount: string,
                  deadline: int, signature: string): Voucher
  {
    Voucher(nonce, Lower(user), pointsDeducted, tokenAmount, deadline, signature, Pending)
  }

  /** updateVoucherStatus: the row under `nonce`, if any, gets `status`. */
  function WithStatus(vs: map<string, Voucher>, nonce: string, status: Status): (ws: map<string, Voucher>)
    ensures ws.Keys == vs.Keys
    ensures forall n :: n in vs && n != nonce ==> ws[n] == vs[n]
    ensures nonce in vs ==> ws[nonce] == vs[nonce].(status := status)
  {
    if nonce in vs then vs[nonce := vs[nonce].(status := status)] else vs
  }

  // ---------------------------------------------------------------------------
  // The helpers themselves, against the database object

  /** getPoints(address). */
  method GetPoints(db: Database, address: string) returns (p: int)
    ensures p == Balance(db.users, address)
    ensures Lower(address) !in db.users ==> p == 0
  {
    var a := Lower(address);
    if a in db.users {
      p := db.users[a];
    } else {
      p := 0;
    }
  }

  /** setPoints(address, value): upsert of the lower-cased address. */
  method SetPoints(db: Database, address: string, value: int) returns (r: int)
    requires db.Valid()
    modifies db
    ensures db.Valid()
    ensures db.users == old(db.users)[Lower(address) := value]
    ensures db.vouchers == old(db.vouchers)
    ensures r == value && Balance(db.users, address) == value
  {
    LowerIdempotent(address);
    db.users := db.users[Lower(address) := value];
    r := value;
  }

  /** addPoints(address, delta) = setPoints(address, getPoints(address) + delta). */
  method AddPoints(db: Database, address: string, delta: int) returns (r: int)
    requires db.Valid()
    modifies db
    ensures db.Valid()
    ensures db.users == Credit(old(db.users), address, delta)
    ensures db.vouchers == old(db.vouchers)
    ensures r == old(Balance(db.users, address)) + delta && r == Balance(db.users, address)
  {
    var p := GetPoints(db, address);
    r := SetPoints(db, address, p + delta);
  }

  /** getVouchers(address). The ORDER BY created_at is not modelled. */
  method GetVouchers(db: Database, address: string) returns (ls: map<string, Voucher>)
    ensures ls == Listed(db.vouchers, address)
  {
    ls := Listed(db.vouchers, address);
  }

  /** saveVoucher: INSERT of a new row; the PRIMARY KEY on nonce makes the
      statement fail, changing nothing, when the nonce is already stored. */
  method SaveVoucher(db: Database, nonce: string, user: string, pointsDeducted: int,
                     tokenAmount: string, deadline: int, signature: string) returns (inserted: bool)
    requires db.Valid()
    modifies db
    ensures db.Valid()
    ensures inserted <==> nonce !in old(db.vouchers)
    ensures db.vouchers == if inserted
      then old(db.vouchers)[nonce := NewRow(nonce, user, pointsDeducted, tokenAmount, deadline, signature)]
      else old(db.vouchers)
    ensures db.users == old(db.users)
  {
    if nonce in db.vouchers {
      inserted := false;
    } else {
      db.vouchers := db.vouchers[nonce := NewRow(nonce, user, pointsDeducted, tokenAmount, deadline, signature)];
      inserted := true;
    }
  }

  /** updateVoucherStatus(nonce, status). */
  method UpdateVoucherStatus(db: Database, nonce: string, status: Status)
    requires db.Valid()
    modifies db
    ensures db.Valid()
    ensures db.vouchers == WithStatus(old(db.vouchers), nonce, status)
    ensures db.users == old(db.users)
  {
    db.vouchers := WithStatus(db.vouchers, nonce, status);
  }
}
