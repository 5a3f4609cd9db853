/** Token-to-points: creditFromBurnTx in backend/exchange.js. The receipt the
    JSON-RPC provider returns, and the logs the token ABI decodes, are given
    as data. */
module Burn {
  import opened Wrappers
  import opened Text
  import opened Db
  import opened Ledger
  import Exchange

  /** A receipt log as the token interface decodes it: a `Burned(from,
      amount)` event, or anything else (another event, or a log parseLog
      cannot decode, whose exception the loop swallows). */
  datatype Log = Burned(from: string, amount: nat) | OtherLog

  /** The fields of the transaction receipt the check reads. */
  datatype Receipt = Receipt(status: int, to: Option<string>, logs: seq<Log>)

  datatype BurnError =
    | MissingAddress       // 'missing address'
    | InvalidTokens        // 'invalid tokens'
    | InvalidTxHash        // 'invalid tx hash'
    | TxNotFoundOrFailed   // 'transaction not found or failed'
    | TargetMismatch       // 'tx target mismatch'
    | BurnEventNotFound    // 'burn event not found'
    | BurnedFromMismatch   // 'burned-from mismatch'
    | AmountMismatch       // 'burn amount mismatch'

  datatype Credited = Credited(credited: int, points: int, rate: nat)

  // ---------------------------------------------------------------------------
  // The first Burned log

  /** The first `Burned` log of the receipt, if there is one. */
  function FirstBurned(logs: seq<Log>): Option<Log>
  {
    if logs == [] then None
    else if logs[0].Burned? then Some(logs[0])
    else FirstBurned(logs[1..])
  }

  /** FirstBurned picks the Burned log with no Burned log before it, and
      finds nothing only when there is no Burned log at all. */
  lemma {:induction false} FirstBurnedIsFirst(logs: seq<Log>)
    ensures FirstBurned(logs).None? <==> forall i :: 0 <= i < |logs| ==> !logs[i].Burned?
    ensures FirstBurned(logs).Some? ==>
      exists i :: 0 <= i < |logs| && logs[i] == FirstBurned(logs).value
                  && forall j :: 0 <= j < i ==> !logs[j].Burned?
    ensures FirstBurned(logs).Some? ==> FirstBurned(logs).value.Burned?
  {
    if logs != [] && !logs[0].Burned? {
      FirstBurnedIsFirst(logs[1..]);
      if FirstBurned(logs).Some? {
        var i :| 0 <= i < |logs[1..]| && logs[1..][i] == FirstBurned(logs).value
                 && forall j :: 0 <= j < i ==> !logs[1..][j].Burned?;
        assert logs[i + 1] == FirstBurned(logs).value;
        forall j | 0 <= j < i + 1 ensures !logs[j].Burned? {
          if j > 0 { assert logs[j] == logs[1..][j - 1]; }
        }
      }
    }
  }

  /** The `for (const log of rec.logs)` loop that breaks at the first log
      decoded as `Burned`. */
  method FindBurned(logs: seq<Log>) returns (found: Option<Log>)
    ensures found == FirstBurned(logs)
  {
    found := None;
    var i := 0;
    while i < |logs|
      invariant 0 <= i <= |logs|
      invariant found.None? ==> FirstBurned(logs) == FirstBurned(logs[i..])
      invariant found.Some? ==> found == FirstBurned(logs)
      decreases |logs| - i
    {
      assert logs[i..] == [logs[i]] + logs[i + 1..];
      if logs[i].Burned? {
        found := Some(logs[i]);
        break;
      }
      i := i + 1;
    }
    if found.None? {
      assert logs[i..] == [];
    }
  }

  // ---------------------------------------------------------------------------
  // The verdict

  /** The checks of creditFromBurnTx in their order. On success the result is
      the number of points to credit, tokens * rate. */
  function Verdict(userAddress: string, tokens: int, txHash: string, receipt: Option<Receipt>,
                   tokenAddress: string, rate: nat): Result<nat, BurnError>
  {
    var addr := Lower(userAddress);
    if addr == "" then Failure(MissingAddress)
    else if tokens <= 0 then Failure(InvalidTokens)
    else if !IsHexKey(txHash) then Failure(InvalidTxHash)
    else if receipt.None? || receipt.value.status != 1 then Failure(TxNotFoundOrFailed)
    else if receipt.value.to.None? || receipt.value.to.value == ""
            || Lower(receipt.value.to.value) != Lower(tokenAddress) then Failure(TargetMismatch)
    else match FirstBurned(receipt.value.logs)
      case Some(Burned(from, amount)) =>
        if Lower(from) == "" then Failure(BurnEventNotFound)
        else if Lower(from) != addr then Failure(BurnedFromMismatch)
        else if amount != tokens * Exchange.WEI then Failure(AmountMismatch)
        else Success(tokens * rate)
      case _ => Failure(BurnEventNotFound)
  }

  /** The burn is accepted exactly when the hash is well formed, the receipt
      exists with status 1 and targets the token contract (ignoring case),
      and the first Burned log comes from the caller with exactly
      tokens * 10^18 base units; the credit is then tokens * rate. */
  lemma VerdictAccepts(userAddress: string, tokens: int, txHash: string, receipt: Option<Receipt>,
                       tokenAddress: string, rate: nat)
    ensures var v := Verdict(userAddress, tokens, txHash, receipt, tokenAddress, rate);
      v.Success? <==>
        && userAddress != "" && tokens > 0 && IsHexKey(txHash)
        && receipt.Some? && receipt.value.status == 1
        && receipt.value.to.Some? && Lower(receipt.value.to.value) == Lower(tokenAddress)
        && receipt.value.to.value != ""
        && FirstBurned(receipt.value.logs).Some?
        && FirstBurned(receipt.value.logs).value.Burned?
        && Lower(FirstBurned(receipt.value.logs).value.from) == Lower(userAddress)
        && FirstBurned(receipt.value.logs).value.amount == tokens * Exchange.WEI
    ensures var v := Verdict(userAddress, tokens, txHash, receipt, tokenAddress, rate);
      v.Success? ==> v.value == tokens * rate && v.value >= rate
  {
    var v := Verdict(userAddress, tokens, txHash, receipt, tokenAddress, rate);
    if receipt.Some? {
      FirstBurnedIsFirst(receipt.value.logs);
    }
    if v.Success? {
      assert tokens >= 1;
      var k: nat := tokens - 1;
      assert k * rate >= 0;
      assert tokens * rate == k * rate + rate;
    }
  }

  /** Only the first Burned log counts: a matching Burned log behind a
      non-matching one does not rescue the transaction. */
  lemma OnlyFirstBurnedCounts(userAddress: string, tokens: int, txHash: string, status: int,
                              to: Option<string>, first: Log, rest: seq<Log>,
                              tokenAddress: string, rate: nat)
    requires first.Burned? && first.amount != tokens * Exchange.WEI
    ensures Verdict(userAddress, tokens, txHash, Some(Receipt(status, to, [first] + rest)),
                    tokenAddress, rate).Failure?
  {
  }

  /** creditFromBurnTx as a step on the tables: a verdict of Success(c)
      credits c points to the lower-cased address; any failure changes
      nothing. */
  function CreditFromBurn(s: Tables, userAddress: string, tokens: int, txHash: string,
                          receipt: Option<Receipt>, tokenAddress: string, rate: nat): Step<Result<Credited, BurnError>>
  {
    match Verdict(userAddress, tokens, txHash, receipt, tokenAddress, rate)
    case Failure(e) => Step(Failure(e), s)
    case Success(c) =>
      var users := Credit(s.users, Lower(userAddress), c);
      Step(Success(Credited(c, Balance(users, userAddress), rate)), Tables(users, s.vouchers))
  }

  /** No record of processed transactions is kept: a burn that was credited
      once is credited again, in full, every time it is submitted. */
  lemma {:induction false} BurnReplayCreditsAgain(s: Tables, userAddress: string, tokens: int, txHash: string,
                                                  receipt: Option<Receipt>, tokenAddress: string, rate: nat)
    requires CreditFromBurn(s, userAddress, tokens, txHash, receipt, tokenAddress, rate).result.Success?
    ensures var once := CreditFromBurn(s, userAddress, tokens, txHash, receipt, tokenAddress, rate);
      var twice := CreditFromBurn(once.state, userAddress, tokens, txHash, receipt, tokenAddress, rate);
      && twice.result.Success?
      && Balance(twice.state.users, userAddress) == Balance(s.users, userAddress) + 2 * tokens * rate
  {
    LowerIdempotent(userAddress);
    VerdictAccepts(userAddress, tokens, txHash, receipt, tokenAddress, rate);
  }

  /** creditFromBurnTx(userAddress, tokensAmount, txHash). `receipt` is what
      the provider returned for `txHash`; `tokenAddress` and `rate` are the
      configuration. */
  method CreditFromBurnTx(db: Database, userAddress: string, tokens: int, txHash: string,
                          receipt: Option<Receipt>, tokenAddress: string, rate: nat)
    returns (res: Result<Credited, BurnError>)
    requires db.Valid()
    modifies db
    ensures db.Valid()
    ensures Step(res, db.Snapshot()) ==
      CreditFromBurn(old(db.Snapshot()), userAddress, tokens, txHash, receipt, tokenAddress, rate)
  {
    var addr := Lower(userAddress);
    if addr == "" {
      return Failure(MissingAddress);
    }
    if tokens <= 0 {
      return Failure(InvalidTokens);
    }
    if !IsHexKey(txHash) {
      return Failure(InvalidTxHash);
    }
    if receipt.None? || receipt.value.status != 1 {
      return Failure(TxNotFoundOrFailed);
    }
    var rec := receipt.value;
    if rec.to.None? || rec.to.value == "" || Lower(rec.to.value) != Lower(tokenAddress) {
      return Failure(TargetMismatch);
    }
    var burned := FindBurned(rec.logs);
    FirstBurnedIsFirst(rec.logs);
    if burned.None? || Lower(burned.value.from) == "" {
      return Failure(BurnEventNotFound);
    }
    var burnedFrom := Lower(burned.value.from);
    if burnedFrom != addr {
      return Failure(BurnedFromMismatch);
    }
    if burned.value.amount != tokens * Exchange.WEI {
      return Failure(AmountMismatch);
    }
    var credit := tokens * rate;
    var points := AddPoints(db, addr, credit);
    LowerIdempotent(userAddress);
    res := Success(Credited(credit, points, rate));
  }
}
