# Points-to-token exchange ledger, in Dafny

This project models the off-chain core of a points-to-token exchange. Users
hold integer points in a `users` table keyed by lower-cased address. They can
spend points on a signed, one-hour *voucher* that lets them mint governance
tokens on chain. The points of an unused voucher come back in one of two ways:

- a *refund* once the voucher has expired;
- a *redeposit* while the voucher is still pending.

Users can also burn tokens on chain and be credited points for the burn.

The model covers:

- the points ledger and voucher helpers of `backend/exchange.js`;
- voucher creation, refund, redeposit and burn-to-points;
- the start-up parsing of the server key;
- the schema and the expiry sweep of `backend/db.js`;
- the decisions the web page makes: the voucher badge, its buttons, the
  checks before a mint, and the points field (`frontend/vouchers.js`);
- the remaining-time label and the error translation (`frontend/utils.js`).

Layout, one module per file:

- `wrappers.dfy` (`Wrappers`): `Option` and `Result`. A `Failure` is a
  thrown `Error`.
- `text.dfy` (`Text`): the JavaScript string operations the code relies on.
  These are ASCII `toLowerCase`, `trim`, `includes`, `startsWith`, decimal
  `toString` and its inverse, and the hex-key pattern.
- `db.dfy` (`Db`): the two tables, the voucher statuses, the sweep, and the
  `Database` class holding both tables as fields.
- `ledger.dfy` (`Ledger`): `getPoints`, `setPoints`, `addPoints`,
  `getVouchers`, `saveVoucher` and `updateVoucherStatus`. Each is a method
  on the database, specified by a function on table values.
- `exchange.dfy` (`Exchange`): the exchange terms, the nonce,
  `createExchangeVoucher`, `refundExpiredVoucher` and `redepositVoucher`.
  Each operation is a method proved equal to a specification function. The
  specification function returns the result together with the new tables.
- `burn.dfy` (`Burn`): `creditFromBurnTx`, including the loop over the
  receipt's logs.
- `server_key.dfy` (`ServerKey`): the `SERVER_PRIVATE_KEY` normalisation.
- `safety.dfy` (`Safety`): properties of arbitrary sequences of calls:
  - the tables stay consistent and no balance goes negative;
  - voucher rows only move forward through their statuses;
  - each voucher is credited back at most once.
- `vouchers.dfy` (`VoucherView`) and `utils.dfy` (`Utils`): the front-end
  decisions.

Several guarantees one might expect of such a ledger do not hold of the code;
the model follows the code:

- Creation is not atomic. The debit (`backend/exchange.js:135-144`) and the
  insert (`:154`) are separate steps. A signing failure or a nonce already in
  the table leaves the debit in place with no voucher
  (`Exchange.CreateDebitOutlivesFailedInsert`). A nonce collision is not
  retried.
- Refund and redeposit take no lock, make no on-chain "nonce used" query and
  have no `processing` status. Nothing reconciles redemption events and
  nothing claws points back.
- There is no rate limiter and no cooldown. Redeposit does not check the
  deadline (`Exchange.RedepositIgnoresDeadline`).
- No record of processed burn transactions is kept. The same burn is
  credited again every time it is submitted (`Burn.BurnReplayCreditsAgain`).
- The only voucher statuses the back end writes are `pending`, `expired`,
  `expired_refunded` and `redeposited`. The front end also tests for `used`.

## Model

| member | source | states |
|---|---|---|
| Text.Lower | backend/exchange.js:27 | `toLowerCase` on ASCII: same length, each capital A-Z becomes its own lower-case letter (code point + 32), every other character kept, the result is lower case |
| Text.LowerOfLowerCase | backend/exchange.js:123-124 | a string already in lower case is returned unchanged |
| Text.LowerIdempotent | backend/exchange.js:123-124 | lower-casing an address twice gives the same key as once |
| Text.DecimalString | backend/exchange.js:140-142 | `toString` of a non-negative integer: non-empty, all digits, no leading zero |
| Text.DecimalRoundTrip | backend/exchange.js:140-142 | parsing the decimal string of `n` gives back `n` |
| Text.DecimalInjective | backend/exchange.js:141 | different integers give different decimal strings |
| Text.Trim | backend/exchange.js:10 | `trim`: the result neither starts nor ends with JavaScript white space |
| Text.TrimStartDropsBlankPrefix | backend/exchange.js:10 | `trimStart` returns the input minus a prefix made only of JavaScript white space |
| Text.TrimEndDropsBlankSuffix | backend/exchange.js:10 | `trimEnd` returns the input minus a suffix made only of JavaScript white space |
| Text.TrimIsBlankFreeSlice | backend/exchange.js:10 | `trim` returns a slice `s[i..j]` of its input with only white space before `i` and after `j`; with `Text.Trim` the slice is the longest one, nothing inside is dropped |
| Text.TrimUntrimmed | backend/exchange.js:10 | a string with no white space at either end is left as it is |
| ServerKey.Unquote | backend/exchange.js:11-13 | strips one pair of matching outer quotes and trims again; what it keeps is stated by `ServerKey.HexKeyUntouched` and `ServerKey.NormalizeAcceptsSpellings` |
| ServerKey.WithPrefix | backend/exchange.js:14 | prepends `0x` unless already present; stated by `ServerKey.HexKeyUntouched` and `ServerKey.NormalizeAcceptsSpellings` |
| ServerKey.NormalizeServerKey | backend/exchange.js:10-17 | an accepted key is `0x` followed by exactly 64 hex digits |
| ServerKey.HexKeyUntouched | backend/exchange.js:10-14 | a key already in that form passes trimming, unquoting and prefixing unchanged |
| ServerKey.NormalizeIdempotent | backend/exchange.js:10-17 | normalising an accepted key again gives the same key |
| ServerKey.NormalizeAcceptsSpellings | backend/exchange.js:10-14 | bare, `0x`-prefixed, double-quoted, single-quoted with inner blanks, and blank-padded spellings of the same 64 digits all give `0x` + digits |
| ServerKey.NormalizeRejects | backend/exchange.js:14-17 | anything whose unquoted length is neither 64 nor 66 is rejected; an upper-case `0X` prefix is rejected |
| Db.Overdue | backend/db.js:45-47 | the sweep's WHERE clause, pending with the deadline before `now`; its selection is stated by `Db.OverdueNonces` |
| Db.SweptRow | backend/db.js:45-47 | one row after the sweep, status set to `expired` when overdue; its effect is stated by `Db.SweepExact` |
| Db.OverdueNonces | backend/db.js:47 | a row is selected iff it is pending and its deadline is before `now` |
| Db.Sweep | backend/db.js:44-48 | the sweep keeps every row |
| Db.SweepExact | backend/db.js:45-47 | selected rows become `expired` with no other column changed; all other rows are unchanged |
| Db.SweepIdempotent | backend/db.js:44-48 | a second sweep at the same clock selects nothing and changes nothing |
| Db.SweepWellFormed | backend/db.js:8-27 | the sweep keeps keys lower case and each row under its own nonce |
| Db.Database.constructor | backend/db.js:7-28 | a fresh database has both tables empty |
| Db.Database.CleanupExpiredVouchers | backend/db.js:42-54 | the vouchers table becomes the sweep of the old one, users are untouched, and the count returned is the number of selected rows |
| Ledger.Balance | backend/exchange.js:26-29 | `getPoints` on the users table: the points of the lower-cased address; characterised by `Ledger.BalanceOfUnknown` and `Ledger.BalanceIgnoresCase` |
| Ledger.Credit | backend/exchange.js:39-41 | `addPoints` on the users table: upsert of the lower-cased address to balance + delta; characterised by `Ledger.CreditEffect` |
| Ledger.NewRow | backend/exchange.js:61-76 | the row `saveVoucher` inserts: owner lower-cased, status `pending`; its insertion is stated by `Ledger.SaveVoucher` |
| Ledger.BalanceOfUnknown | backend/exchange.js:26-29 | `getPoints` of an address without a row is 0 |
| Ledger.BalanceIgnoresCase | backend/exchange.js:26-29 | `getPoints` gives the same answer for an address and its lower-cased form |
| Ledger.CreditEffect | backend/exchange.js:39-41 | after `addPoints(a, d)` the balance of `a` is old + d, at most the row of `lower(a)` is added, and every other address keeps its balance |
| Ledger.Listed | backend/exchange.js:51-59 | a row is listed iff it belongs to the lower-cased address and its status is pending or expired; listed rows are unchanged |
| Ledger.WithStatus | backend/exchange.js:77-82 | only the row under `nonce` changes, and only its status |
| Ledger.GetPoints | backend/exchange.js:26-29 | returns the stored points of the lower-cased address, 0 without a row |
| Ledger.SetPoints | backend/exchange.js:30-38 | upserts the lower-cased address to `value`, returns `value`, vouchers untouched |
| Ledger.AddPoints | backend/exchange.js:39-41 | the users table becomes the credit of the old one; returns old balance + delta, which is the new balance |
| Ledger.GetVouchers | backend/exchange.js:51-59 | returns exactly the listed rows |
| Ledger.SaveVoucher | backend/exchange.js:61-76 | inserts a pending row with the owner lower-cased iff the nonce is new; on an existing nonce nothing changes (the primary key at backend/db.js:17) |
| Ledger.UpdateVoucherStatus | backend/exchange.js:77-82 | the vouchers table becomes the status update of the old one; users untouched |
| Exchange.TokensFor | backend/exchange.js:127-128 | `floor(points / rate)`: tokens·rate ≤ points < tokens·rate + rate, and no token iff points < rate |
| Exchange.UsedPointsBounds | backend/exchange.js:127-131 | `used = tokens·rate` satisfies 0 < used ≤ points < used + rate |
| Exchange.Nonce | backend/exchange.js:44-48 | the nonce divided by 1 000 000 is the clock and the remainder is the draw |
| Exchange.NonceOrderedByTime | backend/exchange.js:44-48 | a strictly later clock gives a strictly larger nonce whatever the draws |
| Exchange.NonceInjective | backend/exchange.js:44-48 | different (clock, draw) pairs give different nonces |
| Exchange.Debit | backend/exchange.js:136 | the `UPDATE users SET points = points - used` of an existing row, no row added; its effect on balances is stated by `Exchange.CreateSucceeds` and `Exchange.CreateDebitOutlivesFailedInsert` |
| Exchange.Issue | backend/exchange.js:127-143 | the voucher object: deduction tokens·rate and decimal token amount, nonce and deadline; its fields are stated by `Exchange.CreateSucceeds` |
| Exchange.Create | backend/exchange.js:117-162 | `createExchangeVoucher` on the tables, check by check; characterised by `Exchange.CreateRejects`, `Exchange.CreateOutcome`, `Exchange.CreateSucceeds` and `Exchange.CreateDebitOutlivesFailedInsert` |
| Exchange.CreateRejects | backend/exchange.js:117-128 | missing address, non-positive points, balance below the points, and points below the rate each fail in that order with both tables unchanged |
| Exchange.CreateSucceeds | backend/exchange.js:133-161 | success debits exactly `used` (new balance = old − used ≥ 0), keeps every other balance, inserts one pending row under a fresh nonce with deduction `used`, deadline now + 3600 and token amount tokens·10^18 |
| Exchange.CreateOutcome | backend/exchange.js:117-162 | success iff the address is non-empty, points ≥ rate, the balance covers the points, the signer answers and the rendered nonce is new; failure at signing iff the checks pass and the signer returns nothing; duplicate nonce iff the checks pass, the signer answers and the nonce is taken |
| Exchange.CreateDebitOutlivesFailedInsert | backend/exchange.js:135-154 | a signing failure or a duplicate nonce leaves the balance reduced by `used` and no new voucher |
| Exchange.Lookup | backend/exchange.js:210 | finds the row iff it exists under the nonce and belongs to the lower-cased address |
| Exchange.RefundEligible | backend/exchange.js:214 | the refund guard, `expired` or pending past the deadline; its use is stated by `Exchange.RefundOutcome` |
| Exchange.RedepositEligible | backend/exchange.js:231 | the redeposit guard, `pending`; its use is stated by `Exchange.RedepositOutcome` |
| Exchange.Refund | backend/exchange.js:208-223 | `refundExpiredVoucher` on the tables; characterised by `Exchange.RefundOutcome` |
| Exchange.Redeposit | backend/exchange.js:226-240 | `redepositVoucher` on the tables; characterised by `Exchange.RedepositOutcome` |
| Exchange.RefundOutcome | backend/exchange.js:208-223 | refund succeeds iff the caller's voucher is expired, or pending past its deadline; it then credits exactly the deduction, marks the row `expired_refunded` and returns old + refunded; otherwise nothing changes |
| Exchange.RedepositOutcome | backend/exchange.js:226-240 | redeposit succeeds iff the caller's voucher is pending; it then credits exactly the deduction and marks the row `redeposited`; otherwise nothing changes |
| Exchange.SettledVoucherRejected | backend/exchange.js:214-233 | a row that is `expired_refunded` or `redeposited` fails both guards and nothing changes |
| Exchange.CreditedOnce | backend/exchange.js:208-240 | after either operation succeeds on a voucher, both fail on it for any caller and clock |
| Exchange.RedepositIgnoresDeadline | backend/exchange.js:231-233 | a pending voucher past its deadline is both redepositable and refundable |
| Exchange.CreateExchangeVoucher | backend/exchange.js:117-162 | the result and the new tables are those of the step-by-step create: validations, debit, signature, insert |
| Exchange.RefundExpiredVoucher | backend/exchange.js:208-223 | the result and the new tables are those of the refund specification |
| Exchange.RedepositVoucher | backend/exchange.js:226-240 | the result and the new tables are those of the redeposit specification |
| Burn.FirstBurned | backend/exchange.js:184-193 | the first `Burned` log of the receipt; characterised by `Burn.FirstBurnedIsFirst` |
| Burn.Verdict | backend/exchange.js:165-199 | the checks of `creditFromBurnTx` in order, giving the credit or the error; characterised by `Burn.VerdictAccepts` and `Burn.OnlyFirstBurnedCounts` |
| Burn.CreditFromBurn | backend/exchange.js:165-205 | `creditFromBurnTx` on the tables; its effect is stated by `Burn.CreditFromBurnTx` and `Burn.BurnReplayCreditsAgain` |
| Burn.FirstBurnedIsFirst | backend/exchange.js:184-193 | the log picked is a `Burned` log with none before it; nothing is picked iff there is no `Burned` log |
| Burn.FindBurned | backend/exchange.js:184-193 | the loop that breaks at the first `Burned` log returns the first `Burned` log |
| Burn.VerdictAccepts | backend/exchange.js:165-202 | a burn is accepted iff the hash is `0x` + 64 hex digits, the receipt exists with status 1, targets the token (ignoring case), and the first `Burned` log is from the caller with exactly tokens·10^18; the credit is then tokens·rate ≥ rate |
| Burn.OnlyFirstBurnedCounts | backend/exchange.js:184-199 | a wrong amount in the first `Burned` log fails the burn whatever later logs say |
| Burn.BurnReplayCreditsAgain | backend/exchange.js:165-205 | submitting an accepted burn a second time is accepted again and credits the same amount again |
| Burn.CreditFromBurnTx | backend/exchange.js:165-205 | the result and the new tables are those of the verdict: the credit to the lower-cased address on success, no change on failure |
| Safety.EmptySound | backend/db.js:7-28 | the empty tables are consistent |
| Safety.CreateKeepsSound | backend/exchange.js:123-154 | create, successful or failed, keeps balances ≥ 0 and every voucher owned by an existing user with a positive deduction |
| Safety.ApplyKeepsSound | backend/exchange.js:117-240 | every call (create, refund, redeposit, sweep, burn) keeps the tables consistent and balances ≥ 0 |
| Safety.RunKeepsSound | backend/exchange.js:117-240 | any sequence of calls from consistent tables ends in consistent tables |
| Safety.ApplyKeepsRows | backend/exchange.js:77-82 | no call deletes a voucher row or changes anything but its status, and statuses only move pending → expired, pending or expired → expired_refunded, or pending → redeposited |
| Safety.SettledNeverCredited | backend/exchange.js:214-233 | once a voucher is `expired_refunded` or `redeposited`, no later call credits it |
| Safety.AtMostOneCredit | backend/exchange.js:208-240 | over any sequence of calls, refund and redeposit together credit a voucher at most once |
| VoucherView.StatusClass | frontend/vouchers.js:55-60 | `getVoucherStatusClass`; characterised by `VoucherView.StatusClassCases` |
| VoucherView.StatusText | frontend/vouchers.js:62-67 | `getVoucherStatusText`; characterised by `VoucherView.TextAgreesWithClass` |
| VoucherView.StatusClassCases | frontend/vouchers.js:55-60 | `expired` iff the deadline has passed, even for a used voucher; otherwise `used` iff the status is used; otherwise `pending` |
| VoucherView.TextAgreesWithClass | frontend/vouchers.js:55-67 | the badge text always names the badge class |
| VoucherView.BadgeIgnoresSettlement | frontend/vouchers.js:55-67 | a redeposited or refunded voucher before its deadline reads as available yet has no button |
| VoucherView.Actions | frontend/vouchers.js:175-193 | `getVoucherActions`; characterised by `VoucherView.ActionsCases` and `VoucherView.ActionsMatchServerGuards` |
| VoucherView.ActionsCases | frontend/vouchers.js:175-193 | no button iff used, redeposited or refunded; only refund iff otherwise past the deadline or expired; claim and redeposit iff pending before the deadline |
| VoucherView.ActionsMatchServerGuards | frontend/vouchers.js:175-193 | the refund button is offered iff the server's refund guard holds; redeposit is offered only when the server's guard holds, but not for an overdue pending voucher the server would accept |
| VoucherView.ListedRowsHaveButtons | frontend/vouchers.js:175-193 | every row the server lists gets at least one button |
| VoucherView.FindByNonce | frontend/vouchers.js:117 | finds the first row with the nonce, and nothing iff no row has it |
| VoucherView.ClaimPrecheck | frontend/vouchers.js:117-121 | not found iff no row has the nonce; accepted iff the first row with the nonce (`find`'s match) has not passed its deadline, and that row is the one returned |
| VoucherView.ClaimButtonPassesPrecheck | frontend/vouchers.js:117-121 | a card showing the claim button passes the pre-mint checks |
| VoucherView.PointsInput | frontend/vouchers.js:226-230 | the input is accepted iff it is finite, positive and integral, and then it is that positive integer |
| VoucherView.InputPassesServerCheck | frontend/vouchers.js:226-231 | any accepted input passes the server's `invalid points` check |
| Utils.HoursMinutes | frontend/utils.js:41-42 | minutes < 60 and hours·3600 + minutes·60 ≤ left < hours·3600 + minutes·60 + 60 |
| Utils.HoursMinutesUnique | frontend/utils.js:41-42 | that split is the only one with those bounds |
| Utils.FormatTimeLeft | frontend/utils.js:37-43 | `formatTimeLeft`; characterised by `Utils.FormatTimeLeftMeaning` |
| Utils.FormatTimeLeftMeaning | frontend/utils.js:37-43 | `만료됨` iff no time is left; otherwise the label shows the hours and minutes of that split |
| Utils.RevertReason | frontend/utils.js:14 | the capture of the revert-reason pattern; characterised by `Utils.RevertReasonIsLeftmostMatch` |
| Utils.RunEnd | frontend/utils.js:14 | the run of non-quote characters stops at the first quote or at the end |
| Utils.ReasonAtMatches | frontend/utils.js:14 | a capture is found at a position iff the reason pattern matches there with that capture |
| Utils.RevertReasonIsLeftmostMatch | frontend/utils.js:14 | the reason is the capture of the leftmost match, and none iff the pattern matches nowhere |
| Utils.IsUserRejection | frontend/utils.js:7 | code 4001 or `ACTION_REJECTED`, or a message mentioning `user rejected`; its use is stated by `Utils.RejectionIsCancelled` |
| Utils.Message | frontend/utils.js:9 | the message the rules test; characterised by `Utils.MessageIsFirstTruthy` |
| Utils.MessageIsFirstTruthy | frontend/utils.js:9 | the message is the first non-empty of `data.message`, `error.message`, `reason`, `message`, else `String(e)` |
| Utils.FriendlyError | frontend/utils.js:5-19 | `friendlyError`; characterised by `Utils.FriendlyErrorFirstChar`, `Utils.RejectionIsCancelled`, `Utils.FirstRuleWins`, `Utils.RevertCarriesReason` and `Utils.OtherErrorsQuoted` |
| Utils.FriendlyErrorFirstChar | frontend/utils.js:7-17 | each kind of text is produced exactly under its own rule's condition |
| Utils.RejectionIsCancelled | frontend/utils.js:7-8 | the cancellation text appears iff the error is a user rejection, whatever the message says |
| Utils.FirstRuleWins | frontend/utils.js:10-12 | funds, then address, then network: each text appears iff its rule is the first that fits |
| Utils.RevertCarriesReason | frontend/utils.js:13-16 | a revert gets `: <reason>` appended iff the message carries a quoted reason |
| Utils.OtherErrorsQuoted | frontend/utils.js:17 | the `오류: ` text appears iff no rule fits, and it is followed by the message itself |

## Left out

- EIP-712 signing (`signVoucher`, backend/exchange.js:85-114) is a parameter `sign` that returns a signature or fails. The domain and the types are not modelled.
- The JSON-RPC provider and `iface.parseLog` are replaced by the receipt as data. That data is the status, the `to` address, and each log already decoded as `Burned(from, amount)` or another log. A log that does not decode counts as another log.
- `Date.now()` and `Math.random()` are parameters: `t` (milliseconds), `r` (the draw, below 1 000 000), `now` (seconds).
- All quantities are integers. JavaScript `Number` limits are not modelled: precision loss above 2^53, non-integer `pointsToSpend` or `tokensAmount`, and NaN rates. The rate is an integer ≥ 1, as `Math.max(1, …)` ensures for integer settings.
- The points field models the number only. The string-to-number conversion `Number(value || '0')` is not modelled.
- `formatTokenAmount` is not modelled. `formatTimeLeft` assumes the integers print in plain decimal, which fails for numbers of 10^21 and above.
- The columns `created_at` and `updated_at`, the `ORDER BY created_at DESC` of `getVouchers`, and the indexes are not modelled. The listing is a map keyed by nonce.
- The foreign key from `vouchers.user_address` to `users` is not enforced by `SaveVoucher`. `Safety.CreateKeepsSound` shows that creation only inserts rows whose owner has a user row.
- Interleaving of the `await` between the debit and the insert is not modelled. Create runs as sequential steps.
- The `setInterval` scheduling of the sweep (backend/db.js:57) and its console log are not modelled.
- HTTP routing (backend/server.js) is not part of this model. That includes the `/points/grant` and `/points/earn` endpoints and the negative deltas they could pass to `addPoints`. `Safety` therefore considers only create, refund, redeposit, sweep and burn calls.
- Rendering is not modelled: `displayVouchers`, the overlays, `fetch`, wallet and contract calls, and the other front-end files. `claimVoucher` is modelled up to the contract call. Its `vouchersResponse.error` path is a fetch failure and is left out.
- The first `getVoucherActions` (frontend/vouchers.js:69-79) is not modelled because the declaration at line 175 replaces it.
- Case folding covers ASCII only. Every pattern the code compares against is ASCII, and addresses are taken to be ASCII (hex) strings: JavaScript's `toLowerCase` also folds non-ASCII letters (U+212A to `k`), which the model does not.
- Utils.FriendlyError: the `catch` fallback (frontend/utils.js:18) is not modelled. It is reached when a property read or `String(e)` throws, or when a property the function reads is not a string (a truthy non-string `message` breaks `toLowerCase` at frontend/utils.js:7, a non-string message breaks `match` at :14). The model gives the error object's properties as optional strings, so neither case arises.
- Burn.Verdict: the `txHash` check uses the same 64-hex-digit pattern as the key. A missing `txHash` counts as the empty string.
