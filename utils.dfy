/** The pure helpers of frontend/utils.js: the remaining-time label of a
    voucher card and the translation of a thrown wallet or contract error into
    a message for the user. */
module Utils {
  import opened Wrappers
  import opened Text

  // ---------------------------------------------------------------------------
  // formatTimeLeft

  const EXPIRED_LABEL: string := "만료됨"

  /** Whole hours and the whole minutes left over, of a positive number of
      seconds. */
  function HoursMinutes(left: int): (hm: (nat, nat))
    requires left > 0
    ensures hm.1 < 60
    ensures hm.0 * 3600 + hm.1 * 60 <= left < hm.0 * 3600 + hm.1 * 60 + 60
  {
    (left / 3600, (left % 3600) / 60)
  }

  /** Hours and minutes are the only split of `left` with fewer than 60
      minutes and fewer than 60 seconds over. */
  lemma {:induction false} HoursMinutesUnique(left: int, h: nat, m: nat)
    requires left > 0 && m < 60
    requires h * 3600 + m * 60 <= left < h * 3600 + m * 60 + 60
    ensures HoursMinutes(left) == (h, m)
  {
    var hm := HoursMinutes(left);
    assert h * 3600 <= left < h * 3600 + 3600;
    assert hm.0 * 3600 <= left < hm.0 * 3600 + 3600;
  }

  /** formatTimeLeft(deadline) at the clock `now`. */
  function FormatTimeLeft(deadline: int, now: int): string {
    var left := deadline - now;
    if left <= 0 then EXPIRED_LABEL
    else
      var hm := HoursMinutes(left);
      DecimalString(hm.0) + "시간 " + DecimalString(hm.1) + "분 남음"
  }

  /** The label says expired exactly when no time is left; otherwise it
      names the hours and minutes left, read back from the label's digits. */
  lemma FormatTimeLeftMeaning(deadline: int, now: int)
    ensures FormatTimeLeft(deadline, now) == EXPIRED_LABEL <==> deadline <= now
    ensures deadline > now ==> exists h: nat, m: nat ::
      && m < 60
      && h * 3600 + m * 60 <= deadline - now < h * 3600 + m * 60 + 60
      && FormatTimeLeft(deadline, now) == DecimalString(h) + "시간 " + DecimalString(m) + "분 남음"
  {
    if deadline > now {
      var hm := HoursMinutes(deadline - now);
      var shown := FormatTimeLeft(deadline, now);
      assert shown[|shown| - 1] == '음';
    }
  }

  // ---------------------------------------------------------------------------
  // The reason string of a revert: /reverted with reason string ['"]([^'"]+)['"]/i

  const REASON_PREFIX: string := "reverted with reason string "

  predicate IsQuote(c: char) {
    c == '\'' || c == '"'
  }

  /** The end of the run of non-quote characters that starts at `j`. */
  function RunEnd(s: string, j: nat): (k: nat)
    requires j <= |s|
    ensures j <= k <= |s|
    ensures forall x :: j <= x < k ==> !IsQuote(s[x])
    ensures k < |s| ==> IsQuote(s[k])
    decreases |s| - j
  {
    if j == |s| || IsQuote(s[j]) then j else RunEnd(s, j + 1)
  }

  /** The pattern matches at position `i` and captures `r`: the prefix in
      any case, a quote, one or more non-quote characters, a quote. */
  predicate MatchesAt(s: string, i: nat, r: string) {
    var j := i + |REASON_PREFIX| + 1;
    && j + |r| < |s|
    && Lower(s[i..i + |REASON_PREFIX|]) == REASON_PREFIX
    && IsQuote(s[j - 1])
    && r != []
    && (forall x :: 0 <= x < |r| ==> !IsQuote(r[x]))
    && s[j..j + |r|] == r
    && IsQuote(s[j + |r|])
  }

  /** The capture of a match at `i`, if the pattern matches there. */
  function ReasonAt(s: string, i: nat): Option<string> {
    var j := i + |REASON_PREFIX| + 1;
    if j < |s| && Lower(s[i..i + |REASON_PREFIX|]) == REASON_PREFIX && IsQuote(s[j - 1]) then
      var k := RunEnd(s, j);
      if j < k < |s| then Some(s[j..k]) else None
    else None
  }

  lemma {:induction false} RunEndAtQuote(s: string, j: nat, k: nat)
    requires j <= k < |s| && IsQuote(s[k])
    requires forall x :: j <= x < k ==> !IsQuote(s[x])
    ensures RunEnd(s, j) == k
    decreases k - j
  {
    if j < k {
      RunEndAtQuote(s, j + 1, k);
    }
  }

  /** ReasonAt finds a capture exactly when the pattern matches there, and
      the capture is the one the match makes. */
  lemma ReasonAtMatches(s: string, i: nat, r: string)
    ensures ReasonAt(s, i) == Some(r) <==> MatchesAt(s, i, r)
  {
    var j := i + |REASON_PREFIX| + 1;
    if MatchesAt(s, i, r) {
      forall x | j <= x < j + |r| ensures !IsQuote(s[x]) {
        assert s[x] == s[j..j + |r|][x - j];
      }
      RunEndAtQuote(s, j, j + |r|);
    }
    if ReasonAt(s, i) == Some(r) {
      var k := RunEnd(s, j);
      assert r == s[j..k];
    }
  }

  function RevertReasonFrom(s: string, i: nat): Option<string>
    decreases |s| - i
  {
    if i >= |s| then None
    else match ReasonAt(s, i)
      case Some(r) => Some(r)
      case None => RevertReasonFrom(s, i + 1)
  }

  /** `msg.match(...)`'s capture group: the leftmost match wins. */
  function RevertReason(s: string): Option<string> {
    RevertReasonFrom(s, 0)
  }

  lemma {:induction false} RevertReasonFromLeftmost(s: string, i: nat)
    ensures RevertReasonFrom(s, i).None? <==> forall x :: i <= x ==> ReasonAt(s, x).None?
    ensures RevertReasonFrom(s, i).Some? ==> exists x :: i <= x < |s| && ReasonAt(s, x) == RevertReasonFrom(s, i)
                                                && forall y :: i <= y < x ==> ReasonAt(s, y).None?
    decreases |s| - i
  {
    if i >= |s| {
      forall x | i <= x ensures ReasonAt(s, x).None? {
      }
    } else if ReasonAt(s, i).None? {
      RevertReasonFromLeftmost(s, i + 1);
      if RevertReasonFrom(s, i).None? {
        forall x | i <= x ensures ReasonAt(s, x).None? {
          if x > i {
            assert i + 1 <= x;
          }
        }
      } else {
        var x :| i + 1 <= x < |s| && ReasonAt(s, x) == RevertReasonFrom(s, i + 1)
                 && forall y :: i + 1 <= y < x ==> ReasonAt(s, y).None?;
        assert forall y :: i <= y < x ==> ReasonAt(s, y).None?;
      }
    }
  }

  /** RevertReason is the capture of the leftmost match, and None exactly
      when the pattern matches nowhere. */
  lemma RevertReasonIsLeftmostMatch(s: string)
    ensures RevertReason(s).None? <==> forall i: nat, r :: !MatchesAt(s, i, r)
    ensures RevertReason(s).Some? ==> exists i: nat ::
      && MatchesAt(s, i, RevertReason(s).value)
      && forall i': nat, r :: i' < i ==> !MatchesAt(s, i', r)
  {
    RevertReasonFromLeftmost(s, 0);
    if RevertReason(s).None? {
      forall i: nat, r | true ensures !MatchesAt(s, i, r) {
        ReasonAtMatches(s, i, r);
      }
    } else {
      var i :| 0 <= i < |s| && ReasonAt(s, i) == RevertReason(s)
               && forall y :: 0 <= y < i ==> ReasonAt(s, y).None?;
      ReasonAtMatches(s, i, RevertReason(s).value);
      forall i': nat, r | i' < i ensures !MatchesAt(s, i', r) {
        ReasonAtMatches(s, i', r);
      }
    }
  }

  // ---------------------------------------------------------------------------
  // friendlyError

  /** The `code` property: absent, a number (4001 is EIP-1193's user
      rejection) or a string (ethers' 'ACTION_REJECTED'). */
  datatype Code = NoCode | NumberCode(n: int) | TextCode(s: string)

  /** A thrown value. A falsy one (null, undefined, '') short-circuits every
      property read; an object carries the string properties the function
      reads (None when absent) and what `String(e)` gives. */
  datatype Thrown =
    | Falsy(text: string)
    | Raised(code: Code, message: Option<string>, dataMessage: Option<string>,
             errorMessage: Option<string>, reason: Option<string>, text: string)

  const CANCELLED: string := "트랜잭션을 취소하였습니다."
  const NO_FUNDS: string := "지갑 잔액이 부족합니다. 소량의 ETH가 필요합니다."
  const BAD_ADDRESS: string := "잘못된 주소 형식입니다."
  const WRONG_NETWORK: string := "네트워크 오류입니다. Sepolia에 연결해주세요."
  const REVERTED: string := "컨트랙트 실행이 거부되었습니다"
  const OTHER_PREFIX: string := "오류: "

  /** A string property read with `||`: absent and empty are both falsy. */
  predicate Truthy(p: Option<string>) {
    p.Some? && p.value != ""
  }

  function OrEmpty(p: Option<string>): string {
    if p.Some? then p.value else ""
  }

  /** The cancellation test: code 4001, code 'ACTION_REJECTED', or a message
      that contains 'user rejected' in any case. */
  predicate IsUserRejection(e: Thrown) {
    e.Raised? &&
      (e.code == NumberCode(4001) || e.code == TextCode("ACTION_REJECTED")
       || Contains(Lower(OrEmpty(e.message)), "user rejected"))
  }

  /** The message the checks look at: `e.data.message`, `e.error.message`,
      `e.reason`, `e.message`, the first that is truthy, else `String(e)`. */
  function Message(e: Thrown): string {
    if e.Falsy? then e.text
    else if Truthy(e.dataMessage) then e.dataMessage.value
    else if Truthy(e.errorMessage) then e.errorMessage.value
    else if Truthy(e.reason) then e.reason.value
    else if Truthy(e.message) then e.message.value
    else e.text
  }

  /** The first truthy candidate of a list, or the fallback. */
  function FirstTruthy(candidates: seq<Option<string>>, fallback: string): string {
    if candidates == [] then fallback
    else if Truthy(candidates[0]) then candidates[0].value
    else FirstTruthy(candidates[1..], fallback)
  }

  /** Message is the `||` chain over the four properties in that order. */
  lemma MessageIsFirstTruthy(e: Thrown)
    requires e.Raised?
    ensures Message(e) == FirstTruthy([e.dataMessage, e.errorMessage, e.reason, e.message], e.text)
  {
    var t := e.text;
    var c4 := [e.message];
    assert c4[1..] == [];
    assert FirstTruthy(c4, t) == if Truthy(e.message) then e.message.value else t;
    var c3 := [e.reason, e.message];
    assert c3[1..] == c4;
    assert FirstTruthy(c3, t) == if Truthy(e.reason) then e.reason.value else FirstTruthy(c4, t);
    var c2 := [e.errorMessage, e.reason, e.message];
    assert c2[1..] == c3;
    assert FirstTruthy(c2, t) == if Truthy(e.errorMessage) then e.errorMessage.value else FirstTruthy(c3, t);
    var c1 := [e.dataMessage, e.errorMessage, e.reason, e.message];
    assert c1[1..] == c2;
  }

  predicate MentionsFunds(msg: string) { ContainsIgnoringCase(msg, "insufficient funds") }
  predicate MentionsAddress(msg: string) { ContainsIgnoringCase(msg, "invalid address") }
  predicate MentionsNetwork(msg: string) {
    ContainsIgnoringCase(msg, "network") || ContainsIgnoringCase(msg, "chain")
    || ContainsIgnoringCase(msg, "unsupported")
  }
  predicate MentionsRevert(msg: string) { ContainsIgnoringCase(msg, "execution reverted") }

  function ReasonSuffix(msg: string): string {
    match RevertReason(msg)
    case Some(r) => ": " + r
    case None => ""
  }

  /** friendlyError(e), for the thrown values whose property reads do not
      themselves throw. */
  function FriendlyError(e: Thrown): string {
    if IsUserRejection(e) then CANCELLED
    else
      var msg := Message(e);
      if MentionsFunds(msg) then NO_FUNDS
      else if MentionsAddress(msg) then BAD_ADDRESS
      else if MentionsNetwork(msg) then WRONG_NETWORK
      else if MentionsRevert(msg) then REVERTED + ReasonSuffix(msg)
      else OTHER_PREFIX + msg
  }

  /** The six kinds of text begin with six different characters, so each
      text is produced only by its own rule. */
  lemma {:induction false} FriendlyErrorFirstChar(e: Thrown)
    ensures var t := FriendlyError(e);
      && t != []
      && (t[0] == CANCELLED[0] <==> IsUserRejection(e))
      && (t[0] == NO_FUNDS[0] <==> !IsUserRejection(e) && MentionsFunds(Message(e)))
      && (t[0] == BAD_ADDRESS[0] <==> !IsUserRejection(e) && !MentionsFunds(Message(e)) && MentionsAddress(Message(e)))
      && (t[0] == WRONG_NETWORK[0] <==>
            !IsUserRejection(e) && !MentionsFunds(Message(e)) && !MentionsAddress(Message(e))
            && MentionsNetwork(Message(e)))
      && (t[0] == REVERTED[0] <==>
            !IsUserRejection(e) && !MentionsFunds(Message(e)) && !MentionsAddress(Message(e))
            && !MentionsNetwork(Message(e)) && MentionsRevert(Message(e)))
  {
    var t := FriendlyError(e);
    var msg := Message(e);
    if !IsUserRejection(e) && !MentionsFunds(msg) && !MentionsAddress(msg) && !MentionsNetwork(msg) {
      if MentionsRevert(msg) {
        assert t == REVERTED + ReasonSuffix(msg);
        assert t[0] == REVERTED[0];
      } else {
        assert t == OTHER_PREFIX + msg;
        assert t[0] == OTHER_PREFIX[0];
      }
    }
  }

  /** A user rejection is recognised before any message is looked at, and
      only a rejection yields the cancellation text. */
  lemma RejectionIsCancelled(e: Thrown)
    ensures FriendlyError(e) == CANCELLED <==> IsUserRejection(e)
  {
    FriendlyErrorFirstChar(e);
  }

  /** The rules are tried in order and the first that fits wins: a message
      that mentions insufficient funds gets the funds text even when it also
      mentions a revert or a network. */
  lemma FirstRuleWins(e: Thrown)
    ensures FriendlyError(e) == NO_FUNDS <==> !IsUserRejection(e) && MentionsFunds(Message(e))
    ensures FriendlyError(e) == BAD_ADDRESS <==>
      !IsUserRejection(e) && !MentionsFunds(Message(e)) && MentionsAddress(Message(e))
    ensures FriendlyError(e) == WRONG_NETWORK <==>
      !IsUserRejection(e) && !MentionsFunds(Message(e)) && !MentionsAddress(Message(e))
      && MentionsNetwork(Message(e))
  {
    FriendlyErrorFirstChar(e);
  }

  /** A revert that no earlier rule catches yields the revert text, followed
      by ': ' and the leftmost quoted reason when the message carries one. */
  lemma RevertCarriesReason(e: Thrown)
    requires !IsUserRejection(e)
    requires var msg := Message(e);
      !MentionsFunds(msg) && !MentionsAddress(msg) && !MentionsNetwork(msg) && MentionsRevert(msg)
    ensures RevertReason(Message(e)).Some? ==>
      FriendlyError(e) == REVERTED + ": " + RevertReason(Message(e)).value
    ensures RevertReason(Message(e)).None? ==> FriendlyError(e) == REVERTED
  {
    var msg := Message(e);
    assert FriendlyError(e) == REVERTED + ReasonSuffix(msg);
  }

  /** Everything else is shown as 'Error: ' and the message itself. */
  lemma OtherErrorsQuoted(e: Thrown)
    ensures StartsWith(FriendlyError(e), OTHER_PREFIX) <==>
      !IsUserRejection(e) && !MentionsFunds(Message(e)) && !MentionsAddress(Message(e))
      && !MentionsNetwork(Message(e)) && !MentionsRevert(Message(e))
    ensures StartsWith(FriendlyError(e), OTHER_PREFIX) ==>
      FriendlyError(e)[|OTHER_PREFIX|..] == Message(e)
  {
    FriendlyErrorFirstChar(e);
    var t := FriendlyError(e);
    if StartsWith(t, OTHER_PREFIX) {
      assert t[0] == OTHER_PREFIX[0];
    }
  }
}
