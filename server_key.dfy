/** The start-up parsing of SERVER_PRIVATE_KEY in backend/exchange.js: trim,
    drop one pair of matching surrounding quotes, add a missing `0x`, then
    insist on `0x` and 64 hexadecimal digits. A missing variable is the empty
    string. */
module ServerKey {
  import opened Wrappers
  import opened Text

  datatype KeyError = InvalidKeyFormat

  predicate QuotedBy(s: string, q: char) {
    s != [] && s[0] == q && s[|s| - 1] == q
  }

  /** `pk.slice(1, -1).trim()` when pk starts and ends with the same quote
      character; a lone quote is both, and slices to the empty string. */
  function Unquote(pk: string): string {
    if QuotedBy(pk, '"') || QuotedBy(pk, '\'') then
      Trim(if |pk| >= 2 then pk[1..|pk| - 1] else "")
    else pk
  }

  function WithPrefix(pk: string): string {
    if StartsWith(pk, "0x") then pk else "0x" + pk
  }

  /** The whole normalisation; a Failure is the start-up error. */
  function NormalizeServerKey(raw: string): (r: Result<string, KeyError>)
    ensures r.Success? ==> IsHexKey(r.value)
  {
    var pk := WithPrefix(Unquote(Trim(raw)));
    if IsHexKey(pk) then Success(pk) else Failure(InvalidKeyFormat)
  }

  lemma HexKeyUntouched(k: string)
    requires IsHexKey(k)
    ensures Trim(k) == k && Unquote(k) == k && WithPrefix(k) == k
  {
    assert k[0] == '0' && k[1] == 'x';
    assert IsHexDigit(k[|k| - 1]) by { assert k[|k| - 1] == k[2..][63]; }
    TrimUntrimmed(k);
  }

  /** A key already in the accepted form is returned as it is, so the
      normalisation is idempotent on its own output. */
  lemma {:induction false} NormalizeIdempotent(raw: string)
    requires NormalizeServerKey(raw).Success?
    ensures NormalizeServerKey(NormalizeServerKey(raw).value) == NormalizeServerKey(raw)
  {
    HexKeyUntouched(NormalizeServerKey(raw).value);
  }

  lemma HexDigitsUnprefixed(h: string)
    requires |h| == 64 && AllHex(h)
    ensures !IsJsSpace(h[0]) && !IsJsSpace(h[|h| - 1])
    ensures !StartsWith(h, "0x") && !QuotedBy(h, '"') && !QuotedBy(h, '\'')
    ensures IsHexKey("0x" + h)
  {
    assert IsHexDigit(h[0]) && IsHexDigit(h[1]) && IsHexDigit(h[|h| - 1]);
    assert ("0x" + h)[2..] == h;
  }

  /** The spellings the parser is there to accept: 64 hex digits with or
      without `0x`, in double or single quotes, with blanks inside or outside
      the quotes, all give the same key. */
  lemma {:induction false} NormalizeAcceptsSpellings(h: string)
    requires |h| == 64 && AllHex(h)
    ensures NormalizeServerKey(h) == Success("0x" + h)
    ensures NormalizeServerKey("0x" + h) == Success("0x" + h)
    ensures NormalizeServerKey("\"" + h + "\"") == Success("0x" + h)
    ensures NormalizeServerKey("' 0x" + h + " '") == Success("0x" + h)
    ensures NormalizeServerKey(" \t0x" + h + "\n") == Success("0x" + h)
  {
    HexDigitsUnprefixed(h);
    var k := "0x" + h;
    HexKeyUntouched(k);
    assert WithPrefix(Unquote(Trim(h))) == k by { TrimUntrimmed(h); }
    AcceptedAs(h, k);
    AcceptedAs(k, k);
    DoubleQuotedSteps(h);
    AcceptedAs("\"" + h + "\"", k);
    SingleQuotedSteps(h);
    AcceptedAs("' 0x" + h + " '", k);
    PaddedSteps(h);
    AcceptedAs(" \t0x" + h + "\n", k);
  }

  lemma AcceptedAs(raw: string, k: string)
    requires WithPrefix(Unquote(Trim(raw))) == k && IsHexKey(k)
    ensures NormalizeServerKey(raw) == Success(k)
  {
  }

  lemma DoubleQuotedSteps(h: string)
    requires |h| == 64 && AllHex(h)
    ensures WithPrefix(Unquote(Trim("\"" + h + "\""))) == "0x" + h
  {
    QuotedUntrimmed(h, '"', "");
    QuotesDropped(h, '"', "");
    HexDigitsUnprefixed(h);
  }

  lemma SingleQuotedSteps(h: string)
    requires |h| == 64 && AllHex(h)
    ensures WithPrefix(Unquote(Trim("' 0x" + h + " '"))) == "0x" + h
  {
    assert "' 0x" + h + " '" == ['\''] + " 0x" + h + " " + ['\''];
    QuotedUntrimmed(h, '\'', " 0x");
    QuotesDropped(h, '\'', " 0x");
    InnerBlanksTrimmed(h);
    HexKeyUntouched("0x" + h);
  }

  lemma InnerBlanksTrimmed(h: string)
    requires |h| == 64 && AllHex(h)
    ensures Trim(" 0x" + h + " ") == "0x" + h
  {
    HexDigitsUnprefixed(h);
    var k := "0x" + h;
    assert " 0x" + h + " " == " " + k + " ";
    assert k[0] == '0' && k[|k| - 1] == h[|h| - 1];
    TrimOneBlankEachSide(k);
  }

  lemma QuotedUntrimmed(h: string, q: char, pre: string)
    requires |h| == 64 && AllHex(h) && (q == '"' || q == '\'') && |pre| <= 3
    ensures var s := [q] + pre + h + (if pre == "" then "" else " ") + [q];
      Trim(s) == s
  {
    var s := [q] + pre + h + (if pre == "" then "" else " ") + [q];
    assert s[0] == q && s[|s| - 1] == q;
    TrimUntrimmed(s);
  }

  lemma QuotesDropped(h: string, q: char, pre: string)
    requires |h| == 64 && AllHex(h) && (q == '"' || q == '\'') && |pre| <= 3
    requires pre == "" ==> q == '"'
    ensures var s := [q] + pre + h + (if pre == "" then "" else " ") + [q];
      Unquote(s) == Trim(pre + h + (if pre == "" then "" else " "))
  {
    var s := [q] + pre + h + (if pre == "" then "" else " ") + [q];
    assert s[0] == q && s[|s| - 1] == q;
    assert s[1..|s| - 1] == pre + h + (if pre == "" then "" else " ");
  }

  lemma PaddedSteps(h: string)
    requires |h| == 64 && AllHex(h)
    ensures WithPrefix(Unquote(Trim(" \t0x" + h + "\n"))) == "0x" + h
  {
    HexDigitsUnprefixed(h);
    var k := "0x" + h;
    HexKeyUntouched(k);
    assert k[0] == '0' && k[|k| - 1] == h[|h| - 1];
    TrimOuterBlanks(k);
    assert " \t0x" + h + "\n" == " \t" + k + "\n";
  }

  lemma TrimOneBlankEachSide(k: string)
    requires k != [] && !IsJsSpace(k[0]) && !IsJsSpace(k[|k| - 1])
    ensures Trim(" " + k + " ") == k
  {
    var s := " " + k + " ";
    var t := k + " ";
    assert s[1..] == t && t[0] == k[0];
    assert TrimStart(t) == t;
    assert TrimStart(s) == t;
    assert t[..|t| - 1] == k;
    assert TrimEnd(k) == k;
    assert TrimEnd(t) == k;
  }

  lemma TrimOuterBlanks(k: string)
    requires k != [] && !IsJsSpace(k[0]) && !IsJsSpace(k[|k| - 1])
    ensures Trim(" \t" + k + "\n") == k
  {
    var s := " \t" + k + "\n";
    var t := k + "\n";
    assert s[1..] == "\t" + t && ("\t" + t)[1..] == t && t[0] == k[0];
    assert TrimStart(t) == t;
    assert TrimStart("\t" + t) == t;
    assert TrimStart(s) == t;
    assert t[..|t| - 1] == k;
    assert TrimEnd(k) == k;
    assert TrimEnd(t) == k;
  }

  /** What is rejected: anything whose unquoted form is neither 64 digits
      nor 66 characters, and the upper-case `0X` prefix, which gets a second
      prefix in front of it. */
  lemma NormalizeRejects(raw: string, h: string)
    ensures |Unquote(Trim(raw))| !in {64, 66} ==> NormalizeServerKey(raw) == Failure(InvalidKeyFormat)
    ensures |h| == 64 && AllHex(h) ==> NormalizeServerKey("0X" + h) == Failure(InvalidKeyFormat)
  {
    if |h| == 64 && AllHex(h) {
      var u := "0X" + h;
      assert u[0] == '0' && u[1] == 'X' && u[|u| - 1] == h[63];
      TrimUntrimmed(u);
      assert !QuotedBy(u, '"') && !QuotedBy(u, '\'') && !StartsWith(u, "0x");
      assert WithPrefix(Unquote(Trim(u))) == "0x" + u;
      assert ("0x" + u)[2..][1] == 'X';
    }
  }
}
