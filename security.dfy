/**
 * The input validators of the security utilities: account-number format,
 * amount range, password strength, CSRF comparison, client-address
 * extraction and the empty-input passthrough of input sanitisation.
 */
module Security {
  import opened Wrappers
  import opened Text
  import Money

  /** The canonical account-number format: exactly ten ASCII digits. */
  predicate IsAccountNumber(s: string)
  {
    |s| == 10 && AllDigits(s)
  }

  /** `validate_account_number`: false for a missing or empty value,
      otherwise a match of `^\d{10}$` (whose `$` also admits one trailing
      newline). */
  function ValidateAccountNumber(accountNumber: Option<string>): (ok: bool)
    ensures ok ==> accountNumber.Some? && accountNumber.value != []
    ensures accountNumber.Some? && IsAccountNumber(accountNumber.value) ==> ok
  {
    match accountNumber
    case None => false
    case Some(s) =>
      s != [] &&
      var body := if s[|s| - 1] == '\n' then s[..|s| - 1] else s;
      IsAccountNumber(body)
  }

  /** The validator accepts exactly the strings the anchored pattern
      `^\d{10}$` matches. */
  lemma ValidateAccountNumberIsPattern(s: string)
    ensures ValidateAccountNumber(Some(s)) <==>
            exists body :: EndAnchored(s, body) && IsAccountNumber(body)
  {
    if ValidateAccountNumber(Some(s)) {
      var body := if s[|s| - 1] == '\n' then s[..|s| - 1] else s;
      assert EndAnchored(s, body);
    }
    if exists body :: EndAnchored(s, body) && IsAccountNumber(body) {
      var body :| EndAnchored(s, body) && IsAccountNumber(body);
      if s == body {
        assert IsAsciiDigit(s[|s| - 1]);
      } else {
        assert s[..|s| - 1] == body;
      }
    }
  }

  /** `validate_amount`: the text denotes a number (`None` when it does not
      parse) in the range (0, 1000000]. */
  function ValidateAmount(amount: Option<real>): (ok: bool)
    ensures ok <==> amount.Some? && 0.0 < amount.value <= Money.MaxAmount
  {
    match amount
    case None => false
    case Some(v) => v > 0.0 && v <= Money.MaxAmount
  }

  /** The verdict of `validate_password_strength`; each rejection stands for
      the message the source returns for it. */
  datatype PasswordCheck = Strong | TooShort | NoUppercase | NoLowercase | NoDigit | NoSpecial

  /** The special characters of the class `[!@#$%^&*]`. */
  predicate IsSpecial(c: char)
  {
    c == '!' || c == '@' || c == '#' || c == '$' || c == '%' || c == '^' || c == '&' || c == '*'
  }

  predicate HasUpper(p: string) { exists i :: 0 <= i < |p| && IsAsciiUpper(p[i]) }
  predicate HasLower(p: string) { exists i :: 0 <= i < |p| && IsAsciiLower(p[i]) }
  predicate HasDigit(p: string) { exists i :: 0 <= i < |p| && IsDecimalDigit(p[i]) }
  predicate HasSpecial(p: string) { exists i :: 0 <= i < |p| && IsSpecial(p[i]) }

  /** `validate_password_strength`: the checks run in the order length,
      upper case, lower case, digit, special character, and the first that
      fails decides the verdict. */
  function ValidatePasswordStrength(password: string): (v: PasswordCheck)
    ensures v == Strong <==>
            |password| >= 8 && HasUpper(password) && HasLower(password)
            && HasDigit(password) && HasSpecial(password)
  {
    if |password| < 8 then TooShort
    else if !HasUpper(password) then NoUppercase
    else if !HasLower(password) then NoLowercase
    else if !HasDigit(password) then NoDigit
    else if !HasSpecial(password) then NoSpecial
    else Strong
  }

  /** `\d` is not only ASCII: a password whose one digit is an
      Arabic-Indic three is strong, and one with no digit at all is not. */
  lemma AnyDecimalDigitCounts()
    ensures ValidatePasswordStrength("Abcdefg!\U{0663}") == Strong
    ensures ValidatePasswordStrength("Abcdefg!x") == NoDigit
  {
    var p := "Abcdefg!\U{0663}";
    assert IsAsciiUpper(p[0]) && IsAsciiLower(p[1]) && IsSpecial(p[7]);
    DecimalDigitsExtendAscii(p[8]);
    var q := "Abcdefg!x";
    assert IsAsciiUpper(q[0]) && IsAsciiLower(q[1]);
    forall i | 0 <= i < |q| ensures !IsDecimalDigit(q[i]) {
      assert q[i] as int < 0x80;
    }
  }

  /** The password requirements, in the order the source checks them, each
      with the verdict given when it is the first one to fail. */
  function Requirements(password: string): seq<(bool, PasswordCheck)>
  {
    [ (|password| >= 8, TooShort), (HasUpper(password), NoUppercase),
      (HasLower(password), NoLowercase), (HasDigit(password), NoDigit),
      (HasSpecial(password), NoSpecial) ]
  }

  /** The verdict of the first failing requirement, or Strong. */
  function FirstFailure(reqs: seq<(bool, PasswordCheck)>): PasswordCheck
  {
    if reqs == [] then Strong
    else if !reqs[0].0 then reqs[0].1
    else FirstFailure(reqs[1..])
  }

  /** The verdict is the first failing requirement: every earlier one holds
      and the reported one fails. */
  lemma {:induction false} PasswordVerdictIsFirstFailure(password: string)
    ensures ValidatePasswordStrength(password) == FirstFailure(Requirements(password))
    ensures forall k :: 0 <= k < 5 && Requirements(password)[k].1 == ValidatePasswordStrength(password) ==>
              !Requirements(password)[k].0 && forall j :: 0 <= j < k ==> Requirements(password)[j].0
  {
    var r := Requirements(password);
    assert r[4..][1..] == [];
    assert FirstFailure(r[4..]) == (if !r[4].0 then r[4].1 else Strong);
    assert r[3..][1..] == r[4..];
    assert FirstFailure(r[3..]) == (if !r[3].0 then r[3].1 else FirstFailure(r[4..]));
    assert r[2..][1..] == r[3..];
    assert FirstFailure(r[2..]) == (if !r[2].0 then r[2].1 else FirstFailure(r[3..]));
    assert r[1..][1..] == r[2..];
    assert FirstFailure(r[1..]) == (if !r[1].0 then r[1].1 else FirstFailure(r[2..]));
  }

  /** `validate_csrf_token`: a missing or empty token, or no stored token,
      fails; otherwise the two must be equal. */
  function ValidateCsrfToken(token: Option<string>, stored: Option<string>): (ok: bool)
    ensures ok <==> token.Some? && token.value != [] && token == stored
  {
    if token.None? || token.value == [] then false
    else if stored.None? || stored.value == [] then false
    else token == stored
  }

  /** Stripping keeps a string's length bound and adds no character. */
  lemma StripKeepsOut(s: string, c: char)
    requires !Contains(s, c)
    ensures !Contains(Strip(s), c) && |Strip(s)| <= |s|
  {
    var l := StripLeft(s);
    var ip := Strip(s);
    forall i | 0 <= i < |ip| ensures ip[i] != c {
      assert ip[i] == l[i];
      assert l[i] == s[|s| - |l| + i];
    }
  }

  /** `get_client_ip`: with a non-empty X-Forwarded-For header, its first
      comma-separated element, stripped; otherwise REMOTE_ADDR, and
      'unknown' when that is absent too. */
  function GetClientIp(forwardedFor: Option<string>, remoteAddr: Option<string>): (ip: string)
    ensures forwardedFor.Some? && forwardedFor.value != [] ==>
              ip == Strip(FirstField(forwardedFor.value, ','))
              && !Contains(ip, ',') && |ip| <= |forwardedFor.value|
              && (ip == [] || (!IsSpace(ip[0]) && !IsSpace(ip[|ip| - 1])))
    ensures (forwardedFor.None? || forwardedFor.value == []) ==>
              ip == remoteAddr.GetOr("unknown")
  {
    if forwardedFor.Some? && forwardedFor.value != [] then
      var first := FirstField(forwardedFor.value, ',');
      StripTrimsBothEnds(first);
      StripKeepsOut(first, ',');
      Strip(first)
    else remoteAddr.GetOr("unknown")
  }

  /** With a proxy chain "client, proxy, ..." in the header, the address is
      the first hop with its surrounding blanks removed, whatever follows
      the first comma. */
  lemma ClientIpIsFirstHop(hop: string, rest: string, remoteAddr: Option<string>)
    requires !Contains(hop, ',')
    ensures GetClientIp(Some(hop + "," + rest), remoteAddr) == Strip(hop)
  {
    FirstFieldBeforeSeparator(hop, ',', rest);
  }

  /** `sanitize_input`: a missing or empty input is returned unchanged;
      anything else is passed to the markup cleaner `clean` (bleach, a
      foreign library, here a parameter) and stripped. */
  function SanitizeInput(input: Option<string>, clean: string -> string): (r: Option<string>)
    ensures input.None? || input.value == [] ==> r == input
    ensures input.Some? && input.value != [] ==>
              r.Some? && (r.value == [] || (!IsSpace(r.value[0]) && !IsSpace(r.value[|r.value| - 1])))
  {
    if input.None? || input.value == [] then input
    else
      StripTrimsBothEnds(clean(input.value));
      Some(Strip(clean(input.value)))
  }
}
