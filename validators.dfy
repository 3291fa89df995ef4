/**
 * The field validators of the Donor and Profile models: Israeli ID numbers,
 * Israeli mobile phone numbers and e-mail addresses. The two regular
 * expressions are written out as direct recognisers over the characters.
 */
module Validators {
  import opened Wrappers
  import opened Text

  // ---------------------------------------------------------------------
  // Israeli ID (teudat zehut)
  // ---------------------------------------------------------------------

  datatype IdError = IdNotDigits | IdWrongLength

  /** `validate_israeli_id`: strip, then digits only (checked first), then exactly nine of them. */
  function ValidateIsraeliId(value: string): Outcome<IdError> {
    var v := Strip(value);
    if !IsDigits(v) then Fail(IdNotDigits)
    else if |v| != 9 then Fail(IdWrongLength)
    else Pass
  }

  /** What the ID validator accepts, and which error a rejected value gets. */
  lemma IsraeliIdLanguage(value: string)
    ensures ValidateIsraeliId(value).Pass?
        <==> |Strip(value)| == 9 && forall i | 0 <= i < 9 :: IsDigit(Strip(value)[i])
    ensures Strip(value) == [] ==> ValidateIsraeliId(value) == Fail(IdNotDigits)
    ensures IsDigits(Strip(value)) && |Strip(value)| != 9 ==> ValidateIsraeliId(value) == Fail(IdWrongLength)
  {
  }

  // ---------------------------------------------------------------------
  // Israeli mobile phone: ^(?:\+972|0)(?:\-)?5[02-9](?:\-)?\d{7}$
  // ---------------------------------------------------------------------

  datatype PhoneError = BadPhoneFormat

  /** `[02-9]`: the operator digit after the 5. */
  predicate IsOperatorDigit(c: char) {
    c == '0' || '2' <= c <= '9'
  }

  /** `\d{7}$` */
  predicate SevenDigits(t: string) {
    |t| == 7 && IsDigits(t)
  }

  /** `(?:\-)?\d{7}$` */
  predicate AfterOperator(t: string) {
    SevenDigits(t) || (|t| > 0 && t[0] == '-' && SevenDigits(t[1..]))
  }

  /** `5[02-9](?:\-)?\d{7}$` */
  predicate MobilePart(t: string) {
    |t| >= 2 && t[0] == '5' && IsOperatorDigit(t[1]) && AfterOperator(t[2..])
  }

  /** `(?:\-)?5[02-9](?:\-)?\d{7}$` */
  predicate AfterPrefix(t: string) {
    MobilePart(t) || (|t| > 0 && t[0] == '-' && MobilePart(t[1..]))
  }

  /** The whole pattern, anchored at both ends. */
  predicate PhonePattern(s: string) {
    || (StartsWith(s, "+972") && AfterPrefix(s[4..]))
    || (StartsWith(s, "0") && AfterPrefix(s[1..]))
  }

  /** `validate_israeli_phone`: the stripped value must match the pattern. */
  function ValidateIsraeliPhone(value: string): Outcome<PhoneError> {
    if PhonePattern(Strip(value)) then Pass else Fail(BadPhoneFormat)
  }

  /** An optional dash. */
  function Dash(present: bool): string {
    if present then "-" else ""
  }

  /** The number assembled from its parts: prefix, optional dash, 5 and operator digit, optional dash, seven digits. */
  function PhoneFrom(international: bool, dash1: bool, operator: char, dash2: bool, digits: string): string {
    (if international then "+972" else "0") + Dash(dash1) + ['5', operator] + Dash(dash2) + digits
  }

  /** Well-formed parts of a phone number. */
  predicate PhoneParts(operator: char, digits: string) {
    IsOperatorDigit(operator) && SevenDigits(digits)
  }

  /** An operator digit, an optional dash and seven digits after a 5 match `5[02-9](?:\-)?\d{7}$`. */
  lemma MobileFromMatches(operator: char, dash: bool, digits: string)
    requires PhoneParts(operator, digits)
    ensures MobilePart(['5', operator] + Dash(dash) + digits)
  {
    var m := ['5', operator] + Dash(dash) + digits;
    if dash {
      assert m[2..] == "-" + digits;
      assert m[2..][1..] == digits;
    } else {
      assert m[2..] == digits;
    }
  }

  /** An optional dash before a mobile part matches `(?:\-)?5[02-9](?:\-)?\d{7}$`. */
  lemma AfterPrefixFromMatches(dash: bool, m: string)
    requires MobilePart(m)
    ensures AfterPrefix(Dash(dash) + m)
  {
    if dash {
      assert (Dash(dash) + m)[1..] == m;
    } else {
      assert Dash(dash) + m == m;
    }
  }

  /** Every number assembled from well-formed parts matches the pattern. */
  lemma PhoneFromMatches(international: bool, dash1: bool, operator: char, dash2: bool, digits: string)
    requires PhoneParts(operator, digits)
    ensures PhonePattern(PhoneFrom(international, dash1, operator, dash2, digits))
  {
    var p := if international then "+972" else "0";
    var m := ['5', operator] + Dash(dash2) + digits;
    var rest := Dash(dash1) + m;
    var s := PhoneFrom(international, dash1, operator, dash2, digits);
    MobileFromMatches(operator, dash2, digits);
    AfterPrefixFromMatches(dash1, m);
    PhoneFromSplit(international, dash1, operator, dash2, digits);
    assert s == p + rest;
    assert s[..|p|] == p;
    assert s[|p|..] == rest;
  }

  /** `(?:\-)?\d{7}$` split into its optional dash and its digits. */
  lemma AfterOperatorParts(t: string) returns (dash: bool, digits: string)
    requires AfterOperator(t)
    ensures SevenDigits(digits) && t == Dash(dash) + digits
  {
    dash := !SevenDigits(t);
    digits := if dash then t[1..] else t;
    if dash {
      assert t == [t[0]] + t[1..];
    }
  }

  /** `5[02-9](?:\-)?\d{7}$` split into its operator digit, optional dash and digits. */
  lemma MobileParts(t: string) returns (operator: char, dash: bool, digits: string)
    requires MobilePart(t)
    ensures PhoneParts(operator, digits) && t == ['5', operator] + Dash(dash) + digits
  {
    operator := t[1];
    dash, digits := AfterOperatorParts(t[2..]);
    assert t == t[..2] + t[2..];
  }

  /** `(?:\-)?5[02-9](?:\-)?\d{7}$` split into its parts. */
  lemma AfterPrefixParts(t: string) returns (dash1: bool, operator: char, dash2: bool, digits: string)
    requires AfterPrefix(t)
    ensures PhoneParts(operator, digits) && t == Dash(dash1) + (['5', operator] + Dash(dash2) + digits)
  {
    dash1 := !MobilePart(t);
    var m := if dash1 then t[1..] else t;
    if dash1 {
      assert t == [t[0]] + t[1..];
    }
    operator, dash2, digits := MobileParts(m);
  }

  /**
   * Every string the pattern matches is assembled from well-formed parts,
   * and is between 10 and 15 characters long (the field's `max_length`).
   */
  lemma PhonePatternParts(s: string) returns (international: bool, dash1: bool, operator: char, dash2: bool, digits: string)
    requires PhonePattern(s)
    ensures PhoneParts(operator, digits)
    ensures s == PhoneFrom(international, dash1, operator, dash2, digits)
    ensures 10 <= |s| <= 15
  {
    var p, rest;
    if StartsWith(s, "+972") && AfterPrefix(s[4..]) {
      international, p, rest := true, "+972", s[4..];
    } else {
      international, p, rest := false, "0", s[1..];
    }
    assert s == p + rest;
    dash1, operator, dash2, digits := AfterPrefixParts(rest);
    PhoneFromSplit(international, dash1, operator, dash2, digits);
  }

  /** The length of an assembled number, and its split into prefix and the rest. */
  lemma PhoneFromSplit(international: bool, dash1: bool, operator: char, dash2: bool, digits: string)
    requires |digits| == 7
    ensures var p := if international then "+972" else "0";
      PhoneFrom(international, dash1, operator, dash2, digits)
        == p + (Dash(dash1) + (['5', operator] + Dash(dash2) + digits))
    ensures 10 <= |PhoneFrom(international, dash1, operator, dash2, digits)| <= 15
  {
  }

  // ---------------------------------------------------------------------
  // E-mail: ^[a-zA-Z0-9._%+-]+@[a-zA-Z0-9.-]+\.[a-zA-Z]{2,}$
  // ---------------------------------------------------------------------

  datatype EmailError = BadEmailFormat | DisposableEmail

  /** `[a-zA-Z0-9._%+-]` */
  predicate LocalChar(c: char) {
    IsLetter(c) || IsDigit(c) || c == '.' || c == '_' || c == '%' || c == '+' || c == '-'
  }

  /** `[a-zA-Z0-9.-]` */
  predicate HostChar(c: char) {
    IsLetter(c) || IsDigit(c) || c == '.' || c == '-'
  }

  /** `[a-zA-Z0-9._%+-]+` */
  predicate LocalPart(t: string) {
    |t| > 0 && forall i | 0 <= i < |t| :: LocalChar(t[i])
  }

  /** `[a-zA-Z0-9.-]+` */
  predicate HostPart(t: string) {
    |t| > 0 && forall i | 0 <= i < |t| :: HostChar(t[i])
  }

  /** `[a-zA-Z]{2,}$` */
  predicate TopLevel(t: string) {
    |t| >= 2 && forall i | 0 <= i < |t| :: IsLetter(t[i])
  }

  /** The position of the first `c` in `s`, or `|s|` when there is none. */
  function FirstIndex(s: string, c: char): (i: nat)
    ensures i <= |s|
    ensures i < |s| ==> s[i] == c
    ensures forall k | 0 <= k < i :: s[k] != c
  {
    if s == [] then 0
    else if s[0] == c then 0
    else 1 + FirstIndex(s[1..], c)
  }

  /** The position of the last `c` in `s`, or `-1` when there is none. */
  function LastIndex(s: string, c: char): (i: int)
    ensures -1 <= i < |s|
    ensures i >= 0 ==> s[i] == c
    ensures forall k | i < k < |s| :: s[k] != c
  {
    if s == [] then -1
    else if s[|s| - 1] == c then |s| - 1
    else LastIndex(s[..|s| - 1], c)
  }

  /**
   * `[a-zA-Z0-9.-]+\.[a-zA-Z]{2,}$`: the top-level part contains no dot, so
   * the regular expression can only split the domain at its last dot.
   */
  predicate DomainPattern(d: string) {
    var dot := LastIndex(d, '.');
    dot > 0 && HostPart(d[..dot]) && TopLevel(d[dot + 1..])
  }

  /** The anchored e-mail pattern; no part may contain `@`, so the `@` is the first one. */
  predicate EmailPattern(s: string) {
    var at := FirstIndex(s, '@');
    at < |s| && LocalPart(s[..at]) && DomainPattern(s[at + 1..])
  }

  /** `value.split('@')[1]` on a matching address: everything after its only `@`. */
  function Domain(s: string): string {
    var at := FirstIndex(s, '@');
    if at < |s| then s[at + 1..] else ""
  }

  /** The ten throw-away domains the validator refuses. */
  const DisposableDomains: seq<string> := [
    "tempmail.com", "disposable.com", "throwaway.com", "temp-mail.org",
    "guerrillamail.com", "mailinator.com", "10minutemail.com", "yopmail.com",
    "fakeinbox.com", "trashmail.com"
  ]

  /** The lower-cased domain is one of the throw-away ones. */
  predicate Disposable(domain: string) {
    Lower(domain) in DisposableDomains
  }

  /**
   * `validate_email`: the empty value comes back unchanged; otherwise the
   * stripped value, provided it matches the pattern and its lower-cased
   * domain is not a disposable one.
   */
  function ValidateEmail(value: string): Result<string, EmailError> {
    if value == "" then Ok(value)
    else
      var v := Strip(value);
      if !EmailPattern(v) then Err(BadEmailFormat)
      else if Disposable(Domain(v)) then Err(DisposableEmail)
      else Ok(v)
  }

  /** What `validate_email` returns: the empty value, or the stripped value if it is a usable address. */
  lemma ValidateEmailAccepts(value: string)
    ensures value == "" ==> ValidateEmail(value) == Ok("")
    ensures value != "" && ValidateEmail(value).Ok? ==> ValidateEmail(value).value == Strip(value)
    ensures value != "" ==>
      (ValidateEmail(value).Ok? <==> EmailPattern(Strip(value)) && Lower(Domain(Strip(value))) !in DisposableDomains)
  {
  }

  /** An address assembled from its three parts. */
  function EmailFrom(local: string, host: string, tld: string): string {
    local + "@" + host + "." + tld
  }

  /** In an assembled address the first `@` is the one after the local part. */
  lemma EmailFromSplit(local: string, host: string, tld: string)
    requires LocalPart(local)
    ensures FirstIndex(EmailFrom(local, host, tld), '@') == |local|
    ensures EmailFrom(local, host, tld)[..|local|] == local
    ensures EmailFrom(local, host, tld)[|local| + 1..] == host + "." + tld
  {
    var s := EmailFrom(local, host, tld);
    assert s == local + "@" + (host + "." + tld);
    assert s[|local|] == '@';
    assert forall k | 0 <= k < |local| :: s[k] == local[k];
    FirstIndexAt(s, '@', |local|);
  }

  /** A dot followed only by letters is the last dot. */
  lemma DotBeforeLetters(d: string, i: nat, tld: string)
    requires i < |d| && d[i] == '.' && d[i + 1..] == tld && TopLevel(tld)
    ensures LastIndex(d, '.') == i
  {
    forall k | i < k < |d| ensures d[k] != '.' {
      assert d[k] == tld[k - i - 1];
    }
    LastIndexAt(d, '.', i);
  }

  /** Cutting `host.tld` around the dot after the host gives back both parts. */
  lemma JoinSlices(host: string, tld: string)
    ensures (host + "." + tld)[|host|] == '.'
    ensures (host + "." + tld)[..|host|] == host
    ensures (host + "." + tld)[|host| + 1..] == tld
  {
    var d := host + "." + tld;
    assert d[|host| + 1..] == tld;
  }

  /** Every address assembled from well-formed parts matches, and its domain is `host.tld`. */
  lemma EmailFromMatches(local: string, host: string, tld: string)
    requires LocalPart(local) && HostPart(host) && TopLevel(tld)
    ensures EmailPattern(EmailFrom(local, host, tld))
    ensures Domain(EmailFrom(local, host, tld)) == host + "." + tld
  {
    EmailFromSplit(local, host, tld);
    JoinSlices(host, tld);
    DotBeforeLetters(host + "." + tld, |host|, tld);
  }

  /** Every matching address splits into well-formed parts. */
  lemma EmailPatternParts(s: string) returns (local: string, host: string, tld: string)
    requires EmailPattern(s)
    ensures LocalPart(local) && HostPart(host) && TopLevel(tld)
    ensures s == EmailFrom(local, host, tld)
  {
    var at := FirstIndex(s, '@');
    var d := s[at + 1..];
    var dot := LastIndex(d, '.');
    local, host, tld := s[..at], d[..dot], d[dot + 1..];
    assert d == host + "." + tld;
    assert s == local + "@" + d;
  }

  /** `FirstIndex` finds `c` at `i` when `i` holds `c` and nothing before it does. */
  lemma {:induction false} FirstIndexAt(s: string, c: char, i: nat)
    requires i < |s| && s[i] == c
    requires forall k | 0 <= k < i :: s[k] != c
    ensures FirstIndex(s, c) == i
  {
    if i > 0 {
      FirstIndexAt(s[1..], c, i - 1);
    }
  }

  /** `LastIndex` finds `c` at `i` when `i` holds `c` and nothing after it does. */
  lemma {:induction false} LastIndexAt(s: string, c: char, i: nat)
    requires i < |s| && s[i] == c
    requires forall k | i < k < |s| :: s[k] != c
    ensures LastIndex(s, c) == i
  {
    if i < |s| - 1 {
      LastIndexAt(s[..|s| - 1], c, i);
    }
  }
}
