/**
 * The magic-link token codec (api/_auth.js). A token is `b64url(payload) + "." + b64url(mac)`
 * where the payload is `normalizedEmail|expiresAt` and `mac` is the HMAC-SHA256 of the payload
 * under the server secret. The HMAC is a parameter: the model knows nothing about SHA-256.
 */
module Auth {
  import opened Common
  import opened Text
  import Utf8
  import Base64
  import opened JsNumber

  /** `crypto.createHmac('sha256', secret).update(message).digest()`. */
  type Hmac = (string, seq<Byte>) -> seq<Byte>

  /** `String(v || '')` for a string or a missing value. */
  function StringOrEmpty(v: Option<string>): string
  {
    if v.Some? then v.value else ""
  }

  // ---------------------------------------------------------------------------
  // normalizeEmail
  // ---------------------------------------------------------------------------

  /** `normalizeEmail(email)`: trimmed and lower-cased; a missing email is the empty string. */
  function NormalizeEmail(email: Option<string>): (r: string)
    ensures r == [] || (!IsJsSpace(r[0]) && !IsJsSpace(r[|r| - 1]))
    ensures forall i :: 0 <= i < |r| ==> !IsUpper(r[i])
    ensures email.None? ==> r == ""
  {
    var t := Trim(StringOrEmpty(email));
    LowerCaseChars(t);
    LowerCase(t)
  }

  /** Normalizing twice changes nothing. */
  lemma NormalizeIdempotent(email: Option<string>)
    ensures NormalizeEmail(Some(NormalizeEmail(email))) == NormalizeEmail(email)
  {
    var r := NormalizeEmail(email);
    TrimOfTrimmed(r);
    assert LowerCase(r) == r;
  }

  /** Emails that differ only in surrounding white space and ASCII case normalize alike. */
  lemma NormalizeIgnoresCaseAndSpace(email: string)
    ensures NormalizeEmail(Some(email)) == NormalizeEmail(Some(LowerCase(email)))
    ensures NormalizeEmail(Some(email)) == NormalizeEmail(Some(Trim(email)))
  {
    TrimLowerCase(email);
    LowerCaseIdempotent(Trim(email));
    var t := Trim(email);
    TrimOfTrimmed(t);
  }

  lemma LowerCaseIdempotent(s: string)
    ensures LowerCase(LowerCase(s)) == LowerCase(s)
  {
  }

  // ---------------------------------------------------------------------------
  // signMagicToken
  // ---------------------------------------------------------------------------

  /** The signed text: the normalized email, `|`, and the expiry written out in decimal. */
  function Payload(email: Option<string>, expiresAt: int): string
  {
    NormalizeEmail(email) + "|" + IntToString(expiresAt)
  }

  /** `signMagicToken(email, expiresAt, secret)`. */
  function Sign(email: Option<string>, expiresAt: int, secret: string, hmac: Hmac): (token: string)
    ensures Count(token, '.') == 1
    ensures Split(token, '.') ==
      [Base64.UrlEncode(Utf8.Encode(Payload(email, expiresAt))),
       Base64.UrlEncode(hmac(secret, Utf8.Encode(Payload(email, expiresAt))))]
    ensures forall i :: 0 <= i < |token| ==> Base64.IsUrlChar(token[i]) || token[i] == '.'
  {
    var bytes := Utf8.Encode(Payload(email, expiresAt));
    var p := Base64.UrlEncode(bytes);
    var m := Base64.UrlEncode(hmac(secret, bytes));
    TwoParts(p, m);
    p + "." + m
  }

  /** A URL-safe token part contains no `.`. */
  lemma NoDotInUrlPart(p: string)
    requires forall i :: 0 <= i < |p| ==> Base64.IsUrlChar(p[i])
    ensures '.' !in p
  {
    assert forall i :: 0 <= i < |p| ==> p[i] != '.';
  }

  /** Joining two URL-safe parts with `.` gives a string that splits back into them. */
  lemma TwoParts(p: string, m: string)
    requires forall i :: 0 <= i < |p| ==> Base64.IsUrlChar(p[i])
    requires forall i :: 0 <= i < |m| ==> Base64.IsUrlChar(m[i])
    ensures Split(p + "." + m, '.') == [p, m]
    ensures Count(p + "." + m, '.') == 1
    ensures forall i :: 0 <= i < |p + "." + m| ==> Base64.IsUrlChar((p + "." + m)[i]) || (p + "." + m)[i] == '.'
  {
    NoDotInUrlPart(p);
    NoDotInUrlPart(m);
    SplitTwo(p, '.', m);
    assert p + "." + m == p + ['.'] + m;
  }

  // ---------------------------------------------------------------------------
  // verifyMagicToken
  // ---------------------------------------------------------------------------

  datatype AuthError = Malformed | InvalidSignature | InvalidPayload | EmailMismatch | TokenExpired

  /** The `error` text of each rejection. */
  function Message(e: AuthError): string
  {
    match e
    case Malformed => "Malformed token"
    case InvalidSignature => "Invalid signature"
    case InvalidPayload => "Invalid payload"
    case EmailMismatch => "Email mismatch"
    case TokenExpired => "Token expired"
  }

  /** `{ ok: true }` or `{ ok: false, error }`. */
  datatype Outcome = Ok | Rejected(error: AuthError)

  /** The token has two `.`-parts and the second decodes to the HMAC of what the first decodes to. */
  predicate Authentic(token: string, secret: string, hmac: Hmac)
  {
    var parts := Split(token, '.');
    |parts| == 2 && Base64.UrlDecode(parts[1]) == hmac(secret, Base64.UrlDecode(parts[0]))
  }

  /**
   * The two names `const [tokenEmail, expiresAtRaw] = payload.split('|')` binds: the text before
   * the first `|`, and the text between the first `|` and the next one or the end (none without a `|`).
   */
  function FirstBarFields(payload: string): (f: (string, Option<string>))
    ensures '|' !in f.0 && f.0 <= payload
    ensures f.1.None? <==> '|' !in payload
    ensures f.1.None? ==> f.0 == payload
    ensures f.1.Some? ==> '|' !in f.1.value && f.0 + "|" + f.1.value <= payload
    ensures f.1.Some? && |f.0| + 1 + |f.1.value| < |payload| ==> payload[|f.0| + 1 + |f.1.value|] == '|'
  {
    var pieces := Split(payload, '|');
    SplitFirst(payload, '|');
    CountZero(payload, '|');
    if |pieces| > 1 then
      var rest := payload[|pieces[0]| + 1..];
      SplitFirst(rest, '|');
      assert payload == pieces[0] + "|" + rest;
      (pieces[0], Some(pieces[1]))
    else (pieces[0], None)
  }

  /** `Number(expiresAtRaw)`; `Number(undefined)` is NaN. */
  function ExpiryNumber(raw: Option<string>): NumberValue
  {
    if raw.Some? then StringToNumber(raw.value) else NaN
  }

  /** The checks after the signature: a non-empty email and finite expiry, the email, the expiry. */
  function CheckFields(email: Option<string>, tokenEmail: string, expiresAt: NumberValue, now: int): (r: Outcome)
    ensures r == Ok <==>
      tokenEmail != "" && IsFinite(expiresAt) && NormalizeEmail(Some(tokenEmail)) == NormalizeEmail(email) &&
      now as real <= expiresAt.value
    ensures r.Rejected? ==> r.error in {InvalidPayload, EmailMismatch, TokenExpired}
    ensures r == Rejected(InvalidPayload) <==> tokenEmail == "" || !IsFinite(expiresAt)
    ensures r == Rejected(EmailMismatch) <==>
      tokenEmail != "" && IsFinite(expiresAt) && NormalizeEmail(Some(tokenEmail)) != NormalizeEmail(email)
    ensures r == Rejected(TokenExpired) <==>
      tokenEmail != "" && IsFinite(expiresAt) && NormalizeEmail(Some(tokenEmail)) == NormalizeEmail(email) &&
      now as real > expiresAt.value
  {
    if tokenEmail == "" || !IsFinite(expiresAt) then Rejected(InvalidPayload)
    else if NormalizeEmail(Some(tokenEmail)) != NormalizeEmail(email) then Rejected(EmailMismatch)
    else if now as real > expiresAt.value then Rejected(TokenExpired)
    else Ok
  }

  /** The text the first `.`-part of a token decodes to: `fromB64url(parts[0]).toString('utf8')`. */
  function PayloadText(token: string): string
  {
    Utf8.Decode(Base64.UrlDecode(Split(token, '.')[0]))
  }

  /**
   * `verifyMagicToken(email, token, secret)` at time `now` (milliseconds, `Date.now()`), with the
   * payload cut into the email and the expiry text by `fields`: the token is malformed exactly when
   * it does not have exactly one `.`; then its signature is checked; an authentic token gets the
   * verdict of the payload checks on the two fields.
   */
  function VerifyWith(fields: string -> (string, Option<string>), email: Option<string>, token: Option<string>,
                      secret: string, hmac: Hmac, now: int): (r: Outcome)
    ensures r == Rejected(Malformed) <==> Count(StringOrEmpty(token), '.') != 1
    ensures r == Rejected(InvalidSignature) <==>
      Count(StringOrEmpty(token), '.') == 1 && !Authentic(StringOrEmpty(token), secret, hmac)
    ensures Count(StringOrEmpty(token), '.') == 1 && Authentic(StringOrEmpty(token), secret, hmac) ==>
      (var f := fields(PayloadText(StringOrEmpty(token))); r == CheckFields(email, f.0, ExpiryNumber(f.1), now))
  {
    var parts := Split(StringOrEmpty(token), '.');
    if |parts| != 2 then Rejected(Malformed)
    else
      var payloadBuf := Base64.UrlDecode(parts[0]);
      var sigBuf := Base64.UrlDecode(parts[1]);
      var expectedSig := hmac(secret, payloadBuf);
      if |sigBuf| != |expectedSig| then Rejected(InvalidSignature)
      else if sigBuf != expectedSig then Rejected(InvalidSignature)
      else
        var f := fields(Utf8.Decode(payloadBuf));
        CheckFields(email, f.0, ExpiryNumber(f.1), now)
  }

  /**
   * `verifyMagicToken` as written, splitting the payload at its first `|`: an authentic token is
   * accepted only for the email it carries and until its expiry.
   */
  function Verify(email: Option<string>, token: Option<string>, secret: string, hmac: Hmac, now: int): (r: Outcome)
    ensures r == Rejected(Malformed) <==> Count(StringOrEmpty(token), '.') != 1
    ensures r == Rejected(InvalidSignature) <==>
      Count(StringOrEmpty(token), '.') == 1 && !Authentic(StringOrEmpty(token), secret, hmac)
    ensures Count(StringOrEmpty(token), '.') == 1 && Authentic(StringOrEmpty(token), secret, hmac) ==>
      (var f := FirstBarFields(PayloadText(StringOrEmpty(token))); r == CheckFields(email, f.0, ExpiryNumber(f.1), now))
    ensures r.Ok? ==> Authentic(StringOrEmpty(token), secret, hmac)
    ensures r.Ok? ==>
      (var f := FirstBarFields(PayloadText(StringOrEmpty(token)));
       f.0 != "" && NormalizeEmail(Some(f.0)) == NormalizeEmail(email) &&
       IsFinite(ExpiryNumber(f.1)) && now as real <= ExpiryNumber(f.1).value)
  {
    VerifyWith(FirstBarFields, email, token, secret, hmac, now)
  }

  // ---------------------------------------------------------------------------
  // Signing and verifying together
  // ---------------------------------------------------------------------------

  /** The largest magnitude `String` writes without an exponent, 10^21. */
  const PLAIN_LIMIT: int := 1_000_000_000_000_000_000_000

  /** A signed token passes the format and signature checks and yields the signed payload. */
  lemma SignedTokenOpens(email: Option<string>, expiresAt: int, secret: string, hmac: Hmac)
    ensures var token := Sign(email, expiresAt, secret, hmac);
      Authentic(token, secret, hmac) &&
      PayloadText(token) == Payload(email, expiresAt)
  {
    var bytes := Utf8.Encode(Payload(email, expiresAt));
    Base64.UrlRoundTrip(bytes);
    Base64.UrlRoundTrip(hmac(secret, bytes));
    Utf8.DecodeEncode(Payload(email, expiresAt));
  }

  /** The decimal form of an integer contains no `|`. */
  lemma NoBarInNumber(n: int)
    ensures '|' !in IntToString(n)
  {
    IntToStringChars(n);
    var s := IntToString(n);
    assert forall i :: 0 <= i < |s| ==> s[i] != '|';
  }

  /** The expiry never contains `|`, so a payload splits into the email and the expiry if the email has none. */
  lemma PayloadSplits(email: Option<string>, expiresAt: int)
    requires '|' !in NormalizeEmail(email)
    ensures Split(Payload(email, expiresAt), '|') == [NormalizeEmail(email), IntToString(expiresAt)]
  {
    var e := NormalizeEmail(email);
    var n := IntToString(expiresAt);
    NoBarInNumber(expiresAt);
    assert Payload(email, expiresAt) == e + ['|'] + n;
    SplitTwo(e, '|', n);
  }

  /** The expiry written by `Sign` reads back as the same number. */
  lemma ExpiryReadsBack(expiresAt: int)
    requires -PLAIN_LIMIT < expiresAt < PLAIN_LIMIT
    ensures ExpiryNumber(Some(IntToString(expiresAt))) == Finite(expiresAt as real)
  {
    IntRoundTrip(expiresAt);
  }

  /**
   * Verifying a freshly signed token, for an email without `|` and an expiry that `String` writes
   * in plain decimal: it is rejected as an invalid payload if the signed email is empty, as a
   * mismatch if the emails differ after normalization, as expired strictly after the expiry,
   * and accepted otherwise.
   */
  lemma SignVerify(email: Option<string>, signedEmail: Option<string>, expiresAt: int, secret: string, hmac: Hmac, now: int)
    requires '|' !in NormalizeEmail(signedEmail)
    requires -PLAIN_LIMIT < expiresAt < PLAIN_LIMIT
    ensures Verify(email, Some(Sign(signedEmail, expiresAt, secret, hmac)), secret, hmac, now) ==
      if NormalizeEmail(signedEmail) == "" then Rejected(InvalidPayload)
      else if NormalizeEmail(email) != NormalizeEmail(signedEmail) then Rejected(EmailMismatch)
      else if now > expiresAt then Rejected(TokenExpired)
      else Ok
  {
    FreshTokenFields(email, signedEmail, expiresAt, secret, hmac, now);
    SignedFields(email, signedEmail, expiresAt, now);
  }

  /** A fresh token without `|` in its email reaches the payload checks with the signed email and expiry. */
  lemma FreshTokenFields(email: Option<string>, signedEmail: Option<string>, expiresAt: int, secret: string, hmac: Hmac, now: int)
    requires '|' !in NormalizeEmail(signedEmail)
    ensures Verify(email, Some(Sign(signedEmail, expiresAt, secret, hmac)), secret, hmac, now) ==
      CheckFields(email, NormalizeEmail(signedEmail), ExpiryNumber(Some(IntToString(expiresAt))), now)
  {
    SignedTokenOpens(signedEmail, expiresAt, secret, hmac);
    PayloadSplits(signedEmail, expiresAt);
  }

  /** The payload checks on a signed email and a plain-decimal expiry. */
  lemma SignedFields(email: Option<string>, signedEmail: Option<string>, expiresAt: int, now: int)
    requires -PLAIN_LIMIT < expiresAt < PLAIN_LIMIT
    ensures CheckFields(email, NormalizeEmail(signedEmail), ExpiryNumber(Some(IntToString(expiresAt))), now) ==
      if NormalizeEmail(signedEmail) == "" then Rejected(InvalidPayload)
      else if NormalizeEmail(email) != NormalizeEmail(signedEmail) then Rejected(EmailMismatch)
      else if now > expiresAt then Rejected(TokenExpired)
      else Ok
  {
    var e := NormalizeEmail(signedEmail);
    ExpiryReadsBack(expiresAt);
    CheckFinite(email, e, ExpiryNumber(Some(IntToString(expiresAt))), expiresAt, now);
    RealOrder(now, expiresAt);
    NormalizeIdempotent(signedEmail);
  }

  /** The payload checks on a finite expiry. */
  lemma CheckFinite(email: Option<string>, e: string, x: NumberValue, expiresAt: int, now: int)
    requires x == Finite(expiresAt as real)
    ensures CheckFields(email, e, x, now) ==
      if e == "" then Rejected(InvalidPayload)
      else if NormalizeEmail(Some(e)) != NormalizeEmail(email) then Rejected(EmailMismatch)
      else if now as real > x.value then Rejected(TokenExpired)
      else Ok
  {
  }

  /** Comparing two integers as reals orders them as integers. */
  lemma RealOrder(a: int, b: int)
    ensures (a as real > b as real) == (a > b)
  {
  }

  /** A token is still good at its exact expiry instant and expired one millisecond later. */
  lemma ExpiryIsInclusive(email: Option<string>, expiresAt: int, secret: string, hmac: Hmac)
    requires NormalizeEmail(email) != "" && '|' !in NormalizeEmail(email)
    requires -PLAIN_LIMIT < expiresAt < PLAIN_LIMIT
    ensures Verify(email, Some(Sign(email, expiresAt, secret, hmac)), secret, hmac, expiresAt) == Ok
    ensures Verify(email, Some(Sign(email, expiresAt, secret, hmac)), secret, hmac, expiresAt + 1) == Rejected(TokenExpired)
  {
    SignVerify(email, email, expiresAt, secret, hmac, expiresAt);
    SignVerify(email, email, expiresAt, secret, hmac, expiresAt + 1);
  }

  /** A token signed under one secret is refused under another whose HMAC of its payload differs. */
  lemma OtherSecretRejected(email: Option<string>, signedEmail: Option<string>, expiresAt: int,
                            secret: string, other: string, hmac: Hmac, now: int)
    requires hmac(other, Utf8.Encode(Payload(signedEmail, expiresAt))) != hmac(secret, Utf8.Encode(Payload(signedEmail, expiresAt)))
    ensures Verify(email, Some(Sign(signedEmail, expiresAt, secret, hmac)), other, hmac, now) == Rejected(InvalidSignature)
  {
    var bytes := Utf8.Encode(Payload(signedEmail, expiresAt));
    Base64.UrlRoundTrip(bytes);
    Base64.UrlRoundTrip(hmac(secret, bytes));
  }

  // ---------------------------------------------------------------------------
  // Emails containing `|`
  // ---------------------------------------------------------------------------

  /**
   * As written, the payload is split at its first `|`: for an email such as `x|y@z.io`, which the
   * login handler accepts (it only asks for an `@`) and, for a paying customer, signs, the second
   * field is the rest of the email, which is no number, so the user's own fresh token is refused
   * as an invalid payload.
   */
  lemma BarInEmailRejected(head: string, tail: string, expiresAt: int, secret: string, hmac: Hmac, now: int)
    requires head != "" && '|' !in head && '|' !in tail
    requires |tail| > 0 && IsLower(tail[0]) && tail[0] != 'e'
    requires NormalizeEmail(Some(head + "|" + tail)) == head + "|" + tail
    ensures Verify(Some(head + "|" + tail), Some(Sign(Some(head + "|" + tail), expiresAt, secret, hmac)), secret, hmac, now)
            == Rejected(InvalidPayload)
  {
    var email := Some(head + "|" + tail);
    SignedTokenOpens(email, expiresAt, secret, hmac);
    BarPayloadFields(head, tail, expiresAt);
    BarTailIsNaN(head, tail);
  }

  /** The first `|`-field of such a payload is the part of the email before its `|`, the second the rest. */
  lemma BarPayloadFields(head: string, tail: string, expiresAt: int)
    requires '|' !in head && '|' !in tail
    requires NormalizeEmail(Some(head + "|" + tail)) == head + "|" + tail
    ensures FirstBarFields(Payload(Some(head + "|" + tail), expiresAt)) == (head, Some(tail))
  {
    var e := head + "|" + tail;
    var n := IntToString(expiresAt);
    assert Payload(Some(e), expiresAt) == e + "|" + n;
    BarConcat(head, tail, n);
    FirstBarOf(head, tail, n);
  }

  lemma BarConcat(head: string, tail: string, n: string)
    ensures (head + "|" + tail) + "|" + n == head + ['|'] + (tail + ['|'] + n)
  {
  }

  lemma FirstBarOf(head: string, tail: string, n: string)
    requires '|' !in head && '|' !in tail
    ensures FirstBarFields(head + ['|'] + (tail + ['|'] + n)) == (head, Some(tail))
  {
    SplitAfterFirst(head, '|', tail + ['|'] + n);
    SplitAfterFirst(tail, '|', n);
  }

  /** The rest of a normalized email that starts with a letter other than `e` reads as NaN. */
  lemma BarTailIsNaN(head: string, tail: string)
    requires |tail| > 0 && IsLower(tail[0]) && tail[0] != 'e'
    requires NormalizeEmail(Some(head + "|" + tail)) == head + "|" + tail
    ensures ExpiryNumber(Some(tail)) == NaN
  {
    var e := head + "|" + tail;
    assert e[|e| - 1] == tail[|tail| - 1];
    LetterLedIsNaN(tail);
  }

  /** A string with no upper-case ASCII letter and no white space at its ends is its own normalization. */
  lemma NormalizedAlready(e: string)
    requires e == [] || (!IsJsSpace(e[0]) && !IsJsSpace(e[|e| - 1]))
    requires forall i :: 0 <= i < |e| ==> !IsUpper(e[i])
    ensures NormalizeEmail(Some(e)) == e
  {
    TrimOfTrimmed(e);
    assert LowerCase(e) == e;
  }

  /** The address `x|y@z.io` is such an email. */
  lemma BarInEmailExample(expiresAt: int, secret: string, hmac: Hmac, now: int)
    ensures Verify(Some("x|y@z.io"), Some(Sign(Some("x|y@z.io"), expiresAt, secret, hmac)), secret, hmac, now)
            == Rejected(InvalidPayload)
  {
    ExampleParts();
    ExampleNormalized();
    BarInEmailRejected("x", "y@z.io", expiresAt, secret, hmac, now);
  }

  lemma ExampleParts()
    ensures "x|y@z.io" == "x" + "|" + "y@z.io"
    ensures '|' !in "x" && '|' !in "y@z.io"
    ensures IsLower("y@z.io"[0]) && "y@z.io"[0] != 'e'
  {
    var t := "y@z.io";
    assert forall i :: 0 <= i < |t| ==> t[i] != '|';
  }

  lemma ExampleNormalized()
    ensures NormalizeEmail(Some("x|y@z.io")) == "x|y@z.io"
  {
    var e := "x|y@z.io";
    assert forall i :: 0 <= i < |e| ==> !IsUpper(e[i]);
    NormalizedAlready(e);
  }

  /** The intended split: the expiry is what follows the last `|`, the email everything before it. */
  function LastBarFields(payload: string): (f: (string, Option<string>))
    ensures f.1.Some? ==> payload == f.0 + "|" + f.1.value && '|' !in f.1.value
    ensures f.1.None? ==> payload == f.0 && '|' !in payload
  {
    if payload == [] then ("", None)
    else if payload[|payload| - 1] == '|' then (payload[..|payload| - 1], Some(""))
    else
      var f := LastBarFields(payload[..|payload| - 1]);
      var last := payload[|payload| - 1];
      assert payload == payload[..|payload| - 1] + [last];
      if f.1.Some? then (f.0, Some(f.1.value + [last])) else (f.0 + [last], None)
  }

  /** `verifyMagicToken` with the payload split at its last `|`. */
  function VerifyFixed(email: Option<string>, token: Option<string>, secret: string, hmac: Hmac, now: int): (r: Outcome)
    ensures r == Rejected(Malformed) <==> Count(StringOrEmpty(token), '.') != 1
    ensures r == Rejected(InvalidSignature) <==>
      Count(StringOrEmpty(token), '.') == 1 && !Authentic(StringOrEmpty(token), secret, hmac)
    ensures Count(StringOrEmpty(token), '.') == 1 && Authentic(StringOrEmpty(token), secret, hmac) ==>
      (var f := LastBarFields(PayloadText(StringOrEmpty(token))); r == CheckFields(email, f.0, ExpiryNumber(f.1), now))
  {
    VerifyWith(LastBarFields, email, token, secret, hmac, now)
  }

  /** Splitting at the last `|` recovers the email and the expiry of every payload. */
  lemma LastBarFieldsOfPayload(email: Option<string>, expiresAt: int)
    ensures LastBarFields(Payload(email, expiresAt)) == (NormalizeEmail(email), Some(IntToString(expiresAt)))
  {
    var e := NormalizeEmail(email);
    var n := IntToString(expiresAt);
    NoBarInNumber(expiresAt);
    LastBarOf(e, n);
  }

  lemma {:induction false} LastBarOf(e: string, n: string)
    requires '|' !in n
    ensures LastBarFields(e + "|" + n) == (e, Some(n))
    decreases |n|
  {
    if n == [] {
      LastBarAtEnd(e);
      assert e + "|" + n == e + ['|'];
    } else {
      var m := n[..|n| - 1];
      var last := n[|n| - 1];
      assert last != '|' && '|' !in m by {
        assert forall i :: 0 <= i < |m| ==> m[i] == n[i];
      }
      assert n == m + [last];
      LastBarOf(e, m);
      LastBarExtend(e, m, last);
    }
  }

  /** Appending a character other than `|` to the expiry field extends it. */
  lemma LastBarExtend(e: string, m: string, c: char)
    requires c != '|' && LastBarFields(e + "|" + m) == (e, Some(m))
    ensures LastBarFields(e + "|" + (m + [c])) == (e, Some(m + [c]))
  {
    var q := e + "|" + m;
    LastBarStep(q, c);
    assert e + "|" + (m + [c]) == q + [c];
  }

  /** A payload ending in `|` has an empty expiry. */
  lemma LastBarAtEnd(q: string)
    ensures LastBarFields(q + ['|']) == (q, Some(""))
  {
    assert (q + ['|'])[..|q|] == q;
  }

  /** A last character other than `|` joins the last field. */
  lemma LastBarStep(q: string, c: char)
    requires c != '|'
    ensures var f := LastBarFields(q);
      LastBarFields(q + [c]) == if f.1.Some? then (f.0, Some(f.1.value + [c])) else (f.0 + [c], None)
  {
    assert (q + [c])[..|q|] == q;
  }

  /** With the fix, every freshly signed token verifies for its own email until it expires. */
  lemma FixedSignVerify(email: Option<string>, signedEmail: Option<string>, expiresAt: int, secret: string, hmac: Hmac, now: int)
    requires -PLAIN_LIMIT < expiresAt < PLAIN_LIMIT
    ensures VerifyFixed(email, Some(Sign(signedEmail, expiresAt, secret, hmac)), secret, hmac, now) ==
      if NormalizeEmail(signedEmail) == "" then Rejected(InvalidPayload)
      else if NormalizeEmail(email) != NormalizeEmail(signedEmail) then Rejected(EmailMismatch)
      else if now > expiresAt then Rejected(TokenExpired)
      else Ok
  {
    FixedFreshTokenFields(email, signedEmail, expiresAt, secret, hmac, now);
    SignedFields(email, signedEmail, expiresAt, now);
  }

  /** With the fix, every fresh token reaches the payload checks with the signed email and expiry. */
  lemma FixedFreshTokenFields(email: Option<string>, signedEmail: Option<string>, expiresAt: int, secret: string, hmac: Hmac, now: int)
    ensures VerifyFixed(email, Some(Sign(signedEmail, expiresAt, secret, hmac)), secret, hmac, now) ==
      CheckFields(email, NormalizeEmail(signedEmail), ExpiryNumber(Some(IntToString(expiresAt))), now)
  {
    SignedTokenOpens(signedEmail, expiresAt, secret, hmac);
    LastBarFieldsOfPayload(signedEmail, expiresAt);
  }

  /** Where the signed email has no `|`, the fix changes nothing for freshly signed tokens. */
  lemma FixAgreesWithoutBar(email: Option<string>, signedEmail: Option<string>, expiresAt: int, secret: string, hmac: Hmac, now: int)
    requires '|' !in NormalizeEmail(signedEmail)
    requires -PLAIN_LIMIT < expiresAt < PLAIN_LIMIT
    ensures VerifyFixed(email, Some(Sign(signedEmail, expiresAt, secret, hmac)), secret, hmac, now) ==
            Verify(email, Some(Sign(signedEmail, expiresAt, secret, hmac)), secret, hmac, now)
  {
    SignVerify(email, signedEmail, expiresAt, secret, hmac, now);
    FixedSignVerify(email, signedEmail, expiresAt, secret, hmac, now);
  }
}
