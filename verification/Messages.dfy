/** The texts a verifier puts into its replies, as bytes. */
module Messages {
  import opened Bytes
  import opened NumberTheory
  import opened Protocol
  import opened Replay
  import opened Schnorr

  function Ascii(s: string): (t: Text)
    ensures |t| == |s|
  {
    seq(|s|, i requires 0 <= i < |s| => (s[i] as int) % 256)
  }

  function Digits(n: nat): Text {
    if n < 10 then [48 + n] else Digits(n / 10) + [48 + n % 10]
  }

  function Decimal(x: i64): Text {
    if x < 0 then [45] + Digits(0 - x) else Digits(x)
  }

  function Pow10(w: nat): (p: nat)
    ensures p > 0
  {
    if w == 0 then 1 else 10 * Pow10(w - 1)
  }

  lemma AsciiExact(s: string, i: nat)
    requires i < |s| && s[i] < 128 as char
    ensures Ascii(s)[i] as int == s[i] as int
  {
  }

  /** No leading zeros, and as many digits as it takes. */
  lemma {:induction false} DigitsShape(n: nat)
    ensures |Digits(n)| > 0 && n < Pow10(|Digits(n)|)
    ensures Digits(n)[0] as int == 48 ==> n == 0 && |Digits(n)| == 1
  {
    if n >= 10 {
      DigitsShape(n / 10);
      assert Digits(n)[0] == Digits(n / 10)[0];
    }
  }

  /** The decimal notation of n, the most significant digit first. */
  lemma {:induction false} DigitsExact(n: nat, i: nat)
    requires i < |Digits(n)|
    ensures Digits(n)[i] as int == 48 + n / Pow10(|Digits(n)| - 1 - i) % 10
  {
    if n >= 10 && i < |Digits(n)| - 1 {
      DigitsExact(n / 10, i);
      DivideByTen(n, Pow10(|Digits(n)| - 2 - i));
    }
  }

  lemma DivideByTen(n: nat, m: nat)
    requires m > 0
    ensures n / (10 * m) == n / 10 / m
  {
    var q, r := n / 10 / m, n / 10 % m;
    assert n == 10 * (q * m + r) + n % 10;
    assert n == q * (10 * m) + (10 * r + n % 10);
    QuotientUnique(n, q, 10 * r + n % 10, 10 * m);
  }

  lemma {:induction false} DigitsLength(n: nat, w: nat)
    requires w >= 1 && n < Pow10(w)
    ensures |Digits(n)| <= w
  {
    if n >= 10 { DigitsLength(n / 10, w - 1); }
  }

  lemma DecimalLength(x: i64)
    ensures |Decimal(x)| <= 20
  {
    assert Pow10(5) == 100_000;
    assert Pow10(10) == 10_000_000_000;
    assert Pow10(15) == 1_000_000_000_000_000;
    assert Pow10(19) == 10_000_000_000_000_000_000;
    DigitsLength(if x < 0 then 0 - x else x, 19);
  }

  function ReplayText(e: ReplayError): Text {
    match e
    case ProofExpired(age, max) =>
      Ascii("Proof expired: age ") + Decimal(age)
      + Ascii("s exceeds maximum allowed drift of ") + Decimal(max) + Ascii("s")
    case ClockSkewFuture(drift) =>
      Ascii("Future timestamp detected: clock skew of ") + Decimal(drift) + Ascii("s exceeds maximum allowed")
    case ReplayDetected => Ascii("Replay attack detected: Nonce has already been used for this user")
  }

  /** The text of a window refusal names the age of the proof and the tolerance, or how far it lies
      ahead. */
  lemma WindowRefusalTells(d: i64, now: i64, ts: i64)
    requires SaneClock(d, now)
    ensures d < now - ts < TWO_63 ==>
              && WindowError(d, now, ts).Some?
              && ReplayText(WindowError(d, now, ts).value) ==
                   Ascii("Proof expired: age ") + Decimal(now - ts)
                   + Ascii("s exceeds maximum allowed drift of ") + Decimal(d) + Ascii("s")
    ensures d < ts - now < TWO_63 ==>
              && WindowError(d, now, ts).Some?
              && ReplayText(WindowError(d, now, ts).value) ==
                   Ascii("Future timestamp detected: clock skew of ") + Decimal(ts - now)
                   + Ascii("s exceeds maximum allowed")
  {
    hide Ascii, WindowError, Decimal;
    WindowExact(d, now, ts);
  }

  lemma ReplayTextLength(e: ReplayError)
    ensures |ReplayText(e)| <= 100
  {
    match e
    case ProofExpired(age, max) => DecimalLength(age); DecimalLength(max);
    case ClockSkewFuture(drift) => DecimalLength(drift);
    case ReplayDetected =>
  }

  function VerifyText(e: VerifyError): Text {
    match e
    case InvalidRFormat => Ascii("Serialization failed: Invalid R point length/format")
    case InvalidEncoding => Ascii("Serialization failed: Invalid point encoding")
  }

  /** Why a request was answered as it was. */
  datatype Reason =
    | NotRegistered
    | StorageFailed(detail: Text)
    | KeyMismatch
    | ReplayRefused(replay: ReplayError)
    | IdentityVerified
    | ProofMismatch
    | ProofUnreadable(error: VerifyError)

  function TcpText(user: Text, reason: Reason): Text {
    match reason
    case NotRegistered => Ascii("Authentication failed: User '") + user + Ascii("' is not registered with bank")
    case StorageFailed(detail) => Ascii("Storage lookup error: ") + detail
    case KeyMismatch => Ascii("Authentication failed: Public key does not match bank records")
    case ReplayRefused(e) => Ascii("Security rejection: ") + ReplayText(e)
    case IdentityVerified => Ascii("Identity verified successfully for user '") + user + Ascii("'.")
    case ProofMismatch => Ascii("Verification failed: Mathematical proof check did not match public key.")
    case ProofUnreadable(e) => Ascii("Cryptographic verification error: ") + VerifyText(e)
  }

  function KafkaText(user: Text, reason: Reason): Text {
    match reason
    case NotRegistered => Ascii("Authentication failed: User '") + user + Ascii("' is not registered with bank")
    case StorageFailed(detail) => Ascii("Database storage error: ") + detail
    case KeyMismatch => Ascii("Authentication failed: Public key does not match bank records")
    case ReplayRefused(e) => Ascii("Security rejection: ") + ReplayText(e)
    case IdentityVerified => Ascii("ZKP Identity verified successfully for '") + user + Ascii("'")
    case ProofMismatch => Ascii("Verification failed: Mathematical check failed")
    case ProofUnreadable(e) => Ascii("Cryptographic math error: ") + VerifyText(e)
  }

  lemma NameTextLengths(user: Text)
    ensures |TcpText(user, NotRegistered)| == 58 + |user|
    ensures |TcpText(user, IdentityVerified)| == 43 + |user|
  {
  }

  lemma FixedTextLength(user: Text, reason: Reason)
    requires reason.KeyMismatch? || reason.ProofMismatch?
    ensures |TcpText(user, reason)| <= 120
  {
  }

  lemma UnreadableTextLength(user: Text, e: VerifyError)
    ensures |TcpText(user, ProofUnreadable(e))| <= 120
  {
  }

  lemma RejectionTextLength(user: Text, e: ReplayError)
    ensures |TcpText(user, ReplayRefused(e))| <= 120
  {
    ReplayTextLength(e);
  }

  lemma StorageTextLength(user: Text, detail: Text)
    ensures |TcpText(user, StorageFailed(detail))| == 22 + |detail|
  {
  }

  /** Only the name and a storage fault make a text long. */
  lemma TcpTextLength(user: Text, reason: Reason)
    ensures match reason
            case NotRegistered => |TcpText(user, reason)| == 58 + |user|
            case IdentityVerified => |TcpText(user, reason)| == 43 + |user|
            case StorageFailed(detail) => |TcpText(user, reason)| == 22 + |detail|
            case _ => |TcpText(user, reason)| <= 120
  {
    match reason
    case NotRegistered => NameTextLengths(user);
    case IdentityVerified => NameTextLengths(user);
    case StorageFailed(detail) => StorageTextLength(user, detail);
    case ReplayRefused(e) => RejectionTextLength(user, e);
    case ProofUnreadable(e) => UnreadableTextLength(user, e);
    case _ => FixedTextLength(user, reason);
  }
}
