/**
 * The one-time-passcode gate of src/lib/auth-service.ts: a table from email to the
 * pending code and the time it was issued. The clock (`Date.now()`, milliseconds)
 * is a parameter; one reading serves a whole call.
 */
module Auth {
  import opened Wrappers
  import opened Text

  /** A pending code stays valid for five minutes, in milliseconds. */
  const OtpExpiry: int := 5 * 60 * 1000

  /** The code every request receives. */
  const FixedOtp: string := "123456"

  datatype OtpEntry = OtpEntry(email: string, otp: string, timestamp: int)

  datatype User = User(
    projectId: string,
    uid: string,
    name: string,
    email: string,
    createdTime: int,
    lastLoginTime: int)

  /** The three errors `verifyOTP` throws. */
  datatype AuthError = NoOtpForEmail | OtpExpired | InvalidOtp

  type Pending = map<string, OtpEntry>

  /** A code is expired once strictly more than `OtpExpiry` has passed since it was issued. */
  predicate IsExpired(entry: OtpEntry, now: nat) {
    now - entry.timestamp > OtpExpiry
  }

  /** The user record a successful verification creates. */
  function LocalUser(email: string, now: nat): (u: User)
    ensures u.email == email
  {
    User("local-dev", "user_" + NatToString(now), "Admin User", email, now, now)
  }

  /** What `sendOTP` leaves behind: one fresh entry for `email`, every other pending code gone. */
  function Issue(email: string, now: nat): (p: Pending)
    ensures p.Keys == {email}
    ensures p[email].otp == FixedOtp && p[email].timestamp == now && p[email].email == email
  {
    map[email := OtpEntry(email, FixedOtp, now)]
  }

  /**
   * What `verifyOTP` returns and leaves behind. The checks run in the order: no
   * entry, expired (entry deleted), wrong code (entry kept), success (entry deleted,
   * so the code is single-use). No other email's entry is touched.
   */
  function Verify(pending: Pending, email: string, code: string, now: nat): (out: (Result<User, AuthError>, Pending))
    ensures out.0.Success? <==>
      email in pending && !IsExpired(pending[email], now) && pending[email].otp == code
    ensures out.0.Success? ==> out.0.value.email == email
    ensures out.0 == Failure(NoOtpForEmail) <==> email !in pending
    ensures out.0 == Failure(OtpExpired) <==> email in pending && IsExpired(pending[email], now)
    ensures out.0 == Failure(InvalidOtp) <==>
      email in pending && !IsExpired(pending[email], now) && pending[email].otp != code
    ensures email in out.1 <==> out.0 == Failure(InvalidOtp)
    ensures email in out.1 ==> out.1[email] == pending[email]
    ensures forall e :: e != email ==> (e in out.1 <==> e in pending)
    ensures forall e :: e != email && e in pending ==> out.1[e] == pending[e]
  {
    if email !in pending then (Failure(NoOtpForEmail), pending)
    else if now - pending[email].timestamp > OtpExpiry then (Failure(OtpExpired), pending - {email})
    else if pending[email].otp != code then (Failure(InvalidOtp), pending)
    else (Success(LocalUser(email, now)), pending - {email})
  }

  class AuthService {
    /** The pending codes, keyed by email. */
    var pending: Pending

    constructor ()
      ensures pending == map[]
    {
      pending := map[];
    }

    /** `sendOTP`: discards every pending code, then issues the fixed code to `email` at `now`. */
    method SendOTP(email: string, now: nat)
      modifies this
      ensures pending == Issue(email, now)
    {
      pending := map[];
      pending := pending[email := OtpEntry(email, FixedOtp, now)];
    }

    /** `verifyOTP`, step by step as the source runs it. */
    method VerifyOTP(email: string, code: string, now: nat) returns (r: Result<User, AuthError>)
      modifies this
      ensures (r, pending) == Verify(old(pending), email, code, now)
    {
      if email !in pending {
        return Failure(NoOtpForEmail);
      }
      var userData := pending[email];
      if now - userData.timestamp > OtpExpiry {
        pending := pending - {email};
        return Failure(OtpExpired);
      }
      if userData.otp != code {
        return Failure(InvalidOtp);
      }
      var user := User("local-dev", "user_" + NatToString(now), "Admin User", email, now, now);
      pending := pending - {email};
      r := Success(user);
    }
  }

  /** A code sent at `sent` and presented at `now` is accepted exactly when at most five minutes have passed. */
  lemma SendThenVerify(email: string, sent: nat, now: nat)
    ensures Verify(Issue(email, sent), email, FixedOtp, now).0.Success? <==> now - sent <= OtpExpiry
    ensures Verify(Issue(email, sent), email, FixedOtp, now).1 == map[]
  {
  }

  /** A code exactly five minutes old is still accepted; one millisecond later it is not. */
  lemma ExpiryBoundary(email: string, sent: nat)
    ensures Verify(Issue(email, sent), email, FixedOtp, sent + OtpExpiry).0.Success?
    ensures Verify(Issue(email, sent), email, FixedOtp, sent + OtpExpiry + 1).0 == Failure(OtpExpired)
  {
  }

  /** A code works once: the second verification with the same code finds no entry. */
  lemma SingleUse(pending: Pending, email: string, code: string, now: nat, later: nat)
    requires Verify(pending, email, code, now).0.Success?
    ensures Verify(Verify(pending, email, code, now).1, email, code, later).0 == Failure(NoOtpForEmail)
  {
  }

  /** A wrong code keeps the entry, so the right code presented in time still succeeds. */
  lemma RetryAfterWrongCode(pending: Pending, email: string, wrong: string, now: nat, later: nat)
    requires Verify(pending, email, wrong, now).0 == Failure(InvalidOtp)
    requires now <= later && !IsExpired(pending[email], later)
    ensures Verify(Verify(pending, email, wrong, now).1, email, pending[email].otp, later).0.Success?
  {
  }

  /** Sending a code to one email invalidates the code pending for any other. */
  lemma SendDiscardsOthers(email: string, other: string, code: string, sent: nat, now: nat)
    requires other != email
    ensures Verify(Issue(email, sent), other, code, now).0 == Failure(NoOtpForEmail)
  {
  }
}
