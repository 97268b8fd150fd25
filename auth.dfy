/** The admin login guard (`authorize` in src/lib/auth.ts): a fixed chain of
    checks on one login attempt and the per-user attempt counter and lockout
    it keeps in the user store. */
module Auth {
  import opened Wrappers
  import Captcha

  /** Failures that lock the account. */
  const MaxAttempts := 5
  /** A failure more than this long after the previous one restarts the count. */
  const AttemptWindowMs := 5 * 60 * 1000
  /** How long a lockout lasts. */
  const LockoutMs := 60 * 60 * 1000
  const MinuteMs := 60 * 1000

  /** The stored `AdminUser` row, with times in milliseconds. */
  datatype AdminUser = AdminUser(
    id: string,
    email: string,
    name: string,
    password: string,             // the bcrypt hash
    loginAttempts: nat,
    lastAttemptTime: Option<int>,
    lockoutUntil: Option<int>)

  /** The submitted form fields; an absent field is `None`. */
  datatype Credentials = Credentials(email: Option<string>, password: Option<string>, captcha: Option<string>)

  /** What a successful attempt returns to the session layer. */
  datatype Identity = Identity(id: string, email: string, name: string)

  /** The errors `authorize` throws, one per message. */
  datatype AuthError =
    | MissingInput
    | CaptchaExpired
    | CaptchaInvalid
    | CaptchaWrong
    | InvalidCredentials
    | AccountLocked(waitMinutes: nat)
    | LockoutTriggered
    | WrongPassword(remaining: nat)

  /** `bcrypt.compare(plain, hash)`, a library call, so a parameter of the model. */
  type PasswordCheck = (string, string) -> bool

  // ---------------------------------------------------------------------------
  // The pieces of the decision

  /** A form field that JavaScript treats as truthy: present and non-empty. */
  predicate Filled(field: Option<string>) {
    field.Some? && field.value != ""
  }

  predicate AllFilled(c: Credentials) {
    Filled(c.email) && Filled(c.password) && Filled(c.captcha)
  }

  predicate IsLocked(u: AdminUser, now: int) {
    u.lockoutUntil.Some? && u.lockoutUntil.value > now
  }

  /** Whole minutes left on a lockout, rounded up. */
  function WaitMinutes(lockoutUntil: int, now: int): (m: nat)
    requires lockoutUntil > now
    ensures m >= 1
    ensures (m - 1) * MinuteMs < lockoutUntil - now <= m * MinuteMs
  {
    (lockoutUntil - now + MinuteMs - 1) / MinuteMs
  }

  /** The previous failure lies outside the window, so the count restarts. */
  predicate WindowElapsed(u: AdminUser, now: int) {
    u.lastAttemptTime.Some? && u.lastAttemptTime.value < now - AttemptWindowMs
  }

  /** The failure count after one more wrong password. */
  function NextCount(u: AdminUser, now: int): (count: nat)
    ensures count >= 1
    ensures count == 1 || count == u.loginAttempts + 1
  {
    if WindowElapsed(u, now) then 1 else u.loginAttempts + 1
  }

  /** The record as a wrong password at `now` leaves it. */
  function AfterFailure(u: AdminUser, now: int): (v: AdminUser)
    ensures (v.id, v.email, v.name, v.password) == (u.id, u.email, u.name, u.password)
    ensures v.lastAttemptTime == Some(now)
    ensures v.loginAttempts >= MaxAttempts ==> IsLocked(v, now)
    ensures v.loginAttempts < MaxAttempts ==> v.lockoutUntil == u.lockoutUntil
  {
    var count := NextCount(u, now);
    u.(loginAttempts := count,
       lastAttemptTime := Some(now),
       lockoutUntil := if count >= MaxAttempts then Some(now + LockoutMs) else u.lockoutUntil)
  }

  /** The error a wrong password raises, given the new count. */
  function FailureError(count: nat): (e: AuthError)
    requires count >= 1
    ensures count >= MaxAttempts <==> e == LockoutTriggered
    ensures count < MaxAttempts ==> e.WrongPassword? && 1 <= e.remaining <= MaxAttempts - 1
    ensures e.WrongPassword? ==> e.remaining + count == MaxAttempts
  {
    if count >= MaxAttempts then LockoutTriggered else WrongPassword(MaxAttempts - count)
  }

  /** The record as a successful login leaves it. */
  function AfterSuccess(u: AdminUser): (v: AdminUser) {
    u.(loginAttempts := 0, lastAttemptTime := None, lockoutUntil := None)
  }

  /** The part of an attempt that runs once the user is found: the lockout
      check, the password check and the record it writes back (the record
      itself when nothing is written). */
  function Step(u: AdminUser, password: string, now: int, check: PasswordCheck): (r: (Result<Identity, AuthError>, AdminUser))
    ensures (r.1.id, r.1.email, r.1.name, r.1.password) == (u.id, u.email, u.name, u.password)
    ensures r.0.Success? <==> !IsLocked(u, now) && check(password, u.password)
    ensures r.0.Success? ==> r.0.value == Identity(u.id, u.email, u.name)
    ensures IsLocked(u, now) ==> r.1 == u
  {
    if IsLocked(u, now) then
      (Failure(AccountLocked(WaitMinutes(u.lockoutUntil.value, now))), u)
    else if !check(password, u.password) then
      var v := AfterFailure(u, now);
      (Failure(FailureError(v.loginAttempts)), v)
    else
      (Success(Identity(u.id, u.email, u.name)), AfterSuccess(u))
  }

  /** The outcome of one attempt: what `authorize` returns or throws, and the store after it. */
  datatype Outcome = Outcome(result: Result<Identity, AuthError>, users: map<string, AdminUser>)

  /** One complete attempt, in the order the checks run. `cookie` is the
      value of the `auth-captcha` cookie, `env` the `NEXTAUTH_SECRET`
      variable, `now` the clock in milliseconds. */
  function Attempt(users: map<string, AdminUser>, c: Credentials, cookie: Option<string>, env: Option<string>,
                   now: int, hmac: Captcha.Hmac, check: PasswordCheck): (o: Outcome)
    ensures o.users.Keys == users.Keys
    ensures forall e | e in users && (c.email.None? || e != c.email.value) :: o.users[e] == users[e]
    ensures o.result.Success? ==> && c.email.Some? && c.email.value in o.users
                                  && o.users[c.email.value].loginAttempts == 0
                                  && o.users[c.email.value].lockoutUntil.None?
  {
    if !AllFilled(c) then Outcome(Failure(MissingInput), users)
    else if cookie.None? then Outcome(Failure(CaptchaExpired), users)
    else
      var (text, signature) := Captcha.SplitCookie(cookie.value);
      if !Captcha.Verify(text, signature, Captcha.SecretOf(env), hmac) then Outcome(Failure(CaptchaInvalid), users)
      else if !Captcha.AnswerMatches(text, c.captcha.value) then Outcome(Failure(CaptchaWrong), users)
      else if c.email.value !in users then Outcome(Failure(InvalidCredentials), users)
      else
        var (r, v) := Step(users[c.email.value], c.password.value, now, check);
        Outcome(r, users[c.email.value := v])
  }

  // ---------------------------------------------------------------------------
  // The store and the imperative guard

  /** The `AdminUser` table, keyed by the unique email. */
  class AdminStore {
    var users: map<string, AdminUser>

    constructor (users: map<string, AdminUser>)
      ensures this.users == users
    {
      this.users := users;
    }

    /** `authorize(credentials)`: runs the checks one by one, updates the
        record on a wrong or right password, and returns the identity or
        the error it throws. */
    method Authorize(c: Credentials, cookie: Option<string>, env: Option<string>, now: int,
                     hmac: Captcha.Hmac, check: PasswordCheck) returns (r: Result<Identity, AuthError>)
      modifies this
      ensures Outcome(r, users) == Attempt(old(users), c, cookie, env, now, hmac, check)
    {
      if !Filled(c.email) || !Filled(c.password) || !Filled(c.captcha) {
        return Failure(MissingInput);
      }
      if cookie.None? {
        return Failure(CaptchaExpired);
      }
      var (text, signature) := Captcha.SplitCookie(cookie.value);
      var secret := Captcha.SecretOf(env);
      if !Captcha.Verify(text, signature, secret, hmac) {
        return Failure(CaptchaInvalid);
      }
      if text != Captcha.Lower(c.captcha.value) {
        return Failure(CaptchaWrong);
      }
      var email := c.email.value;
      if email !in users {
        return Failure(InvalidCredentials);
      }
      var user := users[email];
      if user.lockoutUntil.Some? && user.lockoutUntil.value > now {
        var waitMinutes := WaitMinutes(user.lockoutUntil.value, now);
        return Failure(AccountLocked(waitMinutes));
      }
      var isValid := check(c.password.value, user.password);
      if !isValid {
        var newAttempts := user.loginAttempts + 1;
        var newLockoutUntil := user.lockoutUntil;
        if user.lastAttemptTime.Some? && user.lastAttemptTime.value < now - AttemptWindowMs {
          newAttempts := 1;
        }
        if newAttempts >= MaxAttempts {
          newLockoutUntil := Some(now + LockoutMs);
        }
        users := users[email := user.(loginAttempts := newAttempts,
                                      lastAttemptTime := Some(now),
                                      lockoutUntil := newLockoutUntil)];
        if newAttempts >= MaxAttempts {
          return Failure(LockoutTriggered);
        } else {
          return Failure(WrongPassword(MaxAttempts - newAttempts));
        }
      }
      users := users[email := user.(loginAttempts := 0, lastAttemptTime := None, lockoutUntil := None)];
      return Success(Identity(user.id, user.email, user.name));
    }
  }

  // ---------------------------------------------------------------------------
  // The checks before the user record

  /** A missing or empty field fails first, whatever the cookie, the store
      and the password check are, and changes nothing. */
  lemma MissingInputRejected(users: map<string, AdminUser>, c: Credentials, cookie: Option<string>, env: Option<string>,
                             now: int, hmac: Captcha.Hmac, check: PasswordCheck)
    requires !Filled(c.email) || !Filled(c.password) || !Filled(c.captcha)
    ensures Attempt(users, c, cookie, env, now, hmac, check) == Outcome(Failure(MissingInput), users)
  {
  }

  /** Without the captcha cookie the attempt has expired, whatever the credentials. */
  lemma NoCookieRejected(users: map<string, AdminUser>, c: Credentials, env: Option<string>,
                         now: int, hmac: Captcha.Hmac, check: PasswordCheck)
    requires AllFilled(c)
    ensures Attempt(users, c, None, env, now, hmac, check) == Outcome(Failure(CaptchaExpired), users)
  {
  }

  /** A cookie whose signature is not the tag of its text is invalid; a valid
      one whose text is not the lower-cased answer is wrong. Neither touches
      the store. */
  lemma CaptchaRejected(users: map<string, AdminUser>, c: Credentials, value: string, env: Option<string>,
                        now: int, hmac: Captcha.Hmac, check: PasswordCheck)
    requires AllFilled(c)
    ensures var (text, signature) := Captcha.SplitCookie(value);
            var o := Attempt(users, c, Some(value), env, now, hmac, check);
            && (signature != Some(hmac(Captcha.SecretOf(env), text)) ==> o == Outcome(Failure(CaptchaInvalid), users))
            && ((signature == Some(hmac(Captcha.SecretOf(env), text)) && text != Captcha.Lower(c.captcha.value))
                  ==> o == Outcome(Failure(CaptchaWrong), users))
  {
  }

  /** The checks that come before the user record: the captcha passes exactly
      when the issued cookie's answer is given, up to case. */
  predicate CaptchaPasses(c: Credentials, cookie: Option<string>, env: Option<string>, hmac: Captcha.Hmac)
    requires AllFilled(c)
  {
    cookie.Some? &&
    var (text, signature) := Captcha.SplitCookie(cookie.value);
    Captcha.Verify(text, signature, Captcha.SecretOf(env), hmac) && Captcha.AnswerMatches(text, c.captcha.value)
  }

  /** A cookie issued by the captcha endpoint passes for every case variant of its text. */
  lemma IssuedCaptchaPasses(c: Credentials, captchaText: string, env: Option<string>, hmac: Captcha.Hmac)
    requires AllFilled(c)
    requires '.' !in captchaText
    requires Captcha.SameIgnoringCase(c.captcha.value, captchaText)
    ensures CaptchaPasses(c, Some(Captcha.IssueCookieValue(captchaText, Captcha.SecretOf(env), hmac)), env, hmac)
  {
    Captcha.IssuedCookieAccepted(captchaText, env, hmac, c.captcha.value);
  }

  /** An email with no record fails as invalid credentials and writes nothing. */
  lemma UnknownUserRejected(users: map<string, AdminUser>, c: Credentials, cookie: Option<string>, env: Option<string>,
                            now: int, hmac: Captcha.Hmac, check: PasswordCheck)
    requires AllFilled(c) && CaptchaPasses(c, cookie, env, hmac)
    requires c.email.value !in users
    ensures Attempt(users, c, cookie, env, now, hmac, check) == Outcome(Failure(InvalidCredentials), users)
  {
  }

  /** Once the captcha passes and the user exists, the attempt is the
      record's `Step`, and only that record is written. */
  lemma FoundUserIsStep(users: map<string, AdminUser>, c: Credentials, cookie: Option<string>, env: Option<string>,
                        now: int, hmac: Captcha.Hmac, check: PasswordCheck)
    requires AllFilled(c) && CaptchaPasses(c, cookie, env, hmac)
    requires c.email.value in users
    ensures var o := Attempt(users, c, cookie, env, now, hmac, check);
            var s := Step(users[c.email.value], c.password.value, now, check);
            && o.result == s.0
            && o.users.Keys == users.Keys
            && o.users[c.email.value] == s.1
            && forall e | e in users && e != c.email.value :: o.users[e] == users[e]
  {
  }

  // ---------------------------------------------------------------------------
  // The password step

  /** A locked account fails as locked before the password is looked at, even
      a correct one; the record is not written, and the reported wait is the
      remaining time rounded up to whole minutes, at least one. */
  lemma LockedRejected(u: AdminUser, password: string, now: int, check: PasswordCheck, other: PasswordCheck)
    requires IsLocked(u, now)
    ensures var (r, v) := Step(u, password, now, check);
            && v == u
            && r.Failure? && r.error.AccountLocked?
            && r.error.waitMinutes >= 1
            && (r.error.waitMinutes - 1) * MinuteMs < u.lockoutUntil.value - now <= r.error.waitMinutes * MinuteMs
            && Step(u, password, now, other) == (r, v)
  {
  }

  /** A wrong password on an unlocked account: the count restarts at one when
      the previous failure is outside the window and grows by one otherwise;
      the attempt time is recorded; a lockout of an hour is set when the count
      reaches five, and the old lockout is kept otherwise. */
  lemma WrongPasswordRecorded(u: AdminUser, password: string, now: int, check: PasswordCheck)
    requires !IsLocked(u, now) && !check(password, u.password)
    ensures var (r, v) := Step(u, password, now, check);
            && v.loginAttempts == (if u.lastAttemptTime.Some? && u.lastAttemptTime.value < now - 300000
                                   then 1 else u.loginAttempts + 1)
            && v.lastAttemptTime == Some(now)
            && v.lockoutUntil == (if v.loginAttempts >= 5 then Some(now + 3600000) else u.lockoutUntil)
            && (v.id, v.email, v.name, v.password) == (u.id, u.email, u.name, u.password)
            && (v.loginAttempts >= 5 ==> r == Failure(LockoutTriggered))
            && (v.loginAttempts < 5 ==> r == Failure(WrongPassword(5 - v.loginAttempts)) && 1 <= 5 - v.loginAttempts <= 4)
  {
  }

  /** A correct password on an unlocked account clears the counter and both
      times and returns the user's identity; clearing twice is clearing once. */
  lemma SuccessResets(u: AdminUser, password: string, now: int, check: PasswordCheck)
    requires !IsLocked(u, now) && check(password, u.password)
    ensures var (r, v) := Step(u, password, now, check);
            && r == Success(Identity(u.id, u.email, u.name))
            && v == u.(loginAttempts := 0, lastAttemptTime := None, lockoutUntil := None)
            && AfterSuccess(v) == v
  {
  }

  /** Four failures within the window, then a fifth within it, lock the account for an hour. */
  lemma FifthFailureLocks(u: AdminUser, password: string, now: int, check: PasswordCheck)
    requires !IsLocked(u, now) && !check(password, u.password)
    requires u.loginAttempts == 4 && u.lastAttemptTime.Some? && u.lastAttemptTime.value >= now - AttemptWindowMs
    ensures Step(u, password, now, check).0 == Failure(LockoutTriggered)
    ensures Step(u, password, now, check).1.lockoutUntil == Some(now + LockoutMs)
    ensures IsLocked(Step(u, password, now, check).1, now + LockoutMs - 1)
    ensures !IsLocked(Step(u, password, now, check).1, now + LockoutMs)
  {
  }

  /** After a gap longer than the window, a failure counts as the first one again. */
  lemma FailureAfterGapCountsOne(u: AdminUser, password: string, now: int, check: PasswordCheck)
    requires !IsLocked(u, now) && !check(password, u.password)
    requires u.lastAttemptTime.Some? && u.lastAttemptTime.value < now - AttemptWindowMs
    ensures Step(u, password, now, check).0 == Failure(WrongPassword(4))
    ensures Step(u, password, now, check).1.loginAttempts == 1
  {
  }

  // ---------------------------------------------------------------------------
  // The counter bound over a history of attempts

  /** What holds of a record between attempts, given the clock's last reading:
      the count is at most five, no attempt lies in the future, and a count of
      five carries the lockout set at the last failure. */
  predicate Consistent(u: AdminUser, now: int) {
    && u.loginAttempts <= MaxAttempts
    && (u.lastAttemptTime.Some? ==> u.lastAttemptTime.value <= now)
    && (u.loginAttempts == MaxAttempts ==>
          u.lastAttemptTime.Some? && u.lockoutUntil == Some(u.lastAttemptTime.value + LockoutMs))
  }

  /** A fresh record, with zero counters, is consistent at every time. */
  lemma FreshConsistent(u: AdminUser, now: int)
    requires u.loginAttempts == 0 && u.lastAttemptTime.None? && u.lockoutUntil.None?
    ensures Consistent(u, now)
  {
  }

  /** One attempt at a time no earlier than the last keeps a record consistent. */
  lemma StepKeepsConsistent(u: AdminUser, password: string, last: int, now: int, check: PasswordCheck)
    requires Consistent(u, last) && last <= now
    ensures Consistent(Step(u, password, now, check).1, now)
  {
    if !IsLocked(u, now) && !check(password, u.password) && u.loginAttempts == MaxAttempts {
      // The lockout has run out, so the last failure is older than the window.
      assert u.lastAttemptTime.value + LockoutMs <= now;
      assert WindowElapsed(u, now);
    }
  }

  /** One login request as the store sees it. */
  datatype Request = Request(c: Credentials, cookie: Option<string>, env: Option<string>, now: int,
                             hmac: Captcha.Hmac, check: PasswordCheck)

  /** The store after a sequence of requests, handled one at a time. */
  function Replay(users: map<string, AdminUser>, rs: seq<Request>): map<string, AdminUser>
    decreases |rs|
  {
    if rs == [] then users
    else
      var r := rs[0];
      Replay(Attempt(users, r.c, r.cookie, r.env, r.now, r.hmac, r.check).users, rs[1..])
  }

  predicate StoreConsistent(users: map<string, AdminUser>, now: int) {
    forall e | e in users :: Consistent(users[e], now)
  }

  /** The clock never goes back: each request is no earlier than `start` and than the one before it. */
  predicate ClockMonotone(start: int, rs: seq<Request>) {
    && (|rs| > 0 ==> start <= rs[0].now)
    && forall i | 0 < i < |rs| :: rs[i - 1].now <= rs[i].now
  }

  /** One attempt keeps every record of the store consistent. */
  lemma AttemptKeepsConsistent(users: map<string, AdminUser>, r: Request, last: int)
    requires StoreConsistent(users, last) && last <= r.now
    ensures StoreConsistent(Attempt(users, r.c, r.cookie, r.env, r.now, r.hmac, r.check).users, r.now)
  {
    var o := Attempt(users, r.c, r.cookie, r.env, r.now, r.hmac, r.check);
    forall e | e in o.users ensures Consistent(o.users[e], r.now) {
      if AllFilled(r.c) && CaptchaPasses(r.c, r.cookie, r.env, r.hmac) && r.c.email.value in users
        && e == r.c.email.value {
        StepKeepsConsistent(users[e], r.c.password.value, last, r.now, r.check);
      } else {
        assert o.users[e] == users[e];
      }
    }
  }

  /** If the clock never goes back between attempts, no record's failure
      count ever exceeds five. */
  lemma {:induction false} CounterNeverExceedsFive(users: map<string, AdminUser>, start: int, rs: seq<Request>)
    requires StoreConsistent(users, start)
    requires ClockMonotone(start, rs)
    ensures var final := Replay(users, rs);
            forall e | e in final :: final[e].loginAttempts <= MaxAttempts
  {
    ReplayKeepsConsistent(users, start, rs);
  }

  lemma {:induction false} ReplayKeepsConsistent(users: map<string, AdminUser>, start: int, rs: seq<Request>)
    requires StoreConsistent(users, start)
    requires ClockMonotone(start, rs)
    ensures StoreConsistent(Replay(users, rs), if rs == [] then start else rs[|rs| - 1].now)
    decreases |rs|
  {
    if rs != [] {
      var r := rs[0];
      assert start <= r.now;
      AttemptKeepsConsistent(users, r, start);
      var next := Attempt(users, r.c, r.cookie, r.env, r.now, r.hmac, r.check).users;
      assert ClockMonotone(r.now, rs[1..]) by {
        if |rs| > 1 {
          assert rs[1..][0] == rs[1];
        }
        forall i | 0 < i < |rs[1..]| ensures rs[1..][i - 1].now <= rs[1..][i].now {
          assert rs[1..][i] == rs[i + 1] && rs[1..][i - 1] == rs[i];
        }
      }
      ReplayKeepsConsistent(next, r.now, rs[1..]);
    }
  }

  // ---------------------------------------------------------------------------
  // Messages

  /** The decimal digits of `n`, as a template literal prints them. */
  function Decimal(n: nat): (s: string)
    ensures |s| >= 1
    ensures forall i | 0 <= i < |s| :: '0' <= s[i] <= '9'
    ensures |s| == 1 <==> n < 10
  {
    if n < 10 then [Digit(n)] else Decimal(n / 10) + [Digit(n % 10)]
  }

  function Digit(d: nat): (c: char)
    requires d < 10
    ensures '0' <= c <= '9'
  {
    ('0' as int + d) as char
  }

  /** Distinct numbers print differently. */
  lemma {:induction false} DecimalInjective(a: nat, b: nat)
    requires Decimal(a) == Decimal(b)
    ensures a == b
    decreases a
  {
    if a >= 10 {
      var da, db := Decimal(a), Decimal(b);
      assert da[|da| - 1] == Digit(a % 10) && db[|db| - 1] == Digit(b % 10);
      assert da[..|da| - 1] == Decimal(a / 10) && db[..|db| - 1] == Decimal(b / 10);
      DecimalInjective(a / 10, b / 10);
    }
  }

  /** The text of the error each failure throws. */
  function Message(e: AuthError): string {
    match e
    case MissingInput => "请输入邮箱、密码和验证码"
    case CaptchaExpired => "验证码已过期，请刷新"
    case CaptchaInvalid => "验证码无效"
    case CaptchaWrong => "验证码错误"
    case InvalidCredentials => "账号或密码错误"
    case AccountLocked(m) => "账户已锁定，请能在 " + Decimal(m) + " 分钟后重试"
    case LockoutTriggered => "密码错误次数过多，账户已锁定1小时"
    case WrongPassword(k) => "密码错误，还剩 " + Decimal(k) + " 次尝试机会"
  }

  /** The opening characters that tell the longer messages apart. */
  lemma MessageOpenings(e: AuthError)
    ensures e.AccountLocked? ==> Message(e)[0] == '账' && Message(e)[1] == '户'
    ensures e.WrongPassword? ==> Message(e)[0] == '密' && Message(e)[4] == '，'
    ensures e.LockoutTriggered? ==> Message(e)[0] == '密' && Message(e)[4] == '次'
  {
  }

  /** Every failure has a message of its own: the caller can tell each error,
      and each wait or remaining count, from the text alone. In particular an
      unknown email and a wrong password read differently. */
  lemma MessageInjective(e1: AuthError, e2: AuthError)
    requires Message(e1) == Message(e2)
    ensures e1 == e2
  {
    MessageOpenings(e1);
    MessageOpenings(e2);
    var m := Message(e1);
    match e1 {
      case AccountLocked(a) =>
        if e2.AccountLocked? {
          assert m[10..|m| - 6] == Decimal(a) == Decimal(e2.waitMinutes);
          DecimalInjective(a, e2.waitMinutes);
        }
      case WrongPassword(a) =>
        if e2.WrongPassword? {
          assert m[8..|m| - 6] == Decimal(a) == Decimal(e2.remaining);
          DecimalInjective(a, e2.remaining);
        }
      case _ =>
    }
  }
}
