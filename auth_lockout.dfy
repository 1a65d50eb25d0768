/**
 * The login lockout: failed logins per client address and user name are
 * counted, and the tenth failure locks that pair for thirty minutes. The
 * clock is a parameter, and so is what the database and the password and
 * licence checks decide about a login attempt.
 */
module AuthLockout {
  import opened Wrappers
  import RateLimit

  const MaxAttempts: int := 10
  const LockMs: int := 30 * 60 * 1000

  /** A failure count, and the end of the lock once one was set. */
  datatype Attempt = Attempt(count: int, until: Option<int>)

  /** What the checks after the lock check find about a login attempt, in the order they run. */
  datatype Outcome = UnknownUser | BadLicenceCode | BadPassword | Success

  const TooManyRequests: int := 429
  const NotFound: int := 404
  const Unauthorized: int := 401
  const StatusOk: int := 200

  /** What the lockout reads of a request: the forwarded-for header and the socket address, either possibly absent. */
  datatype Request = Request(forwardedFor: Option<string>, ip: Option<string>)

  /** `keyFor`: the client address, resolved as the rate limiter resolves it, a colon, then the name. */
  function KeyFor(req: Request, name: string): (k: string)
    ensures var ip := RateLimit.ClientIp(req.forwardedFor, req.ip);
      && |k| == |ip| + 1 + |name|
      && k[..|ip|] == ip && k[|ip|] == ':' && k[|ip| + 1..] == name
  {
    RateLimit.ClientIp(req.forwardedFor, req.ip) + ":" + name
  }

  /** Requests from one client address never share an entry under two different names. */
  lemma KeyForSeparatesNames(req1: Request, req2: Request, name1: string, name2: string)
    requires RateLimit.ClientIp(req1.forwardedFor, req1.ip) == RateLimit.ClientIp(req2.forwardedFor, req2.ip)
    requires KeyFor(req1, name1) == KeyFor(req2, name2)
    ensures name1 == name2
  {
    var ip := RateLimit.ClientIp(req1.forwardedFor, req1.ip);
    assert name1 == KeyFor(req1, name1)[|ip| + 1..];
  }

  /** Client addresses without a colon identify the address and the name behind a key. */
  lemma KeyForInjective(req1: Request, req2: Request, name1: string, name2: string)
    requires ':' !in RateLimit.ClientIp(req1.forwardedFor, req1.ip)
    requires ':' !in RateLimit.ClientIp(req2.forwardedFor, req2.ip)
    requires KeyFor(req1, name1) == KeyFor(req2, name2)
    ensures RateLimit.ClientIp(req1.forwardedFor, req1.ip) == RateLimit.ClientIp(req2.forwardedFor, req2.ip)
    ensures name1 == name2
  {
    var ip1, ip2 := RateLimit.ClientIp(req1.forwardedFor, req1.ip), RateLimit.ClientIp(req2.forwardedFor, req2.ip);
    assert KeyFor(req1, name1) == RateLimit.Key(ip1, name1);
    assert KeyFor(req2, name2) == RateLimit.Key(ip2, name2);
    RateLimit.KeyInjective(ip1, name1, ip2, name2);
  }

  /**
   * An address with a colon (an IPv6 address, or any forwarded-for header the
   * client chooses) lets two different address/name pairs share one entry.
   */
  lemma ColonInAddressCollides()
    ensures KeyFor(Request(Some("::1"), None), "a") == KeyFor(Request(Some(":"), None), "1:a")
  {
    assert RateLimit.ClientIp(Some("::1"), None) == "::1";
    assert RateLimit.ClientIp(Some(":"), None) == ":";
  }

  /** `assertNotLocked` throws exactly when the entry has a lock end set (and non-zero) that is still ahead. */
  predicate Locked(entry: Option<Attempt>, now: int)
    ensures entry.None? || entry.value.until.None? || entry.value.until == Some(0) ==> !Locked(entry, now)
    ensures Locked(entry, now) ==> now < entry.value.until.value
  {
    entry.Some? && entry.value.until.Some? && entry.value.until.value != 0 && now < entry.value.until.value
  }

  /** `registerFailure` on the entry found, if any: one more failure, and the tenth sets a lock and starts over. */
  function Fail(entry: Option<Attempt>, now: int): (a: Attempt)
    ensures var before := if entry.Some? then entry.value.count else 0;
      && (before + 1 >= MaxAttempts ==> a == Attempt(0, Some(now + LockMs)))
      && (before + 1 < MaxAttempts ==> a.count == before + 1 && a.until == (if entry.Some? then entry.value.until else None))
  {
    var e := if entry.Some? then entry.value else Attempt(0, None);
    var counted := e.(count := e.count + 1);
    if counted.count >= MaxAttempts then counted.(until := Some(now + LockMs), count := 0) else counted
  }

  /** A stored count stays between 0 and 9. */
  lemma FailKeepsCountBelowMax(entry: Option<Attempt>, now: int)
    requires entry.Some? ==> 0 <= entry.value.count < MaxAttempts
    ensures 0 <= Fail(entry, now).count < MaxAttempts
  {
  }

  /** A failure that sets a lock blocks logins for the following thirty minutes and no longer. */
  lemma LockLastsThirtyMinutes(entry: Option<Attempt>, now: int, later: int)
    requires now > -LockMs
    requires Fail(entry, now).until == Some(now + LockMs)
    ensures Locked(Some(Fail(entry, now)), later) <==> later < now + LockMs
  {
  }

  /** Failures at the given times, one after another, starting from the entry found. */
  function Failures(entry: Option<Attempt>, times: seq<int>): Option<Attempt>
    decreases |times|
  {
    if times == [] then entry
    else Some(Fail(Failures(entry, times[..|times| - 1]), times[|times| - 1]))
  }

  /** Fewer than ten failures from a clean slate leave their number as the count and no lock. */
  lemma {:induction false} FailuresCount(times: seq<int>)
    requires |times| < MaxAttempts
    ensures times != [] ==> Failures(None, times) == Some(Attempt(|times|, None))
    ensures times == [] ==> Failures(None, times) == None
    decreases |times|
  {
    if times != [] {
      FailuresCount(times[..|times| - 1]);
    }
  }

  /** The tenth failure from a clean slate locks the key until thirty minutes after it. */
  lemma TenthFailureLocks(times: seq<int>)
    requires |times| == MaxAttempts
    ensures Failures(None, times) == Some(Attempt(0, Some(times[MaxAttempts - 1] + LockMs)))
  {
    FailuresCount(times[..MaxAttempts - 1]);
  }

  /** A login, given the lockout entry of its key: the status replied and the entry left. */
  datatype LoginStep = LoginStep(status: int, entry: Option<Attempt>)

  /**
   * `login`: the lock check runs first and answers 429 with nothing recorded;
   * each failing check records a failure; a success clears the entry.
   */
  function LoginAttempt(entry: Option<Attempt>, now: int, outcome: Outcome): (r: LoginStep)
    ensures Locked(entry, now) ==> r == LoginStep(TooManyRequests, entry)
    ensures !Locked(entry, now) && outcome == Success ==> r == LoginStep(StatusOk, None)
    ensures !Locked(entry, now) && outcome != Success ==>
      r.entry == Some(Fail(entry, now)) && r.status == (if outcome == UnknownUser then NotFound else Unauthorized)
  {
    if Locked(entry, now) then LoginStep(TooManyRequests, entry)
    else match outcome
      case UnknownUser => LoginStep(NotFound, Some(Fail(entry, now)))
      case BadLicenceCode => LoginStep(Unauthorized, Some(Fail(entry, now)))
      case BadPassword => LoginStep(Unauthorized, Some(Fail(entry, now)))
      case Success => LoginStep(StatusOk, None)
  }

  /** Attempts while locked neither succeed nor extend the lock, whatever they would have found. */
  lemma LockedAttemptsChangeNothing(entry: Option<Attempt>, now: int, outcome: Outcome)
    requires Locked(entry, now)
    ensures LoginAttempt(entry, now, outcome).status == TooManyRequests
    ensures LoginAttempt(entry, now, outcome).entry == entry
  {
  }

  /** After a successful login the next attempt is never locked out. */
  lemma SuccessUnlocks(entry: Option<Attempt>, now: int, later: int, outcome: Outcome)
    requires LoginAttempt(entry, now, Success).status == StatusOk
    ensures LoginAttempt(LoginAttempt(entry, now, Success).entry, later, outcome).status != TooManyRequests
  {
  }

  /** The shared table of failed attempts. */
  class Lockout {
    var attempts: map<string, Attempt>

    /** No stored count reaches the maximum: the tenth failure always turns into a lock. */
    ghost predicate Valid()
      reads this
    {
      forall k :: k in attempts ==> 0 <= attempts[k].count < MaxAttempts
    }

    constructor()
      ensures attempts == map[]
      ensures Valid()
    {
      attempts := map[];
    }

    function Entry(key: string): Option<Attempt>
      reads this
    {
      if key in attempts then Some(attempts[key]) else None
    }

    /** `assertNotLocked`: true when the request's key is free to try. */
    method AssertNotLocked(req: Request, name: string, now: int) returns (free: bool)
      ensures free <==> !Locked(Entry(KeyFor(req, name)), now)
    {
      var key := KeyFor(req, name);
      free := !(key in attempts && attempts[key].until.Some? && attempts[key].until.value != 0
                && now < attempts[key].until.value);
    }

    /** `registerFailure`. */
    method RegisterFailure(req: Request, name: string, now: int)
      requires Valid()
      modifies this
      ensures var key := KeyFor(req, name);
        attempts == old(attempts)[key := Fail(old(Entry(key)), now)]
      ensures Valid()
    {
      var key := KeyFor(req, name);
      var entry := if key in attempts then attempts[key] else Attempt(0, None);
      entry := entry.(count := entry.count + 1);
      if entry.count >= MaxAttempts {
        entry := entry.(until := Some(now + LockMs), count := 0);
      }
      attempts := attempts[key := entry];
    }

    /** `resetFailures`. */
    method ResetFailures(req: Request, name: string)
      requires Valid()
      modifies this
      ensures attempts == old(attempts) - {KeyFor(req, name)}
      ensures Valid()
    {
      attempts := attempts - {KeyFor(req, name)};
    }

    /** `login` as far as the lockout goes: the lock check, then a failure or a reset, all under `keyFor(request, name)`. */
    method Login(req: Request, name: string, now: int, outcome: Outcome) returns (status: int)
      requires Valid()
      modifies this
      ensures var key := KeyFor(req, name);
        var step := LoginAttempt(old(Entry(key)), now, outcome);
        && status == step.status
        && attempts == (if step.entry.Some? then old(attempts)[key := step.entry.value] else old(attempts) - {key})
      ensures Valid()
    {
      var free := AssertNotLocked(req, name, now);
      if !free {
        return TooManyRequests;
      }
      match outcome
      case UnknownUser =>
        RegisterFailure(req, name, now);
        status := NotFound;
      case BadLicenceCode =>
        RegisterFailure(req, name, now);
        status := Unauthorized;
      case BadPassword =>
        RegisterFailure(req, name, now);
        status := Unauthorized;
      case Success =>
        ResetFailures(req, name);
        status := StatusOk;
    }
  }
}
