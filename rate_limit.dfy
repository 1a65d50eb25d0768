/**
 * The fixed-window request limiter: one bucket per scope and client address,
 * holding the number of admitted requests and the end of the window. The
 * clock is a parameter.
 */
module RateLimit {
  import opened Wrappers

  datatype Bucket = Bucket(count: int, reset: int)

  /** What `allow` answers: admitted or not, the requests left in the window and when it ends. */
  datatype Verdict = Verdict(ok: bool, remaining: int, reset: int)

  /** A verdict together with the bucket stored afterwards. */
  datatype Admission = Admission(verdict: Verdict, bucket: Bucket)

  const GlobalLimit: int := 150
  const GlobalWindowMs: int := 60000

  /** The client address: the forwarded-for header, else the socket address, else "unknown" (empty counts as missing). */
  function ClientIp(forwardedFor: Option<string>, socketIp: Option<string>): (ip: string)
    ensures ip != ""
    ensures forwardedFor.Some? && forwardedFor.value != "" ==> ip == forwardedFor.value
    ensures forwardedFor.None? || forwardedFor.value == "" ==>
      ip == (if socketIp.Some? && socketIp.value != "" then socketIp.value else "unknown")
  {
    if forwardedFor.Some? && forwardedFor.value != "" then forwardedFor.value
    else if socketIp.Some? && socketIp.value != "" then socketIp.value
    else "unknown"
  }

  /** The bucket key `scope:ip`. */
  function Key(scope: string, ip: string): (k: string)
    ensures |k| == |scope| + 1 + |ip|
    ensures k[..|scope|] == scope && k[|scope|] == ':' && k[|scope| + 1..] == ip
  {
    scope + ":" + ip
  }

  /** Different scopes without a colon, or different addresses, never share a bucket. */
  lemma KeyInjective(scope1: string, ip1: string, scope2: string, ip2: string)
    requires ':' !in scope1 && ':' !in scope2
    requires Key(scope1, ip1) == Key(scope2, ip2)
    ensures scope1 == scope2 && ip1 == ip2
  {
  }

  /** A scope that itself contains a colon can share its bucket with another scope. */
  lemma ColonInScopeCollides()
    ensures Key("a:b", "c") == Key("a", "b:c")
  {
  }

  /**
   * `allow` on the bucket found under the key, if any: a missing bucket or one
   * whose window has ended is replaced by an empty one for a new window; a
   * full bucket refuses; otherwise the request is counted.
   */
  function Admit(found: Option<Bucket>, limit: int, windowMs: int, now: int): (a: Admission)
    ensures found.None? || found.value.reset <= now ==> a.bucket.reset == now + windowMs
    ensures found.Some? && found.value.reset > now ==> a.bucket.reset == found.value.reset
    ensures a.verdict.reset == a.bucket.reset
    ensures var start := if found.Some? && found.value.reset > now then found.value.count else 0;
      && (a.verdict.ok <==> start < limit)
      && (!a.verdict.ok ==> a.verdict.remaining == 0 && a.bucket.count == start)
      && (a.verdict.ok ==> a.bucket.count == start + 1 && a.verdict.remaining == limit - a.bucket.count)
    ensures a.verdict.remaining >= 0
  {
    var b := if found.None? || found.value.reset <= now then Bucket(0, now + windowMs) else found.value;
    if b.count >= limit then Admission(Verdict(false, 0, b.reset), b)
    else
      var counted := b.(count := b.count + 1);
      Admission(Verdict(true, if limit - counted.count > 0 then limit - counted.count else 0, counted.reset), counted)
  }

  /** A bucket holding no more than the limit keeps doing so: at most `limit` requests are admitted per window. */
  lemma AdmitKeepsBound(found: Option<Bucket>, limit: int, windowMs: int, now: int)
    requires limit >= 0
    requires found.Some? ==> 0 <= found.value.count <= limit
    ensures 0 <= Admit(found, limit, windowMs, now).bucket.count <= limit
  {
  }

  /** Admitting a run of requests from a starting bucket: the bucket left and how many were admitted. */
  datatype Run = Run(bucket: Option<Bucket>, admitted: nat)

  function Replay(found: Option<Bucket>, limit: int, windowMs: int, times: seq<int>): Run
    decreases |times|
  {
    if times == [] then Run(found, 0)
    else
      var before := Replay(found, limit, windowMs, times[..|times| - 1]);
      var a := Admit(before.bucket, limit, windowMs, times[|times| - 1]);
      Run(Some(a.bucket), before.admitted + if a.verdict.ok then 1 else 0)
  }

  function MinNat(a: nat, b: nat): nat {
    if a <= b then a else b
  }

  /**
   * Requests from one client in one scope, all inside the window the first of
   * them opens: exactly the first `limit` of them are admitted.
   */
  lemma {:induction false} OneWindowAdmitsLimit(limit: nat, windowMs: int, times: seq<int>)
    requires times != []
    requires forall i :: 0 <= i < |times| ==> times[0] <= times[i] < times[0] + windowMs
    ensures Replay(None, limit, windowMs, times).admitted == MinNat(|times|, limit)
    ensures Replay(None, limit, windowMs, times).bucket == Some(Bucket(MinNat(|times|, limit), times[0] + windowMs))
    decreases |times|
  {
    if |times| > 1 {
      var front := times[..|times| - 1];
      assert front[0] == times[0];
      OneWindowAdmitsLimit(limit, windowMs, front);
    }
  }

  /** Removing a bucket whose window has ended changes no later verdict. */
  lemma StaleBucketIsForgotten(b: Bucket, limit: int, windowMs: int, now: int, later: int)
    requires b.reset <= now <= later
    ensures Admit(Some(b), limit, windowMs, later) == Admit(None, limit, windowMs, later)
  {
  }

  /** The buckets the sweep keeps: those whose window has not ended. */
  function Live(buckets: map<string, Bucket>, now: int): (r: map<string, Bucket>)
    ensures forall k :: k in r <==> k in buckets && buckets[k].reset > now
    ensures forall k :: k in r ==> r[k] == buckets[k]
  {
    map k | k in buckets && buckets[k].reset > now :: buckets[k]
  }

  function Lookup(buckets: map<string, Bucket>, k: string): Option<Bucket> {
    if k in buckets then Some(buckets[k]) else None
  }

  /** After a sweep, every later request gets the verdict it would have got without it. */
  lemma SweepInvisibleToAllow(buckets: map<string, Bucket>, now: int, later: int, k: string, limit: int, windowMs: int)
    requires now <= later
    ensures Admit(Lookup(Live(buckets, now), k), limit, windowMs, later) == Admit(Lookup(buckets, k), limit, windowMs, later)
  {
    if k in buckets && k !in Live(buckets, now) {
      StaleBucketIsForgotten(buckets[k], limit, windowMs, now, later);
    }
  }

  /** The shared table of buckets. */
  class Limiter {
    var buckets: map<string, Bucket>

    constructor()
      ensures buckets == map[]
    {
      buckets := map[];
    }

    /** `allow`: decides one request and stores the resulting bucket under `scope:ip`, touching no other. */
    method Allow(scope: string, ip: string, limit: int, windowMs: int, now: int) returns (v: Verdict)
      modifies this
      ensures var a := Admit(Lookup(old(buckets), Key(scope, ip)), limit, windowMs, now);
        v == a.verdict && buckets == old(buckets)[Key(scope, ip) := a.bucket]
    {
      var k := Key(scope, ip);
      var b: Bucket;
      if k !in buckets || buckets[k].reset <= now {
        b := Bucket(0, now + windowMs);
        buckets := buckets[k := b];
      } else {
        b := buckets[k];
      }
      if b.count >= limit {
        return Verdict(false, 0, b.reset);
      }
      b := b.(count := b.count + 1);
      buckets := buckets[k := b];
      var remaining := limit - b.count;
      if remaining < 0 {
        remaining := 0;
      }
      v := Verdict(true, remaining, b.reset);
    }

    /** The five-minute interval: deletes every bucket whose window has ended. */
    method Sweep(now: int)
      modifies this
      ensures buckets == Live(old(buckets), now)
    {
      var pending := buckets.Keys;
      while pending != {}
        invariant pending <= old(buckets).Keys
        invariant forall k :: k in buckets <==> k in old(buckets) && (k in pending || old(buckets)[k].reset > now)
        invariant forall k :: k in buckets ==> buckets[k] == old(buckets)[k]
        decreases |pending|
      {
        var k :| k in pending;
        if buckets[k].reset <= now {
          buckets := buckets - {k};
        }
        pending := pending - {k};
      }
      assert buckets == Live(old(buckets), now);
    }
  }
}
