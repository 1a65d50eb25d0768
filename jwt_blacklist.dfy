/**
 * The table of revoked tokens: token id to expiry (in whole seconds since the
 * epoch, as a token's `exp` claim is). The clock is a parameter in
 * milliseconds; the source compares expiries against milliseconds divided by
 * 1000, which for a whole-second expiry `exp` is the comparison of the clock
 * against `1000 * exp`.
 */
module JwtBlacklist {

  /** The point check's expiry rule: `now / 1000 > exp`. */
  predicate PastExpiry(exp: int, nowMs: int) {
    nowMs > 1000 * exp
  }

  /** The sweep's expiry rule: `exp < now / 1000`. */
  predicate SweepDrops(exp: int, nowMs: int) {
    1000 * exp < nowMs
  }

  /** The two rules written in the source agree on every entry and every time. */
  lemma ExpiryRulesAgree(exp: int, nowMs: int)
    ensures SweepDrops(exp, nowMs) <==> PastExpiry(exp, nowMs)
  {
  }

  /** What `isTokenBlacklisted` answers. */
  function Listed(entries: map<string, int>, jti: string, nowMs: int): (b: bool)
    ensures b <==> jti in entries && nowMs <= 1000 * entries[jti]
  {
    jti in entries && !PastExpiry(entries[jti], nowMs)
  }

  /** The table after `isTokenBlacklisted`: an entry found past its expiry is deleted, nothing else changes. */
  function AfterCheck(entries: map<string, int>, jti: string, nowMs: int): (r: map<string, int>)
    ensures forall j :: j != jti ==> (j in r <==> j in entries) && (j in r ==> r[j] == entries[j])
    ensures jti in r <==> Listed(entries, jti, nowMs)
    ensures jti in r ==> r[jti] == entries[jti]
  {
    if jti in entries && PastExpiry(entries[jti], nowMs) then entries - {jti} else entries
  }

  /** The entries the sweep keeps. */
  function Unexpired(entries: map<string, int>, nowMs: int): (r: map<string, int>)
    ensures forall j :: j in r <==> j in entries && !SweepDrops(entries[j], nowMs)
    ensures forall j :: j in r ==> r[j] == entries[j]
  {
    map j | j in entries && !SweepDrops(entries[j], nowMs) :: entries[j]
  }

  /** A token revoked with expiry `exp` is reported revoked exactly until `exp` has passed. */
  lemma RevokedUntilExpiry(entries: map<string, int>, jti: string, exp: int, nowMs: int)
    ensures Listed(entries[jti := exp], jti, nowMs) <==> nowMs <= 1000 * exp
  {
  }

  /** The sweep never changes a later answer of the point check. */
  lemma SweepInvisibleToCheck(entries: map<string, int>, nowMs: int, later: int, jti: string)
    requires nowMs <= later
    ensures Listed(Unexpired(entries, nowMs), jti, later) == Listed(entries, jti, later)
  {
    if jti in entries && jti !in Unexpired(entries, nowMs) {
      assert SweepDrops(entries[jti], nowMs);
    }
  }

  /** The point check removes what the sweep would remove at the same moment, and only that. */
  lemma CheckAgreesWithSweep(entries: map<string, int>, jti: string, nowMs: int)
    ensures jti in AfterCheck(entries, jti, nowMs) <==> jti in Unexpired(entries, nowMs)
  {
    if jti in entries {
      ExpiryRulesAgree(entries[jti], nowMs);
    }
  }

  class Blacklist {
    var entries: map<string, int>

    constructor()
      ensures entries == map[]
    {
      entries := map[];
    }

    /** `blacklistToken`: stores or overwrites the expiry of `jti`. */
    method BlacklistToken(jti: string, exp: int)
      modifies this
      ensures entries == old(entries)[jti := exp]
    {
      entries := entries[jti := exp];
    }

    /** `isTokenBlacklisted`: false for an unknown or expired token (deleting the latter), true otherwise. */
    method IsTokenBlacklisted(jti: string, nowMs: int) returns (b: bool)
      modifies this
      ensures b == Listed(old(entries), jti, nowMs)
      ensures entries == AfterCheck(old(entries), jti, nowMs)
    {
      if jti !in entries {
        return false;
      }
      if nowMs > 1000 * entries[jti] {
        entries := entries - {jti};
        return false;
      }
      b := true;
    }

    /** The ten-minute interval: deletes every entry whose expiry has passed. */
    method Sweep(nowMs: int)
      modifies this
      ensures entries == Unexpired(old(entries), nowMs)
    {
      var pending := entries.Keys;
      while pending != {}
        invariant pending <= old(entries).Keys
        invariant forall j :: j in entries <==> j in old(entries) && (j in pending || !SweepDrops(old(entries)[j], nowMs))
        invariant forall j :: j in entries ==> entries[j] == old(entries)[j]
        decreases |pending|
      {
        var j :| j in pending;
        if 1000 * entries[j] < nowMs {
          entries := entries - {j};
        }
        pending := pending - {j};
      }
      assert entries == Unexpired(old(entries), nowMs);
    }
  }
}
