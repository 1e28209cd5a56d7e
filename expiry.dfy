/** Lifetimes and the absolute expiration instants shared by the entry table
    and the tag table. An expire_time of 0 means "never expires". */
module Expiry {

  /** A resolved lifetime: PHP `null` is Infinite, an integer is Seconds(n). */
  datatype Lifetime = Infinite | Seconds(n: int)

  /** The `$specificLifetime` argument of save: PHP `false` selects the configured default. */
  datatype LifetimeArg = UseDefault | Specific(lifetime: Lifetime)

  /** getLifetime as save's doc comment describes it: any override other than `false` wins. */
  function GetLifetime(arg: LifetimeArg, configured: Lifetime): (l: Lifetime)
  {
    match arg
    case UseDefault => configured
    case Specific(l) => l
  }

  /** The expire_time one save writes everywhere: 0 for a zero or infinite lifetime,
      otherwise `now` plus the lifetime. */
  function ExpireTime(l: Lifetime, now: int): (e: int)
    ensures e == 0 <==> l == Infinite || l == Seconds(0) || now + l.n == 0
    ensures e != 0 ==> l.Seconds? && e == now + l.n
  {
    if l == Infinite || l == Seconds(0) then 0 else now + l.n
  }

  /** The sweep condition of clean(OLD): a row is stale once 0 < expire_time <= now. */
  predicate IsExpired(e: int, now: int): (expired: bool)
  {
    0 < e && e <= now
  }

  /** Once stale, a row stays stale: a later sweep selects every row an earlier one would,
      and a row with the sentinel 0 (or below) is never selected. */
  lemma StaleStaysStale(e: int, now: int, later: int)
    requires now <= later
    ensures IsExpired(e, now) ==> IsExpired(e, later)
    ensures e <= 0 ==> !IsExpired(e, later)
  {
  }

  /** A zero or infinite lifetime yields the sentinel 0, which no sweep ever selects. */
  lemma UnboundedLifetimeNeverExpires(arg: LifetimeArg, configured: Lifetime, now: int, t: int)
    requires GetLifetime(arg, configured) == Infinite || GetLifetime(arg, configured) == Seconds(0)
    ensures ExpireTime(GetLifetime(arg, configured), now) == 0
    ensures !IsExpired(ExpireTime(GetLifetime(arg, configured), now), t)
  {
  }

  /** A positive lifetime counted from a non-negative clock expires exactly
      `n` seconds after the save, and not a moment earlier. */
  lemma PositiveLifetimeExpiresAfter(arg: LifetimeArg, configured: Lifetime, now: int, t: int)
    requires now >= 0
    requires GetLifetime(arg, configured).Seconds? && GetLifetime(arg, configured).n > 0
    ensures ExpireTime(GetLifetime(arg, configured), now) == now + GetLifetime(arg, configured).n
    ensures IsExpired(ExpireTime(GetLifetime(arg, configured), now), t)
            <==> t >= now + GetLifetime(arg, configured).n
  {
  }
}
