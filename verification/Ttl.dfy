/** Expiry arithmetic (crates/data-node/src/ttl.rs). Clock readings are parameters. */
module Ttl {
  import opened Base

  /** Two's-complement truncation to 64 bits: what `now + s as i64` yields in a release build. */
  function WrapI64(x: int): (r: int)
    ensures InI64(r)
    ensures InI64(x) ==> r == x
    ensures (x - r) % TWO_64 == 0
  {
    (x - I64_MIN) % TWO_64 + I64_MIN
  }

  predicate IsExpired(expires: Option<int>, now: int) {
    expires.Some? && expires.value <= now
  }

  /** Seconds left, never negative; `None` for a persistent key. */
  function Remaining(expires: Option<int>, now: int): Option<int> {
    match expires
    case None => None
    case Some(e) => Some(if e - now > 0 then e - now else 0)
  }

  function ExpiresAt(ttl: Option<U64>, now: int): Option<int> {
    match ttl
    case None => None
    case Some(s) => Some(WrapI64(now + s))
  }

  /** A key given `ttl` seconds at `now` lives for exactly that long, and the seconds left count down to 0; without a
      ttl it never expires. */
  lemma LivesForItsTtl(ttl: Option<U64>, now: int, later: int)
    requires ttl.Some? ==> InI64(now + ttl.value)
    ensures IsExpired(ExpiresAt(ttl, now), later) <==> ttl.Some? && ttl.value <= later - now
    ensures ttl.None? ==> Remaining(ExpiresAt(ttl, now), later) == None
    ensures ttl.Some? ==>
              Remaining(ExpiresAt(ttl, now), later)
                == Some(if later - now < ttl.value then ttl.value - (later - now) else 0)
  {
  }
}
