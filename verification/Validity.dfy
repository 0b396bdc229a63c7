/**
 * The validity arithmetic of Verify and Mint: int64 seconds in the payload, a
 * clock read in nanoseconds, and thirty seconds of tolerance at each end.
 */
module Validity {
  import opened Integers

  const MAX_LIFETIME: int := 300
  const SKEW: int := 30_000_000_000
  const SECOND: int := 1_000_000_000

  // time.Time.Unix of a reading in nanoseconds: whole seconds, rounded down.
  function Unix(nanos: int): int {
    nanos / 1_000_000_000
  }

  // ExpiresAt-IssuedAt is int64 subtraction, so it wraps.
  predicate LifetimeAllowed(iat: int64, exp: int64) {
    Wrap(exp - iat) <= MAX_LIFETIME
  }

  predicate NotYetValid(iat: int64, now: int) {
    Unix(now + SKEW) < iat
  }

  predicate Expired(exp: int64, now: int) {
    Unix(now - SKEW) > exp
  }

  ghost predicate Accepted(iat: int64, exp: int64, now: int) {
    iat < exp && LifetimeAllowed(iat, exp) && !NotYetValid(iat, now) && !Expired(exp, now)
  }

  // The accepted readings are one half-open interval of nanoseconds.
  lemma WindowExactly(iat: int64, exp: int64, now: int)
    ensures !NotYetValid(iat, now) && !Expired(exp, now) <==>
            iat * SECOND - SKEW <= now < (exp + 1) * SECOND + SKEW
  {
  }

  // The wrapped check enforces the ceiling exactly when the difference fits in int64.
  lemma WrappedLifetime(iat: int64, exp: int64)
    requires iat < exp
    ensures (LifetimeAllowed(iat, exp) <==> exp - iat <= MAX_LIFETIME) <==> exp - iat < TWO_63
  {
    if exp - iat < TWO_63 {
      WrapIsIdentityInRange(exp - iat);
    } else {
      assert Wrap(exp - iat) == exp - iat - TWO_64;
    }
  }

  // An input on which it does not: the difference wraps to a negative number.
  lemma CeilingCanBeEscaped()
    ensures Accepted(-0x8000_0000_0000_0000, 1, 0) && 1 - -0x8000_0000_0000_0000 > MAX_LIFETIME
  {
    WrappedLifetime(-0x8000_0000_0000_0000, 1);
  }

  // All readings that accept one credential are less than 361 seconds apart
  // exactly when its lifetime does not wrap, which is always so from the epoch on.
  lemma AcceptedSpan(iat: int64, exp: int64)
    requires iat < exp && LifetimeAllowed(iat, exp)
    ensures (forall t1, t2 :: Accepted(iat, exp, t1) && Accepted(iat, exp, t2) ==> t2 - t1 < 361 * SECOND)
            <==> exp - iat < TWO_63
    ensures iat >= 0 ==> exp - iat < TWO_63
  {
    WrappedLifetime(iat, exp);
    if exp - iat < TWO_63 {
      forall t1, t2 | Accepted(iat, exp, t1) && Accepted(iat, exp, t2)
        ensures t2 - t1 < 361 * SECOND
      {
        WindowExactly(iat, exp, t1);
        WindowExactly(iat, exp, t2);
      }
    } else {
      var t1, t2 := iat * SECOND - SKEW, (exp + 1) * SECOND + SKEW - 1;
      WindowExactly(iat, exp, t1);
      WindowExactly(iat, exp, t2);
      assert Accepted(iat, exp, t1) && Accepted(iat, exp, t2);
    }
  }

  // The bound is attained to the nanosecond, whatever the issue time.
  lemma SpanIsTight(iat: int64)
    requires iat + MAX_LIFETIME < TWO_63
    ensures var exp: int64 := iat + MAX_LIFETIME;
            var t1, t2 := iat * SECOND - SKEW, (exp + 1) * SECOND + SKEW - 1;
            Accepted(iat, exp, t1) && Accepted(iat, exp, t2) && t2 - t1 == 361 * SECOND - 1
  {
    var exp: int64 := iat + MAX_LIFETIME;
    WrappedLifetime(iat, exp);
    WindowExactly(iat, exp, iat * SECOND - SKEW);
    WindowExactly(iat, exp, (exp + 1) * SECOND + SKEW - 1);
  }
}
