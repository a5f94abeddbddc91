/**
 * TTL handling on both sides of the bus: maybeTTL on the reader, which
 * resolves the text published with a key, and the writer's check of that
 * text before RESTORE.
 */
module Ttl {
  import opened Wrappers
  import opened StrConv
  import opened Outcomes

  /** PTTL's reply for a key that exists but has no expiry. */
  const NoExpiry: string := "-1"
  /** The TTL RESTORE reads as "no expiry". */
  const Persistent: string := "0"

  /**
   * maybeTTL: with TTL sync off the result is "0" and `pttl`, the outcome
   * the PTTL query would have had, is not consulted; with it on, the reply
   * "-1" becomes "0", any other reply text is kept, and a failed query
   * becomes an error naming the key.
   */
  function MaybeTTL(ttlSync: bool, key: string, pttl: Reply): (r: Result<string, Error>)
    ensures !ttlSync ==> r == Ok(Persistent)
    ensures r.Err? <==> ttlSync && pttl.Failed?
    ensures r.Err? ==> r.error == PttlFailed(key, pttl.cause)
  {
    if !ttlSync then Ok(Persistent)
    else match pttl
      case Failed(cause) => Err(PttlFailed(key, cause))
      case Value(ttl) => if ttl == NoExpiry then Ok(Persistent) else Ok(ttl)
  }

  /** The writer's check: the TTL parses as a base-10 int64 and is not negative. */
  predicate AcceptedTtl(ttl: string) {
    ParseInt(ttl).Ok? && ParseInt(ttl).value >= 0
  }

  /** The writer accepts exactly a signed decimal numeral whose value is in 0 .. 2^63 - 1. */
  lemma AcceptedTtlCorrect(ttl: string)
    ensures AcceptedTtl(ttl) <==> IsDecimal(ttl) && 0 <= SignedValue(ttl) <= MaxInt64
  {
    ParseIntCorrect(ttl);
  }

  /**
   * With sync on, a PTTL integer reply of -1 or more (no expiry, or the
   * remaining milliseconds) resolves to a TTL the writer accepts, denoting
   * the remaining milliseconds, or 0 for no expiry.
   */
  lemma ResolvedTtlAccepted(key: string, t: int)
    requires -1 <= t <= MaxInt64
    ensures MaybeTTL(true, key, Value(FormatInt(t))).Ok?
    ensures var ttl := MaybeTTL(true, key, Value(FormatInt(t))).value;
            AcceptedTtl(ttl) && ParseInt(ttl) == Ok(if t == -1 then 0 else t)
  {
    if t == -1 {
      assert FormatInt(t) == NoExpiry;
      assert ParseInt(Persistent) == Ok(0);
    } else {
      ParseFormatRoundTrip(t);
    }
  }

  /**
   * Every other negative PTTL reply (Redis answers -2 for a key that no
   * longer exists) passes maybeTTL unchanged, and the writer rejects it.
   */
  lemma OtherNegativeTtlRejected(key: string, t: int)
    requires MinInt64 <= t < -1
    ensures MaybeTTL(true, key, Value(FormatInt(t))) == Ok(FormatInt(t))
    ensures !AcceptedTtl(FormatInt(t))
  {
    ParseFormatRoundTrip(t);
    ParseFormatRoundTrip(-1);
    assert FormatInt(-1) == NoExpiry;
  }

  /** With sync off, the TTL published is "0", which the writer accepts as no expiry. */
  lemma DisabledTtlAccepted(key: string, pttl: Reply)
    ensures MaybeTTL(false, key, pttl) == Ok(Persistent)
    ensures AcceptedTtl(Persistent) && ParseInt(Persistent) == Ok(0)
  {
  }
}
