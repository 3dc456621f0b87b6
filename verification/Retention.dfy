/** The retention window that guards every append. Times are milliseconds in `i64`,
    whose release-build arithmetic wraps. */
module Retention {
  import opened Bytes
  import opened HashChains

  const I64_MAX: int := 0x7FFF_FFFF_FFFF_FFFF
  const MS_PER_MONTH: int := 30 * 86_400 * 1000

  /** The longest window, in months, that fits in an `i64`. */
  const MAX_MONTHS: int := 3_558_399_705

  datatype Policy = Policy(
    defaultMonths: Uint32, perTenant: map<string, Uint32>, perJurisdiction: map<string, Uint32>)

  /** Tenant override, then jurisdiction override, then default. */
  function EffectiveMonths(p: Policy, tenant: string, jurisdiction: string): Uint32 {
    if tenant in p.perTenant then p.perTenant[tenant]
    else if jurisdiction in p.perJurisdiction then p.perJurisdiction[jurisdiction]
    else p.defaultMonths
  }

  /** The most specific setting wins. */
  lemma MonthsPrecedence(p: Policy, tenant: string, jurisdiction: string)
    ensures tenant in p.perTenant ==> EffectiveMonths(p, tenant, jurisdiction) == p.perTenant[tenant]
    ensures tenant !in p.perTenant && jurisdiction in p.perJurisdiction ==>
              EffectiveMonths(p, tenant, jurisdiction) == p.perJurisdiction[jurisdiction]
    ensures tenant !in p.perTenant && jurisdiction !in p.perJurisdiction ==>
              EffectiveMonths(p, tenant, jurisdiction) == p.defaultMonths
  {
  }

  /** Two's-complement wrap-around of a 64-bit result. */
  function Wrap64(x: int): (r: int)
    ensures -I64_MAX - 1 <= r <= I64_MAX
    ensures -I64_MAX - 1 <= x <= I64_MAX ==> r == x
  {
    (x + I64_MAX + 1) % TWO64 - I64_MAX - 1
  }

  /** Wrapping changes a number by a multiple of 2^64. */
  lemma WrapCongruent(x: int)
    ensures exists q :: Wrap64(x) == x + q * 0x1_0000_0000_0000_0000
  {
    var y := x + I64_MAX + 1;
    assert y == TWO64 * (y / TWO64) + y % TWO64;
    assert Wrap64(x) == x + (-(y / TWO64)) * 0x1_0000_0000_0000_0000;
  }

  function WindowMs(months: Uint32): int {
    Wrap64(months * MS_PER_MONTH)
  }

  /** The window is what the policy says if and only if the months fit. */
  lemma WindowExact(months: Uint32)
    ensures WindowMs(months) == months * 2_592_000_000 <==> months <= 3_558_399_705
  {
  }

  /** `enforce_retention`: true when the append may proceed. */
  predicate WithinRetention(c: seq<ChainEntry>, months: Uint32, now: int) {
    c == [] || Wrap64(now - c[|c| - 1].createdAtMs) <= WindowMs(months)
  }

  /** On times after the epoch the age is exact, so the test compares true ages. */
  lemma AgeExact(c: seq<ChainEntry>, months: Uint32, now: int)
    requires c != [] && 0 <= now <= I64_MAX && 0 <= c[|c| - 1].createdAtMs <= I64_MAX && months <= MAX_MONTHS
    ensures WithinRetention(c, months, now) <==> now - c[|c| - 1].createdAtMs <= months * 2_592_000_000
  {
    WindowExact(months);
  }

  /** Once exceeded, always exceeded, whatever the policy: the tip does not get younger. */
  lemma ExceededStays(c: seq<ChainEntry>, months: Uint32, now: int, later: int)
    requires c != [] && 0 <= c[|c| - 1].createdAtMs <= I64_MAX && 0 <= now <= later <= I64_MAX
    requires !WithinRetention(c, months, now)
    ensures !WithinRetention(c, months, later)
  {
  }
}
