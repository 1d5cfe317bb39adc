/**
 * The two concurrency sizers of the asynchronous downloader: how many downloads and how many
 * HEAD probes may be in flight at once. `os.cpu_count()` is a parameter (`None` when unknown).
 */
module Concurrency {
  import opened Wrappers

  /** `os.cpu_count() or 4`: an unknown or zero count falls back to 4. */
  function EffectiveCpuCount(cpuCount: Option<nat>): (c: nat)
    ensures c >= 1
    ensures cpuCount.Some? && cpuCount.value > 0 ==> c == cpuCount.value
  {
    if cpuCount.Some? && cpuCount.value > 0 then cpuCount.value else 4
  }

  function Min(a: int, b: int): int {
    if a <= b then a else b
  }

  function Max(a: int, b: int): int {
    if a >= b then a else b
  }

  /**
   * `calculate_optimal_concurrency`, as written: 3 up to 25 pages, otherwise a table capped by
   * twice the CPU count and by 10. The documented minimum of 3 holds only with two or more CPUs.
   */
  function FetchConcurrency(totalPages: int, cpuCount: Option<nat>): (d: nat)
    ensures 2 <= d <= 10
    ensures totalPages <= 25 ==> d == 3
    ensures EffectiveCpuCount(cpuCount) >= 2 ==> d >= 3
    ensures totalPages > 100 ==> d == Min(2 * EffectiveCpuCount(cpuCount), 10)
  {
    if totalPages <= 25 then 3
    else
      var base := Min(EffectiveCpuCount(cpuCount) * 2, 10);
      if totalPages <= 50 then Min(5, base)
      else if totalPages <= 100 then Min(7, base)
      else base
  }

  /**
   * `calculate_optimal_concurrency_verification`, as written: 5 up to 50 URLs, otherwise a table
   * capped by four times the CPU count and by 20. The documented minimum of 5 holds only with two
   * or more CPUs.
   */
  function VerificationConcurrency(totalUrls: int, cpuCount: Option<nat>): (d: nat)
    ensures 4 <= d <= 20
    ensures totalUrls <= 50 ==> d == 5
    ensures EffectiveCpuCount(cpuCount) >= 2 ==> d >= 5
    ensures totalUrls > 200 ==> d == Min(4 * EffectiveCpuCount(cpuCount), 20)
  {
    if totalUrls <= 50 then 5
    else
      var base := Min(EffectiveCpuCount(cpuCount) * 4, 20);
      if totalUrls <= 100 then Min(10, base)
      else if totalUrls <= 200 then Min(15, base)
      else base
  }

  /** With at least two CPUs, more pages never means fewer concurrent downloads. */
  lemma FetchConcurrencyMonotonic(n: int, m: int, cpuCount: Option<nat>)
    requires n <= m && EffectiveCpuCount(cpuCount) >= 2
    ensures FetchConcurrency(n, cpuCount) <= FetchConcurrency(m, cpuCount)
  {
  }

  /** With at least two CPUs, more URLs never means fewer concurrent probes. */
  lemma VerificationConcurrencyMonotonic(n: int, m: int, cpuCount: Option<nat>)
    requires n <= m && EffectiveCpuCount(cpuCount) >= 2
    ensures VerificationConcurrency(n, cpuCount) <= VerificationConcurrency(m, cpuCount)
  {
  }

  /**
   * On a one-CPU machine the fetch sizer gives 2 beyond 25 pages: below the documented minimum
   * of 3, and smaller than what it gives for 25 pages.
   */
  lemma FetchConcurrencyOneCpu(n: int)
    requires n > 25
    ensures FetchConcurrency(n, Some(1)) == 2
    ensures FetchConcurrency(25, Some(1)) > FetchConcurrency(n, Some(1))
  {
  }

  /**
   * On a one-CPU machine the probe sizer gives 4 beyond 50 URLs: below the documented minimum
   * of 5, and smaller than what it gives for 50 URLs.
   */
  lemma VerificationConcurrencyOneCpu(n: int)
    requires n > 50
    ensures VerificationConcurrency(n, Some(1)) == 4
    ensures VerificationConcurrency(50, Some(1)) > VerificationConcurrency(n, Some(1))
  {
  }

  /** The fetch sizer with its documented floor of 3 applied to the CPU-derived cap. */
  function FetchConcurrencyIntended(totalPages: int, cpuCount: Option<nat>): (d: nat)
    ensures 3 <= d <= 10
    ensures totalPages <= 25 ==> d == 3
    ensures EffectiveCpuCount(cpuCount) >= 2 ==> d == FetchConcurrency(totalPages, cpuCount)
  {
    if totalPages <= 25 then 3
    else
      var base := Max(3, Min(EffectiveCpuCount(cpuCount) * 2, 10));
      if totalPages <= 50 then Min(5, base)
      else if totalPages <= 100 then Min(7, base)
      else base
  }

  /** The probe sizer with its documented floor of 5 applied to the CPU-derived cap. */
  function VerificationConcurrencyIntended(totalUrls: int, cpuCount: Option<nat>): (d: nat)
    ensures 5 <= d <= 20
    ensures totalUrls <= 50 ==> d == 5
    ensures EffectiveCpuCount(cpuCount) >= 2 ==> d == VerificationConcurrency(totalUrls, cpuCount)
  {
    if totalUrls <= 50 then 5
    else
      var base := Max(5, Min(EffectiveCpuCount(cpuCount) * 4, 20));
      if totalUrls <= 100 then Min(10, base)
      else if totalUrls <= 200 then Min(15, base)
      else base
  }

  /** The floored sizers are monotone for every CPU count. */
  lemma IntendedConcurrencyMonotonic(n: int, m: int, cpuCount: Option<nat>)
    requires n <= m
    ensures FetchConcurrencyIntended(n, cpuCount) <= FetchConcurrencyIntended(m, cpuCount)
    ensures VerificationConcurrencyIntended(n, cpuCount) <= VerificationConcurrencyIntended(m, cpuCount)
  {
  }
}
