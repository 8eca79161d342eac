/**
 * The cache's statistics: six counters that the `Record*` operations add to,
 * a snapshot of them, and the integer-valued derived metrics. Counters are
 * uint64 and the total load time an int64 duration (nanoseconds), so every
 * addition wraps exactly as in Go.
 */
module CacheStats {
  import opened GoInts

  datatype Stats = Stats(
    hitCount: U64,
    missCount: U64,
    loadSuccessCount: U64,
    loadErrorCount: U64,
    totalLoadTime: I64,
    evictionCount: U64)

  /** The zero value a fresh counter starts from. */
  const NoStats := Stats(0, 0, 0, 0, 0, 0)

  /** Reads served: hits plus misses. */
  function RequestCount(s: Stats): (r: U64)
    ensures s.hitCount + s.missCount < TWO64 ==> r == s.hitCount + s.missCount
    ensures s.hitCount + s.missCount >= TWO64 ==> r == s.hitCount + s.missCount - TWO64
  {
    AddU64(s.hitCount, s.missCount)
  }

  /** Loader invocations: successes plus errors. */
  function LoadCount(s: Stats): (r: U64)
    ensures s.loadSuccessCount + s.loadErrorCount < TWO64 ==> r == s.loadSuccessCount + s.loadErrorCount
    ensures s.loadSuccessCount + s.loadErrorCount >= TWO64 ==> r == s.loadSuccessCount + s.loadErrorCount - TWO64
  {
    AddU64(s.loadSuccessCount, s.loadErrorCount)
  }

  /** Mean time per loader invocation; 0 when there was none. */
  function AverageLoadPenalty(s: Stats): (r: I64)
    ensures LoadCount(s) == 0 ==> r == 0
    ensures 0 < LoadCount(s) < TWO63 ==> r == Quot(s.totalLoadTime, LoadCount(s))
    ensures 0 < LoadCount(s) < TWO63 && 0 <= s.totalLoadTime ==> r == s.totalLoadTime / LoadCount(s)
    ensures LoadCount(s) >= TWO63 ==> r == DivI64(s.totalLoadTime, LoadCount(s) - TWO64)
  {
    var total := LoadCount(s);
    if total == 0 then 0
    else
      PenaltyIsQuotient(s.totalLoadTime, total);
      DivI64(s.totalLoadTime, U64ToI64(total))
  }

  /** Below 2^63 loads the int64 division cannot overflow: it is the truncated quotient. */
  lemma PenaltyIsQuotient(a: I64, total: U64)
    requires 0 < total
    ensures 0 < total < TWO63 ==> DivI64(a, U64ToI64(total)) == Quot(a, total)
  {
    if total < TWO63 {
      var q := Quot(a, total);
      assert Abs(q) <= Abs(a) <= TWO63;
    }
  }

  // The effect of each recording operation on the counters.

  function AfterHits(s: Stats, count: U64): (r: Stats)
    ensures r.hitCount == AddU64(s.hitCount, count) && r.(hitCount := s.hitCount) == s
  {
    s.(hitCount := AddU64(s.hitCount, count))
  }

  function AfterMisses(s: Stats, count: U64): (r: Stats)
    ensures r.missCount == AddU64(s.missCount, count) && r.(missCount := s.missCount) == s
  {
    s.(missCount := AddU64(s.missCount, count))
  }

  function AfterLoadSuccess(s: Stats, loadTime: I64): (r: Stats)
    ensures r.loadSuccessCount == AddU64(s.loadSuccessCount, 1)
    ensures r.totalLoadTime == AddI64(s.totalLoadTime, loadTime)
    ensures r.(loadSuccessCount := s.loadSuccessCount, totalLoadTime := s.totalLoadTime) == s
  {
    s.(loadSuccessCount := AddU64(s.loadSuccessCount, 1),
       totalLoadTime := AddI64(s.totalLoadTime, loadTime))
  }

  function AfterLoadError(s: Stats, loadTime: I64): (r: Stats)
    ensures r.loadErrorCount == AddU64(s.loadErrorCount, 1)
    ensures r.totalLoadTime == AddI64(s.totalLoadTime, loadTime)
    ensures r.(loadErrorCount := s.loadErrorCount, totalLoadTime := s.totalLoadTime) == s
  {
    s.(loadErrorCount := AddU64(s.loadErrorCount, 1),
       totalLoadTime := AddI64(s.totalLoadTime, loadTime))
  }

  function AfterEviction(s: Stats): (r: Stats)
    ensures r.evictionCount == AddU64(s.evictionCount, 1) && r.(evictionCount := s.evictionCount) == s
  {
    s.(evictionCount := AddU64(s.evictionCount, 1))
  }

  /** One call of a recording operation, with its argument. */
  datatype Record =
    | Hits(count: U64)
    | Misses(count: U64)
    | LoadSuccess(loadTime: I64)
    | LoadError(loadTime: I64)
    | Eviction

  function Apply(s: Stats, e: Record): Stats {
    match e
    case Hits(n) => AfterHits(s, n)
    case Misses(n) => AfterMisses(s, n)
    case LoadSuccess(t) => AfterLoadSuccess(s, t)
    case LoadError(t) => AfterLoadError(s, t)
    case Eviction => AfterEviction(s)
  }

  /** The counters after the records `es`, applied in order. */
  function Replay(s: Stats, es: seq<Record>): Stats
    decreases |es|
  {
    if es == [] then s else Replay(Apply(s, es[0]), es[1..])
  }

  /** The record adds a non-negative amount and no counter passes its maximum. */
  predicate Fits(s: Stats, e: Record) {
    match e
    case Hits(n) => s.hitCount + n < TWO64
    case Misses(n) => s.missCount + n < TWO64
    case LoadSuccess(t) => 0 <= t && s.loadSuccessCount + 1 < TWO64 && s.totalLoadTime + t < TWO63
    case LoadError(t) => 0 <= t && s.loadErrorCount + 1 < TWO64 && s.totalLoadTime + t < TWO63
    case Eviction => s.evictionCount + 1 < TWO64
  }

  predicate AllFit(s: Stats, es: seq<Record>)
    decreases |es|
  {
    es == [] || (Fits(s, es[0]) && AllFit(Apply(s, es[0]), es[1..]))
  }

  /** Every counter of `s` is at most the same counter of `t`. */
  predicate Below(s: Stats, t: Stats) {
    && s.hitCount <= t.hitCount
    && s.missCount <= t.missCount
    && s.loadSuccessCount <= t.loadSuccessCount
    && s.loadErrorCount <= t.loadErrorCount
    && s.totalLoadTime <= t.totalLoadTime
    && s.evictionCount <= t.evictionCount
  }

  /** A record that fits moves every counter up or leaves it where it is. */
  lemma ApplyNeverDecreases(s: Stats, e: Record)
    requires Fits(s, e)
    ensures Below(s, Apply(s, e))
  {
  }

  /** No counter ever decreases over a run of records with non-negative arguments and no overflow. */
  lemma {:induction false} ReplayNeverDecreases(s: Stats, es: seq<Record>)
    requires AllFit(s, es)
    ensures Below(s, Replay(s, es))
    decreases |es|
  {
    if es != [] {
      ApplyNeverDecreases(s, es[0]);
      ReplayNeverDecreases(Apply(s, es[0]), es[1..]);
    }
  }

  /** Recording hits or misses moves the request count by the same amount, modulo 2^64. */
  lemma RequestCountFollowsRecords(s: Stats, n: U64)
    ensures RequestCount(AfterHits(s, n)) == AddU64(RequestCount(s), n)
    ensures RequestCount(AfterMisses(s, n)) == AddU64(RequestCount(s), n)
  {
  }

  /** Every load, successful or not, adds one to the load count, modulo 2^64. */
  lemma LoadCountFollowsLoads(s: Stats, t: I64)
    ensures LoadCount(AfterLoadSuccess(s, t)) == AddU64(LoadCount(s), 1)
    ensures LoadCount(AfterLoadError(s, t)) == AddU64(LoadCount(s), 1)
  {
  }

  /**
   * The per-instance counters. Each `Record*` operation changes exactly the
   * counters its name says; nothing is ever reset.
   */
  class StatsCounter {
    var current: Stats

    constructor ()
      ensures current == NoStats
    {
      current := NoStats;
    }

    method RecordHits(count: U64)
      modifies this
      ensures current == AfterHits(old(current), count)
    {
      current := current.(hitCount := AddU64(current.hitCount, count));
    }

    method RecordMisses(count: U64)
      modifies this
      ensures current == AfterMisses(old(current), count)
    {
      current := current.(missCount := AddU64(current.missCount, count));
    }

    method RecordLoadSuccess(loadTime: I64)
      modifies this
      ensures current == AfterLoadSuccess(old(current), loadTime)
    {
      current := current.(loadSuccessCount := AddU64(current.loadSuccessCount, 1));
      current := current.(totalLoadTime := AddI64(current.totalLoadTime, loadTime));
    }

    method RecordLoadError(loadTime: I64)
      modifies this
      ensures current == AfterLoadError(old(current), loadTime)
    {
      current := current.(loadErrorCount := AddU64(current.loadErrorCount, 1));
      current := current.(totalLoadTime := AddI64(current.totalLoadTime, loadTime));
    }

    method RecordEviction()
      modifies this
      ensures current == AfterEviction(old(current))
    {
      current := current.(evictionCount := AddU64(current.evictionCount, 1));
    }

    /** A copy of all six counters. */
    method Snapshot() returns (t: Stats)
      ensures t == current
    {
      t := Stats(current.hitCount, current.missCount, current.loadSuccessCount,
                 current.loadErrorCount, current.totalLoadTime, current.evictionCount);
    }
  }
}
