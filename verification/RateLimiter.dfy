/** The keyed rate limiter of `rate_limiting.rs`: one call of `check` is one atomic step,
    because its whole body runs under the limiter's lock. */
module RateLimiter {
  import opened Wrappers

  const PURGE_INTERVAL: int := 1000

  datatype Config = Config(enabled: bool, maxRequests: u32, windowSecs: u64)

  datatype Record = Record(count: u32, windowStart: u64)

  datatype Verdict = Allowed | RateLimited(retryAfterSecs: u64)

  datatype State = State(records: map<string, Record>, checkCount: u64)

  const EMPTY: State := State(map[], 0)

  function SaturatingAdd(a: u64, b: u64): u64 {
    if a + b > U64_MAX then U64_MAX else a + b
  }

  predicate Expired(cfg: Config, r: Record, now: u64) {
    now >= SaturatingAdd(r.windowStart, cfg.windowSecs)
  }

  /** The decision for one key, given what the map holds for it. */
  function Decide(cfg: Config, slot: Option<Record>, now: u64): (Record, Verdict) {
    var r := slot.GetOr(Record(0, now));
    if Expired(cfg, r, now) then
      (Record(1, now), Allowed)
    else if r.count < cfg.maxRequests then
      (r.(count := r.count + 1), Allowed)
    else
      (r, RateLimited(cfg.windowSecs))
  }

  function Sweep(cfg: Config, m: map<string, Record>, now: u64): map<string, Record> {
    map k | k in m && !Expired(cfg, m[k], now) :: m[k]
  }

  /** What happened at the lock: a check, with whether it swept, whom it evicted and what it
      answered; or a call of `clear`. */
  datatype Event =
    | Check(key: string, now: u64, sweep: bool, victim: Option<string>, verdict: Verdict)
    | Clear

  ghost predicate Oldest(m: map<string, Record>, k: string) {
    k in m && forall other | other in m :: m[k].windowStart <= m[other].windowStart
  }

  /** A newcomer at capacity evicts some entry with the least window start; ties are broken by
      the hash map's iteration order, so any of them may go. */
  ghost predicate MayEvict(cap: nat, m: map<string, Record>, key: string, victim: Option<string>) {
    if cap > 0 && key !in m && |m| >= cap
    then victim.Some? && Oldest(m, victim.value)
    else victim.None?
  }

  function Without(m: map<string, Record>, victim: Option<string>): map<string, Record> {
    if victim.Some? then m - {victim.value} else m
  }

  function Swept(cfg: Config, m: map<string, Record>, e: Event): map<string, Record>
    requires e.Check?
  {
    if e.sweep then Sweep(cfg, m, e.now) else m
  }

  ghost predicate Step(cfg: Config, cap: nat, s: State, e: Event, s': State) {
    match e
    case Clear => s' == s.(records := map[])
    case Check(key, now, sweep, victim, verdict) =>
      if !cfg.enabled then
        s' == s && victim.None? && verdict == Allowed
      else
        var swept := Swept(cfg, s.records, e);
        var kept := Without(swept, victim);
        var d := Decide(cfg, Lookup(kept, key), now);
        && MayEvict(cap, swept, key, victim)
        && s' == State(kept[key := d.0], (s.checkCount + 1) % (U64_MAX + 1))
        && verdict == d.1
  }

  class KeyedRateLimiter {
    const config: Config
    const maxEntries: nat
    var records: map<string, Record>
    var checkCount: u64

    function Abs(): State
      reads this
    {
      State(records, checkCount)
    }

    constructor (config: Config, maxEntries: nat)
      ensures this.config == config && this.maxEntries == maxEntries
      ensures Abs() == EMPTY
    {
      this.config, this.maxEntries := config, maxEntries;
      records, checkCount := map[], 0;
    }

    /** `records.iter().min_by_key(window_start)`. */
    method OldestKey() returns (oldest: string)
      requires |records| > 0
      ensures Oldest(records, oldest)
    {
      oldest :| oldest in records;
      var rest := records.Keys - {oldest};
      while rest != {}
        invariant rest <= records.Keys && oldest in records
        invariant forall k | k in records && k !in rest ::
                    records[oldest].windowStart <= records[k].windowStart
        decreases rest
      {
        var k :| k in rest;
        if records[k].windowStart < records[oldest].windowStart {
          oldest := k;
        }
        rest := rest - {k};
      }
    }

    /** The capacity block of `check`. */
    method MakeRoom(key: string) returns (ghost victim: Option<string>)
      modifies this`records
      ensures MayEvict(maxEntries, old(records), key, victim)
      ensures records == Without(old(records), victim)
    {
      victim := None;
      if maxEntries > 0 && key !in records && |records| >= maxEntries {
        var oldest := OldestKey();
        records := records - {oldest};
        victim := Some(oldest);
      }
    }

    /** The last block of `check`: find or insert the record, then one of the three cases. */
    method Serve(key: string, now: u64) returns (verdict: Verdict)
      modifies this`records
      ensures var d := Decide(config, Lookup(old(records), key), now);
              records == old(records)[key := d.0] && verdict == d.1
    {
      if key !in records {
        records := records[key := Record(0, now)];
      }
      var record := records[key];
      if now >= SaturatingAdd(record.windowStart, config.windowSecs) {
        records := records[key := Record(1, now)];
        verdict := Allowed;
      } else if record.count < config.maxRequests {
        records := records[key := record.(count := record.count + 1)];
        verdict := Allowed;
      } else {
        verdict := RateLimited(config.windowSecs);
      }
    }

    method Check(key: string, now: u64) returns (verdict: Verdict, ghost e: Event)
      modifies this
      ensures e.Check? && e.key == key && e.now == now && e.verdict == verdict
      ensures checkCount == if config.enabled then (old(checkCount) + 1) % (U64_MAX + 1) else old(checkCount)
      ensures verdict.RateLimited? ==> verdict.retryAfterSecs == config.windowSecs
      ensures e.sweep <==> old(checkCount) % PURGE_INTERVAL == 0
      ensures Step(config, maxEntries, old(Abs()), e, Abs())
    {
      ghost var sweep := checkCount % PURGE_INTERVAL == 0;
      if !config.enabled {
        return Allowed, Event.Check(key, now, sweep, None, Allowed);
      }
      var count := checkCount;
      checkCount := (checkCount + 1) % (U64_MAX + 1);
      if count % PURGE_INTERVAL == 0 {
        records := Sweep(config, records, now);
      }
      ghost var victim := MakeRoom(key);
      verdict := Serve(key, now);
      e := Event.Check(key, now, sweep, victim, verdict);
    }

    method Clear() returns (ghost e: Event)
      modifies this
      ensures e == Event.Clear && Step(config, maxEntries, old(Abs()), e, Abs())
      ensures records == map[] && checkCount == old(checkCount)
    {
      records := map[];
      e := Event.Clear;
    }
  }
}
