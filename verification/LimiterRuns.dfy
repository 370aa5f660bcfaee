/** What the limiter promises over whole runs, for every interleaving of callers. */
module LimiterRuns {
  import opened Wrappers
  import opened RateLimiter

  /** A run from the empty limiter: `states[i]` is what event `i` found. */
  ghost predicate Run(cfg: Config, cap: nat, events: seq<Event>, states: seq<State>) {
    && |states| == |events| + 1
    && states[0] == EMPTY
    && forall i :: 0 <= i < |events| ==> Step(cfg, cap, states[i], events[i], states[i + 1])
  }

  /** The sweep happens exactly on every PURGE_INTERVAL-th value of the call counter. */
  ghost predicate Periodic(events: seq<Event>, states: seq<State>)
    requires |states| == |events| + 1
  {
    forall i :: 0 <= i < |events| && events[i].Check? ==>
      (events[i].sweep <==> states[i].checkCount % PURGE_INTERVAL == 0)
  }

  ghost predicate NeverSweeps(events: seq<Event>) {
    forall e :: e in events && e.Check? ==> !e.sweep
  }

  /** The clock never runs backwards. */
  ghost predicate Ordered(events: seq<Event>) {
    forall i, j :: 0 <= i < j < |events| && events[i].Check? && events[j].Check? ==>
      events[i].now <= events[j].now
  }

  // ----- One key on its own -----

  /** One request of a lone key, without map, sweep or eviction. */
  function Serve(cfg: Config, slot: Option<Record>, now: u64): (Option<Record>, Verdict) {
    if !cfg.enabled then (slot, Allowed)
    else var d := Decide(cfg, slot, now); (Some(d.0), d.1)
  }

  function AloneSlot(cfg: Config, times: seq<u64>): Option<Record> {
    if times == [] then None
    else Serve(cfg, AloneSlot(cfg, times[..|times| - 1]), times[|times| - 1]).0
  }

  function AloneAnswers(cfg: Config, times: seq<u64>): (answers: seq<Verdict>)
    ensures |answers| == |times|
  {
    if times == [] then []
    else
      var before := times[..|times| - 1];
      AloneAnswers(cfg, before) + [Serve(cfg, AloneSlot(cfg, before), times[|times| - 1]).1]
  }

  /** One more request of the lone key. */
  lemma AloneAppends(cfg: Config, past: seq<u64>, now: u64)
    ensures AloneSlot(cfg, past + [now]) == Serve(cfg, AloneSlot(cfg, past), now).0
    ensures AloneAnswers(cfg, past + [now]) ==
            AloneAnswers(cfg, past) + [Serve(cfg, AloneSlot(cfg, past), now).1]
  {
    assert (past + [now])[..|past|] == past;
  }

  /** After this event the limiter has forgotten k, whatever it knew. */
  predicate Forgets(e: Event, k: string) {
    e.Clear? || e.victim == Some(k)
  }

  /** The times of k's requests since it was last evicted or cleared. */
  function Times(events: seq<Event>, k: string): seq<u64> {
    if events == [] then []
    else
      var before, e := Times(events[..|events| - 1], k), events[|events| - 1];
      if Forgets(e, k) then []
      else if e.key == k then before + [e.now]
      else before
  }

  /** The answers to those requests. */
  function Answers(events: seq<Event>, k: string): seq<Verdict> {
    if events == [] then []
    else
      var before, e := Answers(events[..|events| - 1], k), events[|events| - 1];
      if Forgets(e, k) then []
      else if e.key == k then before + [e.verdict]
      else before
  }

  /** A missing record and an expired one are the same thing to this configuration. */
  predicate Seamless(cfg: Config) {
    !cfg.enabled || cfg.maxRequests >= 1 || cfg.windowSecs == 0 || cfg.windowSecs == U64_MAX
  }

  predicate Dead(cfg: Config, slot: Option<Record>, t: u64) {
    slot.Some? ==> Expired(cfg, slot.value, t)
  }

  predicate Alike(cfg: Config, a: Option<Record>, b: Option<Record>, t: u64) {
    a == b || (Dead(cfg, a, t) && Dead(cfg, b, t))
  }

  lemma AlikeSlotsAreServedAlike(cfg: Config, a: Option<Record>, b: Option<Record>, now: u64)
    requires Seamless(cfg) && cfg.enabled && Alike(cfg, a, b, now)
    ensures Decide(cfg, a, now) == Decide(cfg, b, now)
  {
  }

  lemma EventAppends(before: seq<Event>, e: Event, k: string)
    ensures Times(before + [e], k) ==
            if Forgets(e, k) then [] else if e.key == k then Times(before, k) + [e.now] else Times(before, k)
    ensures Answers(before + [e], k) ==
            if Forgets(e, k) then [] else if e.key == k then Answers(before, k) + [e.verdict] else Answers(before, k)
  {
    assert (before + [e])[..|before|] == before;
  }

  /** One step of the simulation. */
  lemma EventKeepsLikeness(cfg: Config, cap: nat, before: seq<Event>, s: State, e: Event, s': State, k: string, t: u64)
    requires Seamless(cfg) && Step(cfg, cap, s, e, s') && (e.Check? ==> e.now <= t)
    requires Alike(cfg, Lookup(s.records, k), AloneSlot(cfg, Times(before, k)), if e.Check? then e.now else t)
    requires Answers(before, k) == AloneAnswers(cfg, Times(before, k))
    ensures Alike(cfg, Lookup(s'.records, k), AloneSlot(cfg, Times(before + [e], k)), t)
    ensures Answers(before + [e], k) == AloneAnswers(cfg, Times(before + [e], k))
  {
    var times := Times(before, k);
    EventAppends(before, e, k);
    if e.Check? {
      AloneAppends(cfg, times, e.now);
      if cfg.enabled {
        CheckKeepsLikeness(cfg, cap, s, e, s', k, AloneSlot(cfg, times), t);
      }
    }
  }

  /** The simulation: what the shared map holds for k is like what k alone would have. */
  lemma {:induction false} SharedSlotIsLikeAlone(cfg: Config, cap: nat, events: seq<Event>,
      states: seq<State>, k: string, t: u64)
    requires Run(cfg, cap, events, states) && Ordered(events) && Seamless(cfg)
    requires forall e :: e in events && e.Check? ==> e.now <= t
    ensures Alike(cfg, Lookup(states[|events|].records, k), AloneSlot(cfg, Times(events, k)), t)
    ensures Answers(events, k) == AloneAnswers(cfg, Times(events, k))
    decreases |events|
  {
    if events != [] {
      var n := |events| - 1;
      var e, before := events[n], events[..n];
      assert Step(cfg, cap, states[n], e, states[n + 1]);
      SharedSlotIsLikeAlone(cfg, cap, before, states[..n + 1], k, if e.Check? then e.now else t);
      EventKeepsLikeness(cfg, cap, before, states[n], e, states[n + 1], k, t);
      assert events == before + [e];
    }
  }

  lemma CheckKeepsLikeness(cfg: Config, cap: nat, s: State, e: Event, s': State, k: string,
      alone: Option<Record>, t: u64)
    requires cfg.enabled && Seamless(cfg) && e.Check? && Step(cfg, cap, s, e, s') && e.now <= t
    requires Alike(cfg, Lookup(s.records, k), alone, e.now)
    ensures e.victim == Some(k) ==> Lookup(s'.records, k) == None
    ensures e.victim != Some(k) && e.key == k ==>
              (Lookup(s'.records, k), e.verdict) == Serve(cfg, alone, e.now)
    ensures e.victim != Some(k) && e.key != k ==> Alike(cfg, Lookup(s'.records, k), alone, t)
  {
    var swept := Swept(cfg, s.records, e);
    assert Alike(cfg, Lookup(swept, k), alone, e.now);
    if e.key == k && e.victim != Some(k) {
      AlikeSlotsAreServedAlike(cfg, Lookup(swept, k), alone, e.now);
    }
  }

  /** In any run, at any capacity, each key is answered as if it were alone since it was last
      forgotten, although the sweep schedule depends on everyone's calls. */
  lemma AnswersAreOwn(cfg: Config, cap: nat, events: seq<Event>, states: seq<State>, k: string)
    requires Run(cfg, cap, events, states) && Ordered(events) && Seamless(cfg)
    ensures Answers(events, k) == AloneAnswers(cfg, Times(events, k))
  {
    SharedSlotIsLikeAlone(cfg, cap, events, states, k, U64_MAX);
  }

  /** Key independence: an unbounded limiter shared by everyone, and any other run that makes
      k's requests at the same times (for instance a limiter with no other keys). */
  lemma KeyIndependence(cfg: Config, shared: seq<Event>, states: seq<State>,
      own: seq<Event>, states': seq<State>, k: string)
    requires Run(cfg, 0, shared, states) && Ordered(shared) && Seamless(cfg)
    requires Run(cfg, 0, own, states') && Ordered(own)
    requires Times(shared, k) == Times(own, k)
    ensures Answers(shared, k) == Answers(own, k)
  {
    AnswersAreOwn(cfg, 0, shared, states, k);
    AnswersAreOwn(cfg, 0, own, states', k);
  }

  // ----- The sweep is unobservable -----

  /** The same calls at the same times, whatever was swept or answered. */
  ghost predicate SameCalls(a: seq<Event>, b: seq<Event>) {
    && |a| == |b|
    && forall i :: 0 <= i < |a| ==>
         (a[i].Clear? && b[i].Clear?) ||
         (a[i].Check? && b[i].Check? && a[i].key == b[i].key && a[i].now == b[i].now)
  }

  ghost predicate SameAnswers(a: seq<Event>, b: seq<Event>) {
    |a| == |b| && forall i :: 0 <= i < |a| && a[i].Check? && b[i].Check? ==> a[i].verdict == b[i].verdict
  }

  lemma PrefixIsRun(cfg: Config, cap: nat, events: seq<Event>, states: seq<State>, n: nat)
    requires Run(cfg, cap, events, states) && n <= |events|
    ensures Run(cfg, cap, events[..n], states[..n + 1])
  {
  }

  ghost function OldestKeys(m: map<string, Record>): set<string> {
    set k | k in m && Oldest(m, k)
  }

  /** How ties between oldest entries are broken. */
  type Choice = set<string> -> string

  ghost predicate EvictsBy(choose: Choice, cfg: Config, events: seq<Event>, states: seq<State>)
    requires |states| == |events| + 1
  {
    forall i :: 0 <= i < |events| && events[i].Check? && events[i].victim.Some? ==>
      events[i].victim.value == choose(OldestKeys(Swept(cfg, states[i].records, events[i])))
  }

  /** What a limiter that held the live entries only would keep of them for a newcomer. */
  ghost function LiveKept(choose: Choice, cap: nat, live: map<string, Record>, key: string): map<string, Record> {
    if cap > 0 && key !in live && |live| >= cap then live - {choose(OldestKeys(live))} else live
  }

  lemma SweepShrinks(cfg: Config, m: map<string, Record>, now: u64)
    ensures |Sweep(cfg, m, now)| <= |m|
    ensures (exists k :: k in m && Expired(cfg, m[k], now)) ==> |Sweep(cfg, m, now)| < |m|
  {
    var live := Sweep(cfg, m, now);
    SubsetSize(live.Keys, m.Keys);
    if k :| k in m && Expired(cfg, m[k], now) {
      SubsetSize(live.Keys, m.Keys - {k});
    }
  }

  /** If anything has expired, the oldest entry has: an eviction then takes no live entry. */
  lemma OldestHasExpired(cfg: Config, m: map<string, Record>, now: u64, victim: string)
    requires Oldest(m, victim) && exists k :: k in m && Expired(cfg, m[k], now)
    ensures Sweep(cfg, m - {victim}, now) == Sweep(cfg, m, now)
  {
    var k :| k in m && Expired(cfg, m[k], now);
    assert m[victim].windowStart <= m[k].windowStart;
    assert Expired(cfg, m[victim], now);
  }

  /** An eviction does to the live entries what it would do in a limiter that held no others. */
  lemma EvictionIsLive(choose: Choice, cfg: Config, cap: nat, m: map<string, Record>, key: string,
      victim: Option<string>, now: u64)
    requires MayEvict(cap, m, key, victim) && (cap > 0 ==> |m| <= cap)
    requires victim.Some? ==> victim.value == choose(OldestKeys(m))
    ensures Sweep(cfg, Without(m, victim), now) == LiveKept(choose, cap, Sweep(cfg, m, now), key)
  {
    SweepShrinks(cfg, m, now);
    if exists k :: k in m && Expired(cfg, m[k], now) {
      if victim.Some? {
        OldestHasExpired(cfg, m, now, victim.value);
      }
    } else {
      assert Sweep(cfg, m, now) == m;
    }
  }

  lemma SweepAgain(cfg: Config, m: map<string, Record>, now: u64, t: u64)
    requires now <= t
    ensures Sweep(cfg, Sweep(cfg, m, now), t) == Sweep(cfg, m, t)
  {
  }

  /** A check is decided by the live entries, and the live entries after it by those before. */
  lemma CheckIsLive(choose: Choice, cfg: Config, cap: nat, s: State, e: Event, s': State, t: u64)
    requires cfg.enabled && Seamless(cfg) && e.Check? && Step(cfg, cap, s, e, s') && e.now <= t
    requires cap > 0 ==> |s.records| <= cap
    requires e.victim.Some? ==> e.victim.value == choose(OldestKeys(Swept(cfg, s.records, e)))
    ensures var kept := LiveKept(choose, cap, Sweep(cfg, s.records, e.now), e.key);
            var d := Decide(cfg, Lookup(kept, e.key), e.now);
            e.verdict == d.1 && Sweep(cfg, s'.records, t) == Sweep(cfg, kept[e.key := d.0], t)
  {
    var swept := Swept(cfg, s.records, e);
    SweepShrinks(cfg, s.records, e.now);
    SweepAgain(cfg, s.records, e.now, e.now);
    assert Sweep(cfg, swept, e.now) == Sweep(cfg, s.records, e.now);
    EvictionIsLive(choose, cfg, cap, swept, e.key, e.victim, e.now);
    var kept := Without(swept, e.victim);
    DecidedByLive(cfg, kept, e.key, e.now, t);
  }

  lemma DecidedByLive(cfg: Config, kept: map<string, Record>, key: string, now: u64, t: u64)
    requires cfg.enabled && Seamless(cfg) && now <= t
    ensures var d, live := Decide(cfg, Lookup(kept, key), now), Sweep(cfg, kept, now);
            && Decide(cfg, Lookup(live, key), now) == d
            && Sweep(cfg, kept[key := d.0], t) == Sweep(cfg, live[key := d.0], t)
  {
    AlikeSlotsAreServedAlike(cfg, Lookup(kept, key), Lookup(Sweep(cfg, kept, now), key), now);
  }

  /** Two runs with the same calls hold the same live entries, however each of them sweeps. */
  lemma {:induction false} SameLiveEntries(choose: Choice, cfg: Config, cap: nat, a: seq<Event>, sa: seq<State>,
      b: seq<Event>, sb: seq<State>, n: nat, t: u64)
    requires Run(cfg, cap, a, sa) && Run(cfg, cap, b, sb) && Ordered(a) && SameCalls(a, b) && Seamless(cfg)
    requires EvictsBy(choose, cfg, a, sa) && EvictsBy(choose, cfg, b, sb)
    requires n <= |a| && forall i :: 0 <= i < n && a[i].Check? ==> a[i].now <= t
    ensures Sweep(cfg, sa[n].records, t) == Sweep(cfg, sb[n].records, t)
    ensures n > 0 && a[n - 1].Check? ==> a[n - 1].verdict == b[n - 1].verdict
  {
    if n > 0 {
      var e, e' := a[n - 1], b[n - 1];
      var now := if e.Check? then e.now else t;
      SameLiveEntries(choose, cfg, cap, a, sa, b, sb, n - 1, now);
      assert Step(cfg, cap, sa[n - 1], e, sa[n]) && Step(cfg, cap, sb[n - 1], e', sb[n]);
      if e.Check? && cfg.enabled {
        if cap > 0 {
          CapacityIsKept(cfg, cap, a, sa, n - 1);
          CapacityIsKept(cfg, cap, b, sb, n - 1);
        }
        CheckIsLive(choose, cfg, cap, sa[n - 1], e, sa[n], t);
        CheckIsLive(choose, cfg, cap, sb[n - 1], e', sb[n], t);
      } else if e.Check? {
        SweepAgain(cfg, sa[n].records, now, t);
        SweepAgain(cfg, sb[n].records, now, t);
      }
    }
  }

  /** At any capacity, two runs with the same calls that break ties between oldest entries alike
      answer alike, however each of them sweeps. */
  lemma SweepsDoNotMatter(choose: Choice, cfg: Config, cap: nat, a: seq<Event>, sa: seq<State>,
      b: seq<Event>, sb: seq<State>)
    requires Run(cfg, cap, a, sa) && Run(cfg, cap, b, sb) && Ordered(a) && SameCalls(a, b) && Seamless(cfg)
    requires EvictsBy(choose, cfg, a, sa) && EvictsBy(choose, cfg, b, sb)
    ensures SameAnswers(a, b)
  {
    forall i | 0 <= i < |a| && a[i].Check? && b[i].Check?
      ensures a[i].verdict == b[i].verdict
    {
      SameLiveEntries(choose, cfg, cap, a, sa, b, sb, i + 1, U64_MAX);
    }
  }

  /** A run that sweeps on schedule and one that never sweeps, with the same calls. */
  ghost predicate SweptAndUnswept(choose: Choice, cfg: Config, cap: nat, a: seq<Event>, sa: seq<State>,
      b: seq<Event>, sb: seq<State>)
  {
    && Run(cfg, cap, a, sa) && Periodic(a, sa) && Ordered(a) && EvictsBy(choose, cfg, a, sa)
    && Run(cfg, cap, b, sb) && NeverSweeps(b) && EvictsBy(choose, cfg, b, sb)
    && SameCalls(a, b)
  }

  ghost predicate SweepUnobservable(cfg: Config, cap: nat) {
    forall choose: Choice, a: seq<Event>, sa: seq<State>, b: seq<Event>, sb: seq<State> ::
      SweptAndUnswept(choose, cfg, cap, a, sa, b, sb) ==> SameAnswers(a, b)
  }

  /** With max_requests = 0: PURGE_INTERVAL denied requests at time 0, then one a window later. */
  ghost function ZeroRun(cfg: Config, sweeping: bool): (seq<Event>, seq<State>) {
    var n := PURGE_INTERVAL as nat;
    var w, denied := cfg.windowSecs, RateLimited(cfg.windowSecs);
    var last := if sweeping then (Record(0, w), denied) else (Record(1, w), Allowed);
    (seq(n, (i: nat) => Check("k", 0, sweeping && i == 0, None, denied)) +
       [Check("k", w, sweeping, None, last.1)],
     [EMPTY] + seq(n, (i: nat) requires i < n => State(map["k" := Record(0, 0)], i + 1)) +
       [State(map["k" := last.0], n + 1)])
  }

  /** Each of its requests is a step; the last one finds an expired record or none. */
  lemma ZeroSteps(cfg: Config, sweeping: bool, i: nat)
    requires !Seamless(cfg) && i <= PURGE_INTERVAL
    ensures var (events, states) := ZeroRun(cfg, sweeping);
            Step(cfg, 0, states[i], events[i], states[i + 1])
  {
    var (events, states) := ZeroRun(cfg, sweeping);
    var swept := Swept(cfg, states[i].records, events[i]);
    if i == 0 {
      assert swept == map[];
    } else if i < PURGE_INTERVAL {
      assert swept == map["k" := Record(0, 0)];
    } else {
      assert swept == if sweeping then map[] else map["k" := Record(0, 0)];
    }
  }

  /** A lone key is never evicted. */
  lemma LoneKeyFits(cfg: Config, cap: nat, s: State, e: Event, s': State)
    requires e.Check? && Step(cfg, 0, s, e, s') && s.records.Keys <= {e.key}
    ensures Step(cfg, cap, s, e, s')
  {
    var swept := Swept(cfg, s.records, e);
    assert swept.Keys <= {e.key};
    assert e.key !in swept ==> swept.Keys == {};
  }

  lemma ZeroRunIsRun(cfg: Config, cap: nat, sweeping: bool)
    requires !Seamless(cfg)
    ensures var (events, states) := ZeroRun(cfg, sweeping);
            Run(cfg, cap, events, states) && Ordered(events) &&
            (if sweeping then Periodic(events, states) else NeverSweeps(events))
  {
    var (events, states) := ZeroRun(cfg, sweeping);
    forall i | 0 <= i < |events|
      ensures Step(cfg, cap, states[i], events[i], states[i + 1])
    {
      ZeroSteps(cfg, sweeping, i);
      LoneKeyFits(cfg, cap, states[i], events[i], states[i + 1]);
    }
  }

  /** The periodic sweep cannot be noticed, whatever the capacity, exactly when a missing record
      and an expired one are treated alike: a limit of at least 1, or a window that is always
      or never over, or a limiter that is off. */
  lemma SweepUnobservableExactly(cfg: Config, cap: nat)
    ensures SweepUnobservable(cfg, cap) <==> Seamless(cfg)
  {
    if Seamless(cfg) {
      forall choose: Choice, a: seq<Event>, sa: seq<State>, b: seq<Event>, sb: seq<State> |
        SweptAndUnswept(choose, cfg, cap, a, sa, b, sb)
        ensures SameAnswers(a, b)
      {
        SweepsDoNotMatter(choose, cfg, cap, a, sa, b, sb);
      }
    } else {
      var (a, sa) := ZeroRun(cfg, true);
      var (b, sb) := ZeroRun(cfg, false);
      ZeroRunIsRun(cfg, cap, true);
      ZeroRunIsRun(cfg, cap, false);
      assert SweptAndUnswept(keys => "", cfg, cap, a, sa, b, sb);
      assert a[PURGE_INTERVAL].verdict != b[PURGE_INTERVAL].verdict;
    }
  }

  // ----- How many requests get through -----

  ghost predicate Sorted(times: seq<u64>) {
    forall i, j :: 0 <= i < j < |times| ==> times[i] <= times[j]
  }

  /** Allowed requests of a lone key in the half-open interval [from, from + window_secs). */
  function AllowedIn(cfg: Config, times: seq<u64>, from: int): nat {
    if times == [] then 0
    else
      var before, now := times[..|times| - 1], times[|times| - 1];
      AllowedIn(cfg, before, from) +
      if from <= now < from + cfg.windowSecs && Serve(cfg, AloneSlot(cfg, before), now).1.Allowed?
      then 1 else 0
  }

  /** An interval as long as the window can meet two windows: not when they are one second
      long, nor when the first one never ends. */
  predicate Straddles(cfg: Config) {
    1 < cfg.windowSecs < U64_MAX
  }

  /** The most a key gets through in one window-length: the tail of a window (all but the
      request that opened it) and the whole of the next. */
  function Burst(cfg: Config): int {
    cfg.maxRequests + if Straddles(cfg) then cfg.maxRequests - 1 else 0
  }

  ghost predicate Limiting(cfg: Config) {
    cfg.enabled && cfg.maxRequests >= 1 && cfg.windowSecs >= 1
  }

  lemma {:induction false} BurstInvariant(cfg: Config, times: seq<u64>, from: int)
    requires Limiting(cfg) && Sorted(times)
    requires forall i :: 0 <= i < |times| ==> times[i] < U64_MAX
    ensures AllowedIn(cfg, times, from) <= Burst(cfg)
    ensures times == [] || times[|times| - 1] < from ==> AllowedIn(cfg, times, from) == 0
    ensures times != [] ==>
      var slot := AloneSlot(cfg, times);
      && slot.Some? && 1 <= slot.value.count <= cfg.maxRequests
      && slot.value.windowStart <= times[|times| - 1]
      && times[|times| - 1] < SaturatingAdd(slot.value.windowStart, cfg.windowSecs)
      && (slot.value.windowStart < from ==>
            AllowedIn(cfg, times, from) <= if cfg.windowSecs == 1 then 0 else slot.value.count - 1)
      && (from <= slot.value.windowStart < from + cfg.windowSecs ==>
            AllowedIn(cfg, times, from) <=
              slot.value.count + if Straddles(cfg) then cfg.maxRequests - 1 else 0)
    decreases |times|
  {
    if times != [] {
      var n := |times| - 1;
      var before, now := times[..n], times[n];
      BurstInvariant(cfg, before, from);
      if n > 0 {
        assert before[n - 1] <= now;
      }
    }
  }

  /** The clock of a run as k sees it. */
  lemma {:induction false} TimesAreSorted(events: seq<Event>, k: string, t: u64)
    requires Ordered(events)
    requires forall i :: 0 <= i < |events| && events[i].Check? ==> events[i].now <= t
    ensures Sorted(Times(events, k))
    ensures forall i :: 0 <= i < |Times(events, k)| ==> Times(events, k)[i] <= t
    decreases |events|
  {
    if events != [] {
      var e := events[|events| - 1];
      TimesAreSorted(events[..|events| - 1], k, if e.Check? then e.now else t);
    }
  }

  /** Allowed requests of k in [from, to), in a run, since k was last forgotten. */
  function AllowedSince(events: seq<Event>, k: string, from: int, to: int): nat {
    if events == [] then 0
    else
      var before, e := AllowedSince(events[..|events| - 1], k, from, to), events[|events| - 1];
      if Forgets(e, k) then 0
      else before + if e.key == k && from <= e.now < to && e.verdict.Allowed? then 1 else 0
  }

  lemma AllowedInAppends(cfg: Config, past: seq<u64>, now: u64, from: int)
    ensures AllowedIn(cfg, past + [now], from) ==
            AllowedIn(cfg, past, from) +
            if from <= now < from + cfg.windowSecs && Serve(cfg, AloneSlot(cfg, past), now).1.Allowed? then 1 else 0
  {
    assert (past + [now])[..|past|] == past;
  }

  /** The last request of a run is answered as the key alone would be. */
  lemma LastAnswerIsOwn(cfg: Config, cap: nat, events: seq<Event>, states: seq<State>, before: seq<Event>, e: Event)
    requires Run(cfg, cap, events, states) && Ordered(events) && Seamless(cfg)
    requires events == before + [e] && e.Check? && !Forgets(e, e.key)
    ensures e.verdict == Serve(cfg, AloneSlot(cfg, Times(before, e.key)), e.now).1
  {
    AnswersAreOwn(cfg, cap, events, states, e.key);
    assert events[..|events| - 1] == before;
    assert Answers(events, e.key) == Answers(before, e.key) + [e.verdict];
    AloneAppends(cfg, Times(before, e.key), e.now);
    assert Answers(events, e.key)[|Answers(events, e.key)| - 1] == e.verdict;
  }

  lemma {:induction false} AllowedSinceIsAllowedAlone(cfg: Config, cap: nat, events: seq<Event>,
      states: seq<State>, k: string, from: int)
    requires Run(cfg, cap, events, states) && Ordered(events) && Seamless(cfg)
    ensures AllowedSince(events, k, from, from + cfg.windowSecs) == AllowedIn(cfg, Times(events, k), from)
    decreases |events|
  {
    if events != [] {
      var n := |events| - 1;
      var e, before := events[n], events[..n];
      PrefixIsRun(cfg, cap, events, states, n);
      AllowedSinceIsAllowedAlone(cfg, cap, before, states[..n + 1], k, from);
      if !Forgets(e, k) && e.key == k {
        LastAnswerIsOwn(cfg, cap, events, states, before, e);
        AllowedInAppends(cfg, Times(before, k), e.now, from);
      }
    }
  }

  /** The burst bound: in every run, in any half-open interval of the window's length, between
      two moments at which the limiter forgets k, at most `Burst` requests of k are let through,
      as long as the clock does not read u64::MAX. */
  lemma BurstBound(cfg: Config, cap: nat, events: seq<Event>, states: seq<State>, k: string, from: int)
    requires Run(cfg, cap, events, states) && Ordered(events) && Limiting(cfg)
    requires forall i :: 0 <= i < |events| && events[i].Check? ==> events[i].now < U64_MAX
    ensures AllowedSince(events, k, from, from + cfg.windowSecs) <= Burst(cfg)
  {
    AllowedSinceIsAllowedAlone(cfg, cap, events, states, k, from);
    TimesAreSorted(events, k, U64_MAX - 1);
    BurstInvariant(cfg, Times(events, k), from);
  }

  /** At u64::MAX every window counts as expired, so nothing is refused. */
  lemma SaturatedClockAllowsAll(cfg: Config, slot: Option<Record>)
    ensures Serve(cfg, slot, U64_MAX).1 == Allowed
  {
  }

  function Repeat(t: u64, n: nat): (r: seq<u64>)
    ensures |r| == n && forall i :: 0 <= i < n ==> r[i] == t
  {
    seq(n, i => t)
  }

  /** Requests at one moment inside a window that still has room are all let through. */
  lemma {:induction false} RepeatedRequests(cfg: Config, past: seq<u64>, t: u64, n: nat, from: int)
    requires Limiting(cfg) && from <= t < from + cfg.windowSecs
    requires var slot := AloneSlot(cfg, past);
             slot.Some? && !Expired(cfg, slot.value, t) && slot.value.count + n <= cfg.maxRequests
    ensures var times, slot := past + Repeat(t, n), AloneSlot(cfg, past).value;
            && AloneSlot(cfg, times) == Some(slot.(count := slot.count + n))
            && AllowedIn(cfg, times, from) == AllowedIn(cfg, past, from) + n
  {
    var times := past + Repeat(t, n);
    if n == 0 {
      assert times == past;
    } else {
      RepeatedRequests(cfg, past, t, n - 1, from);
      assert times[..|times| - 1] == past + Repeat(t, n - 1);
    }
  }

  /** A request that finds no live window opens one. */
  lemma OpeningRequest(cfg: Config, past: seq<u64>, t: u64, from: int)
    requires Limiting(cfg) && Dead(cfg, AloneSlot(cfg, past), t)
    ensures AloneSlot(cfg, past + [t]) == Some(Record(1, t))
    ensures AllowedIn(cfg, past + [t], from) ==
            AllowedIn(cfg, past, from) + if from <= t < from + cfg.windowSecs then 1 else 0
  {
    var times := past + [t];
    assert times[..|past|] == past;
    AlikeSlotsAreServedAlike(cfg, AloneSlot(cfg, past), None, t);
  }

  /** One request at 0, the rest of that window's allowance in its last second, and the whole
      allowance of the next window in its first. */
  function StraddlingTimes(cfg: Config): seq<u64>
    requires Limiting(cfg) && Straddles(cfg)
  {
    var w, max := cfg.windowSecs, cfg.maxRequests;
    [0] + Repeat(w - 1, max - 1) + [w] + Repeat(w, max - 1)
  }

  lemma StraddlingTail(cfg: Config)
    requires Limiting(cfg) && Straddles(cfg)
    ensures var w, max := cfg.windowSecs, cfg.maxRequests;
            var filled := [0] + Repeat(w - 1, max - 1);
            AloneSlot(cfg, filled) == Some(Record(max, 0)) && AllowedIn(cfg, filled, w - 1) == max - 1
  {
    var w, max := cfg.windowSecs, cfg.maxRequests;
    OpeningRequest(cfg, [], 0, w - 1);
    assert [] + [0 as u64] == [0];
    RepeatedRequests(cfg, [0], w - 1, max - 1, w - 1);
  }

  lemma NextWindow(cfg: Config, filled: seq<u64>)
    requires Limiting(cfg) && Straddles(cfg) && AloneSlot(cfg, filled) == Some(Record(cfg.maxRequests, 0))
    ensures var w, max := cfg.windowSecs, cfg.maxRequests;
            AllowedIn(cfg, filled + [w] + Repeat(w, max - 1), w - 1) == AllowedIn(cfg, filled, w - 1) + max
  {
    OpeningRequest(cfg, filled, cfg.windowSecs, cfg.windowSecs - 1);
    var reopened := filled + [cfg.windowSecs];
    RestOfWindow(cfg, reopened, reopened + Repeat(cfg.windowSecs, cfg.maxRequests - 1));
  }

  lemma RestOfWindow(cfg: Config, reopened: seq<u64>, times: seq<u64>)
    requires Limiting(cfg) && Straddles(cfg) && AloneSlot(cfg, reopened) == Some(Record(1, cfg.windowSecs))
    requires times == reopened + Repeat(cfg.windowSecs, cfg.maxRequests - 1)
    ensures AllowedIn(cfg, times, cfg.windowSecs - 1) ==
            AllowedIn(cfg, reopened, cfg.windowSecs - 1) + cfg.maxRequests - 1
  {
    RepeatedRequests(cfg, reopened, cfg.windowSecs, cfg.maxRequests - 1, cfg.windowSecs - 1);
  }

  lemma StraddlingBurst(cfg: Config)
    requires Limiting(cfg) && Straddles(cfg)
    ensures AllowedIn(cfg, StraddlingTimes(cfg), cfg.windowSecs - 1) == Burst(cfg)
  {
    StraddlingTail(cfg);
    NextWindow(cfg, [0] + Repeat(cfg.windowSecs - 1, cfg.maxRequests - 1));
  }

  lemma StraddlingTimesAreOrdered(cfg: Config)
    requires Limiting(cfg) && Straddles(cfg)
    ensures Sorted(StraddlingTimes(cfg))
    ensures forall i :: 0 <= i < |StraddlingTimes(cfg)| ==> StraddlingTimes(cfg)[i] < U64_MAX
  {
  }

  lemma SingleWindowBurst(cfg: Config)
    requires Limiting(cfg)
    ensures AllowedIn(cfg, [0] + Repeat(0, cfg.maxRequests - 1), 0) == cfg.maxRequests
  {
    OpeningRequest(cfg, [], 0, 0);
    assert [] + [0 as u64] == [0];
    RepeatedRequests(cfg, [0], 0, cfg.maxRequests - 1, 0);
  }

  /** For every limiting configuration some times of a lone key reach the bound. */
  lemma TightTimes(cfg: Config) returns (times: seq<u64>, from: int)
    requires Limiting(cfg)
    ensures Sorted(times) && forall i :: 0 <= i < |times| ==> times[i] < U64_MAX
    ensures AllowedIn(cfg, times, from) == Burst(cfg)
  {
    if Straddles(cfg) {
      times, from := StraddlingTimes(cfg), cfg.windowSecs - 1;
      StraddlingBurst(cfg);
      StraddlingTimesAreOrdered(cfg);
    } else {
      times, from := [0] + Repeat(0, cfg.maxRequests - 1), 0;
      SingleWindowBurst(cfg);
    }
  }

  /** What the limiter does with a request of its only key, sweeping on schedule. */
  function Request(cfg: Config, s: State, k: string, now: u64): (r: (Event, State))
    ensures r.0.Check? && r.0.key == k && r.0.now == now && Step(cfg, 0, s, r.0, r.1)
    ensures r.0.sweep <==> s.checkCount % PURGE_INTERVAL == 0
    ensures r.1.records.Keys <= s.records.Keys + {k}
  {
    var sweep := s.checkCount % PURGE_INTERVAL == 0;
    if !cfg.enabled then (Check(k, now, sweep, None, Allowed), s)
    else
      var kept := if sweep then Sweep(cfg, s.records, now) else s.records;
      var d := Decide(cfg, Lookup(kept, k), now);
      (Check(k, now, sweep, None, d.1), State(kept[k := d.0], (s.checkCount + 1) % (U64_MAX + 1)))
  }

  /** A run, sweeping on schedule, of the requests of one key at the given times. */
  ghost predicate Serves(cfg: Config, cap: nat, k: string, times: seq<u64>, events: seq<Event>, states: seq<State>) {
    && Run(cfg, cap, events, states) && Periodic(events, states)
    && AsksAt(events, times) && states[|events|].records.Keys <= {k} && Times(events, k) == times
  }

  ghost predicate AsksAt(events: seq<Event>, times: seq<u64>) {
    |events| == |times| && forall i :: 0 <= i < |events| ==> events[i].Check? && events[i].now == times[i]
  }

  lemma LoneRequest(cfg: Config, cap: nat, s: State, k: string, now: u64) returns (e: Event, s': State)
    requires s.records.Keys <= {k}
    ensures Step(cfg, cap, s, e, s') && s'.records.Keys <= {k}
    ensures e.Check? && e.key == k && e.now == now && !Forgets(e, k)
    ensures e.sweep <==> s.checkCount % PURGE_INTERVAL == 0
  {
    var step := Request(cfg, s, k, now);
    e, s' := step.0, step.1;
    LoneKeyFits(cfg, cap, s, e, s');
  }

  lemma ServesOneMore(cfg: Config, cap: nat, k: string, times: seq<u64>, events: seq<Event>, states: seq<State>, now: u64)
    returns (e: Event, s': State)
    requires Serves(cfg, cap, k, times, events, states)
    ensures Serves(cfg, cap, k, times + [now], events + [e], states + [s'])
  {
    e, s' := LoneRequest(cfg, cap, states[|events|], k, now);
    RunGoesOn(cfg, cap, events, states, e, s');
    EventAppends(events, e, k);
  }

  /** A limiter receives and answers requests at any non-decreasing times. */
  lemma {:induction false} AnyTimesHaveARun(cfg: Config, cap: nat, k: string, times: seq<u64>)
    returns (events: seq<Event>, states: seq<State>)
    ensures Serves(cfg, cap, k, times, events, states)
    ensures Sorted(times) ==> Ordered(events)
    decreases |times|
  {
    if times == [] {
      return [], [EMPTY];
    }
    var n := |times| - 1;
    var before, past := AnyTimesHaveARun(cfg, cap, k, times[..n]);
    var e, s' := ServesOneMore(cfg, cap, k, times[..n], before, past, times[n]);
    assert times == times[..n] + [times[n]];
    events, states := before + [e], past + [s'];
    AsksInOrder(events, times);
  }

  lemma AsksInOrder(events: seq<Event>, times: seq<u64>)
    requires AsksAt(events, times)
    ensures Sorted(times) ==> Ordered(events)
  {
  }

  lemma RunGoesOn(cfg: Config, cap: nat, events: seq<Event>, states: seq<State>, e: Event, s': State)
    requires Run(cfg, cap, events, states) && Periodic(events, states) && e.Check?
    requires Step(cfg, cap, states[|events|], e, s')
    requires e.sweep <==> states[|events|].checkCount % PURGE_INTERVAL == 0
    ensures Run(cfg, cap, events + [e], states + [s']) && Periodic(events + [e], states + [s'])
  {
    var all, after := events + [e], states + [s'];
    forall i | 0 <= i < |all|
      ensures Step(cfg, cap, after[i], all[i], after[i + 1])
    {
      assert i < |events| ==> Step(cfg, cap, states[i], events[i], states[i + 1]);
    }
  }

  /** The burst bound cannot be improved: for every limiting configuration, capacity and key there
      is a run of the limiter, sweeping on schedule, that reaches it. */
  lemma BurstIsTight(cfg: Config, cap: nat, k: string) returns (events: seq<Event>, states: seq<State>, from: int)
    requires Limiting(cfg)
    ensures Run(cfg, cap, events, states) && Ordered(events) && Periodic(events, states)
    ensures forall i :: 0 <= i < |events| ==> events[i].Check? && events[i].now < U64_MAX
    ensures AllowedSince(events, k, from, from + cfg.windowSecs) == Burst(cfg)
  {
    var times;
    times, from := TightTimes(cfg);
    events, states := AnyTimesHaveARun(cfg, cap, k, times);
    AllowedSinceIsAllowedAlone(cfg, cap, events, states, k, from);
  }

  // ----- Windows -----

  /** Once its window is over, a key's past does not matter. */
  lemma {:induction false} ExpiredPastIsForgotten(cfg: Config, past: seq<u64>, times: seq<u64>)
    requires Seamless(cfg) && cfg.enabled && times != [] && Dead(cfg, AloneSlot(cfg, past), times[0])
    ensures AloneSlot(cfg, past + times) == AloneSlot(cfg, times)
    ensures AloneAnswers(cfg, past + times) == AloneAnswers(cfg, past) + AloneAnswers(cfg, times)
    decreases |times|
  {
    var n := |times| - 1;
    var all := past + times;
    assert all[..|all| - 1] == past + times[..n];
    if n == 0 {
      assert past + times[..n] == past;
      AlikeSlotsAreServedAlike(cfg, AloneSlot(cfg, past), None, times[0]);
    } else {
      ExpiredPastIsForgotten(cfg, past, times[..n]);
    }
  }

  /** A window lets exactly its first max_requests requests through. */
  lemma {:induction false} WindowAnswers(cfg: Config, times: seq<u64>)
    requires Limiting(cfg) && Sorted(times) && times != []
    requires times[|times| - 1] < SaturatingAdd(times[0], cfg.windowSecs)
    ensures AloneSlot(cfg, times) ==
              Some(Record(if |times| < cfg.maxRequests then |times| else cfg.maxRequests, times[0]))
    ensures forall i :: 0 <= i < |times| ==>
              AloneAnswers(cfg, times)[i] == if i < cfg.maxRequests then Allowed else RateLimited(cfg.windowSecs)
    decreases |times|
  {
    var n := |times| - 1;
    if n > 0 {
      WindowAnswers(cfg, times[..n]);
    }
  }

  // ----- Capacity and eviction -----

  lemma RoomWasMade(cap: nat, swept: map<string, Record>, key: string, victim: Option<string>, r: Record)
    requires cap > 0 && |swept| <= cap && MayEvict(cap, swept, key, victim)
    ensures |Without(swept, victim)[key := r]| <= cap
  {
    var kept := Without(swept, victim);
    assert kept[key := r].Keys == kept.Keys + {key};
    if victim.Some? {
      assert kept.Keys == swept.Keys - {victim.value};
    }
  }

  lemma CheckKeepsCapacity(cfg: Config, cap: nat, s: State, e: Event, s': State)
    requires cap > 0 && Step(cfg, cap, s, e, s') && |s.records| <= cap
    ensures |s'.records| <= cap
  {
    if cfg.enabled && e.Check? {
      var swept := Swept(cfg, s.records, e);
      SubsetSize(swept.Keys, s.records.Keys);
      RoomWasMade(cap, swept, e.key, e.victim, Decide(cfg, Lookup(Without(swept, e.victim), e.key), e.now).0);
    }
  }

  lemma {:induction false} SubsetSize<T>(a: set<T>, b: set<T>)
    requires a <= b
    ensures |a| <= |b|
    decreases a
  {
    if a != {} {
      var x :| x in a;
      SubsetSize(a - {x}, b - {x});
    }
  }

  lemma {:induction false} CapacityIsKept(cfg: Config, cap: nat, events: seq<Event>, states: seq<State>, n: nat)
    requires cap > 0 && Run(cfg, cap, events, states) && n <= |events|
    ensures |states[n].records| <= cap
  {
    if n > 0 {
      CapacityIsKept(cfg, cap, events, states, n - 1);
      CheckKeepsCapacity(cfg, cap, states[n - 1], events[n - 1], states[n]);
    }
  }

  /** The keys other than k that asked at time `since` or later. */
  ghost function OthersSince(events: seq<Event>, k: string, since: u64): set<string> {
    set i | 0 <= i < |events| && events[i].Check? && events[i].key != k && events[i].now >= since
      :: events[i].key
  }

  /** Every record was opened by a request of its key. */
  lemma {:induction false} RecordsComeFromRequests(cfg: Config, cap: nat, events: seq<Event>,
      states: seq<State>, n: nat, k: string)
    requires Run(cfg, cap, events, states) && n <= |events| && k in states[n].records
    ensures exists i :: 0 <= i < n && events[i].Check? && events[i].key == k &&
                        events[i].now == states[n].records[k].windowStart
  {
    var e := events[n - 1];
    assert Step(cfg, cap, states[n - 1], e, states[n]);
    if k in states[n - 1].records && states[n].records[k].windowStart == states[n - 1].records[k].windowStart {
      RecordsComeFromRequests(cfg, cap, events, states, n - 1, k);
    } else {
      assert e.key == k && e.now == states[n].records[k].windowStart;
    }
  }

  /** Losing a key to eviction takes `cap` other distinct keys, the newcomer among them, that
      all asked no earlier than the start of the lost window. */
  lemma EvictionNeedsACrowd(cfg: Config, cap: nat, events: seq<Event>, states: seq<State>, n: nat, k: string)
    requires Run(cfg, cap, events, states) && Ordered(events)
    requires n < |events| && events[n].Check? && events[n].victim == Some(k)
    ensures k in states[n].records
    ensures |OthersSince(events[..n + 1], k, states[n].records[k].windowStart)| >= cap > 0
  {
    var e := events[n];
    assert Step(cfg, cap, states[n], e, states[n + 1]);
    var swept := Swept(cfg, states[n].records, e);
    var since := swept[k].windowStart;
    var others := OthersSince(events[..n + 1], k, since);
    RecordsComeFromRequests(cfg, cap, events, states, n, k);
    assert events[..n + 1][n] == e && e.key in others;
    forall other | other in swept && other != k
      ensures other in others
    {
      RecordsComeFromRequests(cfg, cap, events, states, n, other);
      var i :| 0 <= i < n && events[i].Check? && events[i].key == other && events[i].now == swept[other].windowStart;
      assert events[..n + 1][i] == events[i];
    }
    SubsetSize(swept.Keys - {k} + {e.key}, others);
  }
}
