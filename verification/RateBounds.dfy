/** What the rate limiter promises over whole runs: the window bound, and the size
    and limits of its maps. */
module RateBounds {
  import opened Lex
  import opened RateLimit
  import opened RateRuns

  // ---- The window bound ----

  /** Calls of one client within [from, to] that were let through. */
  function Allowed(cfg: Config, start: real, evs: seq<Event>, k: Key, from: real, to: real): nat {
    if evs == [] then 0
    else
      var before, ev := evs[..|evs| - 1], evs[|evs| - 1];
      Allowed(cfg, start, before, k, from, to) +
      if IsCall(cfg, ev, k) && from <= ev.at <= to && Handle(cfg, Run(cfg, start, before), ev).1 then 1 else 0
  }

  function Top(rule: Rule): real {
    if rule.burst > 0 then rule.burst as real else 0.0
  }

  /** What a client could spend at once. */
  function Level(slot: Option<Bucket>, rule: Rule, now: real): real {
    if slot.None? then Top(rule)
    else if Available(slot.value.limiter, now) > 0.0 then Available(slot.value.limiter, now)
    else 0.0
  }

  lemma LevelGrows(slot: Option<Bucket>, rule: Rule, now: real, later: real)
    requires SlotOk(slot, rule, now) && now <= later
    ensures 0.0 <= Level(slot, rule, later) <= Top(rule)
    ensures Level(slot, rule, later) <= Level(slot, rule, now) + Refill(rule.perSecond, later - now)
  {
    Nonnegative(rule.perSecond, later - now);
    if slot.Some? {
      AvailableGrows(slot.value.limiter, now, later);
    }
  }

  lemma LevelAtCall(slot: Option<Bucket>, rule: Rule, now: real)
    requires SlotOk(slot, rule, now)
    ensures var (l, ok) := Take(Serving(slot, rule, now), now);
            Level(Some(Bucket(l, now)), rule, now) + (if ok then 1.0 else 0.0) <= Level(slot, rule, now)
  {
  }

  lemma LevelAtTick(slot: Option<Bucket>, rule: Rule, idle: real, stamp: real, now: real)
    requires SlotOk(slot, rule, now) && stamp <= now && idle >= 0.0 && Covers(rule, idle)
    ensures Level(if slot.Some? && Idle(slot.value, idle, stamp) then None else slot, rule, now) <= Level(slot, rule, now)
  {
    if slot.Some? && Idle(slot.value, idle, stamp) {
      IdleIsFull(slot.value, idle, stamp, now);
    }
  }

  /** One event, at its own instant. */
  lemma LevelAfter(cfg: Config, s: Server, ev: Event, rule: Rule, k: Key)
    requires Legal(s, ev) && Serves(cfg, rule, k.id) && SlotOk(Slot(s.m, k), rule, s.clock)
    requires cfg.idle >= 0.0 && Covers(rule, cfg.idle)
    ensures Level(Slot(Step(cfg, s, ev).m, k), rule, ev.at) +
            (if IsCall(cfg, ev, k) && Handle(cfg, s, ev).1 then 1.0 else 0.0) <= Level(Slot(s.m, k), rule, ev.at)
  {
    if ev.Tick? {
      TickSlot(s.m, cfg.idle, ev.stamp, k);
      LevelAtTick(Slot(s.m, k), rule, cfg.idle, ev.stamp, ev.at);
    } else if IsCall(cfg, ev, k) {
      RuleOfCall(cfg, rule, ev, k);
      CallSlot(cfg, s, ev, k);
      LevelAtCall(Slot(s.m, k), rule, ev.at);
    } else {
      OtherCall(cfg, s, ev, k);
    }
  }

  function Later(a: real, b: real): real {
    if a < b then b else a
  }

  /** What was let through and what could be spent never exceed a burst plus the
      refill since the window opened. */
  predicate Within(count: nat, slot: Option<Bucket>, rule: Rule, clock: real, from: real, to: real) {
    (clock < from ==> count == 0) &&
    (clock <= to ==>
       count as real + Level(slot, rule, Later(clock, from)) <= Top(rule) + Refill(rule.perSecond, Later(clock, from) - from)) &&
    count as real <= Top(rule) + Refill(rule.perSecond, to - from)
  }

  lemma WithinGrows(count: nat, slot: Option<Bucket>, rule: Rule, clock: real, now: real, from: real, to: real)
    requires SlotOk(slot, rule, clock) && clock <= now && from <= now <= to && Within(count, slot, rule, clock, from, to)
    ensures count as real + Level(slot, rule, now) <= Top(rule) + Refill(rule.perSecond, now - from)
  {
    var was := Later(clock, from);
    LevelGrows(slot, rule, was, now);
    RefillSum(rule.perSecond, was - from, now - was);
  }

  lemma WithinAfter(count: nat, slot: Option<Bucket>, after: Option<Bucket>, ok: bool, rule: Rule,
                    clock: real, now: real, from: real, to: real)
    requires SlotOk(slot, rule, clock) && SlotOk(after, rule, now) && clock <= now && from <= to
    requires Within(count, slot, rule, clock, from, to)
    requires Level(after, rule, now) + (if ok then 1.0 else 0.0) <= Level(slot, rule, now)
    ensures Within(count + if ok && from <= now <= to then 1 else 0, after, rule, now, from, to)
  {
    LevelGrows(after, rule, now, Later(now, from));
    if from <= now <= to {
      WithinGrows(count, slot, rule, clock, now, from, to);
      RefillGrows(rule.perSecond, now - from, to - from);
    }
  }

  lemma {:induction false} WithinAlways(cfg: Config, start: real, evs: seq<Event>, rule: Rule, k: Key, from: real, to: real)
    requires LegalRun(cfg, start, evs) && Serves(cfg, rule, k.id) && from <= to
    requires cfg.idle >= 0.0 && Covers(rule, cfg.idle)
    ensures var s := Run(cfg, start, evs);
            Within(Allowed(cfg, start, evs, k, from, to), Slot(s.m, k), rule, s.clock, from, to)
  {
    if evs == [] {
      Nonnegative(rule.perSecond, Later(start, from) - from);
      Nonnegative(rule.perSecond, to - from);
    } else {
      var before, ev := evs[..|evs| - 1], evs[|evs| - 1];
      var s := Run(cfg, start, before);
      WithinAlways(cfg, start, before, rule, k, from, to);
      SlotAlways(cfg, start, before, rule, k);
      SlotAfter(cfg, s, ev, rule, k);
      LevelAfter(cfg, s, ev, rule, k);
      var ok := IsCall(cfg, ev, k) && Handle(cfg, s, ev).1;
      WithinAfter(Allowed(cfg, start, before, k, from, to), Slot(s.m, k), Slot(Step(cfg, s, ev).m, k), ok, rule,
                  s.clock, ev.at, from, to);
    }
  }

  /** In every run, with evictions and with refusals by the cap, a client is let
      through at most burst + rate * (to - from) times between two instants. */
  lemma WindowBound(cfg: Config, start: real, evs: seq<Event>, rule: Rule, k: Key, from: real, to: real)
    requires LegalRun(cfg, start, evs) && Serves(cfg, rule, k.id) && from <= to
    requires cfg.idle >= 0.0 && Covers(rule, cfg.idle)
    ensures Allowed(cfg, start, evs, k, from, to) as real <= Top(rule) + Earned(rule.perSecond, to - from)
  {
    RefillIsEarned(rule.perSecond, to - from);
    WithinAlways(cfg, start, evs, rule, k, from, to);
  }

  // ---- Bounded maps with the right limits ----

  ghost predicate BucketsOk(cfg: Config, id: string, ips: Buckets) {
    |ips| <= cfg.maxBuckets && forall ip :: ip in ips ==> Serves(cfg, ips[ip].limiter.rule, id)
  }

  /** No rule holds more buckets than allowed, and each keeps its rule's limits. */
  ghost predicate MapsOk(cfg: Config, m: KeyMap) {
    forall id :: id in m ==> BucketsOk(cfg, id, m[id])
  }

  lemma KeptIsFewer(ips: Buckets, idle: real, stamp: real)
    ensures |KeptIps(ips, idle, stamp)| <= |ips|
  {
    var a, b := KeptIps(ips, idle, stamp).Keys, ips.Keys;
    assert b == a + (b - a);
    assert |b| == |a| + |b - a|;
  }

  lemma TickKeepsMaps(cfg: Config, m: KeyMap, stamp: real)
    requires MapsOk(cfg, m)
    ensures MapsOk(cfg, Evicted(m, cfg.idle, stamp))
  {
    var after := Evicted(m, cfg.idle, stamp);
    forall id | id in after
      ensures BucketsOk(cfg, id, after[id])
    {
      assert BucketsOk(cfg, id, m[id]);
      KeptIsFewer(m[id], cfg.idle, stamp);
    }
  }

  lemma StoredSize(ips: Buckets, ip: string, b: Bucket)
    ensures |ips[ip := b]| == |ips| + if ip in ips then 0 else 1
  {
    if ip in ips {
      assert ips[ip := b].Keys == ips.Keys;
    } else {
      assert ips[ip := b].Keys == ips.Keys + {ip};
    }
  }

  lemma StoreKeeps(cfg: Config, id: string, ips: Buckets, ip: string, b: Bucket)
    requires BucketsOk(cfg, id, ips) && Serves(cfg, b.limiter.rule, id) && (ip in ips || |ips| < cfg.maxBuckets)
    ensures BucketsOk(cfg, id, ips[ip := b])
  {
    StoredSize(ips, ip, b);
  }

  lemma AllowKeepsMaps(cfg: Config, m: KeyMap, id: string, ip: string, rule: Rule, now: real)
    requires MapsOk(cfg, m) && Serves(cfg, rule, id) && cfg.maxBuckets >= 0
    ensures MapsOk(cfg, AllowStep(m, cfg.maxBuckets, id, ip, rule, now).0)
  {
    var ips := BucketsOf(m, id);
    assert BucketsOk(cfg, id, ips);
    if ip in ips || |ips| < cfg.maxBuckets {
      var l := if ip in ips then ips[ip].limiter else NewLimiter(rule, now);
      assert Serves(cfg, l.rule, id);
      StoreKeeps(cfg, id, ips, ip, Bucket(Take(l, now).0, now));
    }
  }

  lemma CallKeepsMaps(cfg: Config, s: Server, ev: Event)
    requires MapsOk(cfg, s.m) && ev.Request? && ':' !in ev.verb && cfg.maxBuckets >= 0
    ensures MapsOk(cfg, Handle(cfg, s, ev).0)
  {
    var (rule, id) := RuleFor(cfg, ev.verb, ev.path);
    assert Serves(cfg, rule, id);
    AllowKeepsMaps(cfg, s.m, id, ev.ip, rule, ev.at);
  }

  lemma {:induction false} MapsAlways(cfg: Config, start: real, evs: seq<Event>)
    requires LegalRun(cfg, start, evs) && cfg.maxBuckets >= 0
    ensures MapsOk(cfg, Run(cfg, start, evs).m)
  {
    if evs != [] {
      var s, ev := Run(cfg, start, evs[..|evs| - 1]), evs[|evs| - 1];
      MapsAlways(cfg, start, evs[..|evs| - 1]);
      if ev.Tick? {
        TickKeepsMaps(cfg, s.m, ev.stamp);
      } else {
        CallKeepsMaps(cfg, s, ev);
      }
    }
  }

  /** A client that has a bucket is judged by that bucket alone, whoever else the
      two servers know. */
  lemma KnownClientIndependent(cfg: Config, s: Server, t: Server, ev: Event, k: Key)
    requires IsCall(cfg, ev, k) && Slot(s.m, k).Some? && Slot(s.m, k) == Slot(t.m, k)
    ensures Handle(cfg, s, ev).1 == Handle(cfg, t, ev).1
    ensures Slot(Handle(cfg, s, ev).0, k) == Slot(Handle(cfg, t, ev).0, k)
  {
    CallSlot(cfg, s, ev, k);
    CallSlot(cfg, t, ev, k);
  }
}
