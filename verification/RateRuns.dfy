/** Whole runs of the rate limiter: requests and eviction ticks in any order. */
module RateRuns {
  import opened Lex
  import opened RateLimit

  datatype Event =
    | Request(verb: string, path: string, ip: string, at: real)
    /** A tick handled at one instant, stamped no later. */
    | Tick(at: real, stamp: real)

  datatype Server = Server(m: KeyMap, clock: real)

  function IdOf(cfg: Config, ev: Event): string
    requires ev.Request?
  {
    RuleFor(cfg, ev.verb, ev.path).1
  }

  function Handle(cfg: Config, s: Server, ev: Event): (KeyMap, bool)
    requires ev.Request?
  {
    AllowStep(s.m, cfg.maxBuckets, IdOf(cfg, ev), ev.ip, RuleFor(cfg, ev.verb, ev.path).0, ev.at)
  }

  function Step(cfg: Config, s: Server, ev: Event): Server {
    if ev.Request? then Server(Handle(cfg, s, ev).0, ev.at) else Server(Evicted(s.m, cfg.idle, ev.stamp), ev.at)
  }

  /** The clock never goes back; an HTTP method holds no colon. */
  predicate Legal(s: Server, ev: Event) {
    s.clock <= ev.at && (if ev.Request? then ':' !in ev.verb else ev.stamp <= ev.at)
  }

  function Run(cfg: Config, start: real, evs: seq<Event>): Server {
    if evs == [] then Server(map[], start) else Step(cfg, Run(cfg, start, evs[..|evs| - 1]), evs[|evs| - 1])
  }

  predicate LegalRun(cfg: Config, start: real, evs: seq<Event>) {
    evs == [] || (LegalRun(cfg, start, evs[..|evs| - 1]) && Legal(Run(cfg, start, evs[..|evs| - 1]), evs[|evs| - 1]))
  }

  // ---- One client of one rule ----

  datatype Key = Key(id: string, ip: string)

  predicate IsCall(cfg: Config, ev: Event, k: Key) {
    ev.Request? && IdOf(cfg, ev) == k.id && ev.ip == k.ip
  }

  /** The client is unknown and its rule has no room. */
  predicate CapRefuses(cfg: Config, s: Server, k: Key) {
    k.ip !in BucketsOf(s.m, k.id) && |BucketsOf(s.m, k.id)| >= cfg.maxBuckets
  }

  /** A call of the client that a bucket answers. */
  predicate IsServed(cfg: Config, s: Server, ev: Event, k: Key) {
    IsCall(cfg, ev, k) && !CapRefuses(cfg, s, k)
  }

  /** When the client was served. */
  function Times(cfg: Config, start: real, evs: seq<Event>, k: Key): seq<real> {
    if evs == [] then []
    else
      var before, ev := evs[..|evs| - 1], evs[|evs| - 1];
      Times(cfg, start, before, k) + if IsServed(cfg, Run(cfg, start, before), ev, k) then [ev.at] else []
  }

  /** What the client was told when it was served. */
  function Verdicts(cfg: Config, start: real, evs: seq<Event>, k: Key): seq<bool> {
    if evs == [] then []
    else
      var before, ev := evs[..|evs| - 1], evs[|evs| - 1];
      var s := Run(cfg, start, before);
      Verdicts(cfg, start, before, k) + if IsServed(cfg, s, ev, k) then [Handle(cfg, s, ev).1] else []
  }

  /** Any other call of the client is refused, and leaves it unknown. */
  lemma CapRefusal(cfg: Config, s: Server, ev: Event, k: Key)
    requires IsCall(cfg, ev, k) && !IsServed(cfg, s, ev, k)
    ensures !Handle(cfg, s, ev).1 && Slot(s.m, k) == None && Slot(Handle(cfg, s, ev).0, k) == None
  {
    CallSlot(cfg, s, ev, k);
  }

  /** One token bucket that nobody evicts, fed with one client's calls. */
  function Lone(rule: Rule, start: real, times: seq<real>): Limiter {
    if times == [] then NewLimiter(rule, start)
    else Take(Lone(rule, start, times[..|times| - 1]), times[|times| - 1]).0
  }

  function LoneVerdicts(rule: Rule, start: real, times: seq<real>): seq<bool> {
    if times == [] then []
    else
      LoneVerdicts(rule, start, times[..|times| - 1]) +
      [Take(Lone(rule, start, times[..|times| - 1]), times[|times| - 1]).1]
  }

  // ---- Refill arithmetic ----

  lemma RefillSum(rate: real, a: real, b: real)
    requires a >= 0.0 && b >= 0.0
    ensures Refill(rate, a) + Refill(rate, b) == Refill(rate, a + b)
    ensures Refill(rate, a) >= 0.0 && Refill(rate, b) >= 0.0
  {
    if rate > 0.0 && a > 0.0 && b > 0.0 {
      assert rate * (a + b) == rate * a + rate * b;
    }
    Nonnegative(rate, a);
    Nonnegative(rate, b);
  }

  lemma Nonnegative(rate: real, a: real)
    ensures Refill(rate, a) >= 0.0
  {
    if rate > 0.0 && a > 0.0 {
      assert rate * a > 0.0;
    }
  }

  lemma RefillGrows(rate: real, a: real, b: real)
    requires a <= b
    ensures Refill(rate, a) <= Refill(rate, b)
  {
    if a >= 0.0 {
      RefillSum(rate, a, b - a);
    } else {
      Nonnegative(rate, b);
    }
  }

  /** Tokens never exceed the burst, and are negative only when the burst is. */
  predicate Sound(l: Limiter, now: real) {
    l.last <= now && l.tokens <= l.rule.burst as real && (l.tokens >= 0.0 || l.tokens == l.rule.burst as real)
  }

  predicate Full(l: Limiter, now: real) {
    Available(l, now) == l.rule.burst as real
  }

  lemma FullStays(l: Limiter, now: real, later: real)
    requires Full(l, now) && now <= later
    ensures Full(l, later)
  {
    RefillGrows(l.rule.perSecond, now - l.last, later - l.last);
  }

  lemma SoundStays(l: Limiter, now: real, later: real)
    requires Sound(l, now) && now <= later
    ensures Sound(l, later) && Sound(Take(l, later).0, later)
  {
  }

  /** Refilling between two instants. */
  lemma AvailableGrows(l: Limiter, now: real, later: real)
    requires Sound(l, now) && now <= later
    ensures Available(l, later) <= Available(l, now) + Refill(l.rule.perSecond, later - now)
  {
    RefillSum(l.rule.perSecond, now - l.last, later - now);
  }

  /** What a rate earns over a length of time. */
  function Earned(perSecond: real, length: real): real {
    if perSecond > 0.0 && length > 0.0 then perSecond * length else 0.0
  }

  lemma RefillIsEarned(perSecond: real, length: real)
    ensures Refill(perSecond, length) == Earned(perSecond, length)
  {
  }

  /** An idle period refills a whole burst. */
  predicate Covers(rule: Rule, idle: real) {
    Earned(rule.perSecond, idle) >= rule.burst as real
  }

  lemma IdleIsFull(b: Bucket, idle: real, stamp: real, now: real)
    requires Sound(b.limiter, b.last) && idle >= 0.0 && Idle(b, idle, stamp) && stamp <= now && Covers(b.limiter.rule, idle)
    ensures Full(b.limiter, now)
  {
    RefillIsEarned(b.limiter.rule.perSecond, idle);
    RefillGrows(b.limiter.rule.perSecond, idle, now - b.limiter.last);
    Nonnegative(b.limiter.rule.perSecond, now - b.limiter.last);
  }

  // ---- A run seen by one client ----

  function Slot(m: KeyMap, k: Key): Option<Bucket> {
    if k.ip in BucketsOf(m, k.id) then Some(BucketsOf(m, k.id)[k.ip]) else None
  }

  lemma OtherCall(cfg: Config, s: Server, ev: Event, k: Key)
    requires ev.Request? && !IsCall(cfg, ev, k)
    ensures Slot(Handle(cfg, s, ev).0, k) == Slot(s.m, k)
  {
  }

  lemma TickSlot(m: KeyMap, idle: real, stamp: real, k: Key)
    ensures var slot := Slot(m, k);
            Slot(Evicted(m, idle, stamp), k) == if slot.Some? && Idle(slot.value, idle, stamp) then None else slot
  {
    if k.id in m && k.ip in m[k.id] && !Idle(m[k.id][k.ip], idle, stamp) {
      assert k.ip in KeptIps(m[k.id], idle, stamp);
    }
  }

  /** The limiter that serves a call. */
  function Serving(slot: Option<Bucket>, rule: Rule, now: real): Limiter {
    if slot.Some? then slot.value.limiter else NewLimiter(rule, now)
  }

  lemma CallSlot(cfg: Config, s: Server, ev: Event, k: Key)
    requires IsCall(cfg, ev, k)
    ensures var (after, ok) := Handle(cfg, s, ev);
            var l := Serving(Slot(s.m, k), RuleFor(cfg, ev.verb, ev.path).0, ev.at);
            if CapRefuses(cfg, s, k) then Slot(after, k) == Slot(s.m, k) == None && !ok
            else Slot(after, k) == Some(Bucket(Take(l, ev.at).0, ev.at)) && ok == Take(l, ev.at).1
  {
  }

  /** A stored bucket is sound and keeps the limits of its rule. */
  predicate SlotOk(slot: Option<Bucket>, rule: Rule, clock: real) {
    slot.Some? ==> Sound(slot.value.limiter, slot.value.last) && slot.value.last <= clock && slot.value.limiter.rule == rule
  }

  lemma SlotStays(slot: Option<Bucket>, rule: Rule, clock: real, now: real)
    requires SlotOk(slot, rule, clock) && clock <= now
    ensures SlotOk(slot, rule, now) && Sound(Serving(slot, rule, now), now) && Serving(slot, rule, now).rule == rule
    ensures var l := Take(Serving(slot, rule, now), now).0; Sound(l, now) && SlotOk(Some(Bucket(l, now)), rule, now)
  {
  }

  // ---- Eviction cannot be observed ----

  /** The stored bucket stands for the lone one: they are equal, or both are full. */
  predicate Same(slot: Option<Bucket>, lone: Limiter, clock: real) {
    (slot.Some? && slot.value.limiter == lone) ||
    ((slot.Some? ==> Full(slot.value.limiter, clock)) && Full(lone, clock))
  }

  lemma SameAtCall(slot: Option<Bucket>, lone: Limiter, rule: Rule, clock: real, now: real)
    requires Same(slot, lone, clock) && clock <= now && SlotOk(slot, rule, clock) && lone.rule == rule
    ensures var (l, ok) := Take(Serving(slot, rule, now), now);
            var (after, told) := Take(lone, now);
            ok == told && Same(Some(Bucket(l, now)), after, now)
  {
    var l := Serving(slot, rule, now);
    if l != lone {
      FullStays(lone, clock, now);
      if slot.Some? {
        FullStays(l, clock, now);
      }
      assert Full(l, now) by {
        if slot.None? {
          assert now - l.last == 0.0;
        }
      }
    }
  }

  lemma SameAtTick(slot: Option<Bucket>, lone: Limiter, rule: Rule, idle: real, clock: real, at: real, stamp: real)
    requires Same(slot, lone, clock) && clock <= at && stamp <= at && SlotOk(slot, rule, clock) && lone.rule == rule
    requires idle >= 0.0 && Covers(rule, idle)
    ensures Same(if slot.Some? && Idle(slot.value, idle, stamp) then None else slot, lone, at)
  {
    if slot.Some? && Idle(slot.value, idle, stamp) {
      IdleIsFull(slot.value, idle, stamp, at);
    }
    if Full(lone, clock) {
      FullStays(lone, clock, at);
      if slot.Some? && Full(slot.value.limiter, clock) {
        FullStays(slot.value.limiter, clock, at);
      }
    }
  }

  /** A rule that some request is mapped to, with its id. */
  ghost predicate Serves(cfg: Config, rule: Rule, id: string) {
    exists verb, path :: ':' !in verb && RuleFor(cfg, verb, path) == (rule, id)
  }

  lemma RuleOfCall(cfg: Config, rule: Rule, ev: Event, k: Key)
    requires Serves(cfg, rule, k.id) && IsCall(cfg, ev, k) && ':' !in ev.verb
    ensures RuleFor(cfg, ev.verb, ev.path).0 == rule
  {
    var verb, path :| ':' !in verb && RuleFor(cfg, verb, path) == (rule, k.id);
    RuleIdDeterminesRule(cfg, verb, path, ev.verb, ev.path);
  }

  /** The clock of a legal run, and the bucket of one client after it. */
  lemma {:induction false} SlotAlways(cfg: Config, start: real, evs: seq<Event>, rule: Rule, k: Key)
    requires LegalRun(cfg, start, evs) && Serves(cfg, rule, k.id)
    ensures SlotOk(Slot(Run(cfg, start, evs).m, k), rule, Run(cfg, start, evs).clock)
  {
    if evs != [] {
      var ev := evs[|evs| - 1];
      SlotAlways(cfg, start, evs[..|evs| - 1], rule, k);
      SlotAfter(cfg, Run(cfg, start, evs[..|evs| - 1]), ev, rule, k);
    }
  }

  lemma SlotAfter(cfg: Config, s: Server, ev: Event, rule: Rule, k: Key)
    requires Legal(s, ev) && Serves(cfg, rule, k.id) && SlotOk(Slot(s.m, k), rule, s.clock)
    ensures SlotOk(Slot(Step(cfg, s, ev).m, k), rule, ev.at)
  {
    SlotStays(Slot(s.m, k), rule, s.clock, ev.at);
    if ev.Tick? {
      TickSlot(s.m, cfg.idle, ev.stamp, k);
    } else if IsCall(cfg, ev, k) {
      RuleOfCall(cfg, rule, ev, k);
      CallSlot(cfg, s, ev, k);
    } else {
      OtherCall(cfg, s, ev, k);
    }
  }

  lemma SameLater(slot: Option<Bucket>, lone: Limiter, clock: real, at: real)
    requires Same(slot, lone, clock) && clock <= at
    ensures Same(slot, lone, at)
  {
    if Full(lone, clock) {
      FullStays(lone, clock, at);
      if slot.Some? && Full(slot.value.limiter, clock) {
        FullStays(slot.value.limiter, clock, at);
      }
    }
  }

  lemma SameAfter(cfg: Config, s: Server, ev: Event, rule: Rule, k: Key, lone: Limiter)
    requires Legal(s, ev) && Serves(cfg, rule, k.id) && cfg.idle >= 0.0 && Covers(rule, cfg.idle)
    requires SlotOk(Slot(s.m, k), rule, s.clock) && lone.rule == rule && Same(Slot(s.m, k), lone, s.clock)
    ensures var t := Step(cfg, s, ev);
            if IsServed(cfg, s, ev, k)
            then Same(Slot(t.m, k), Take(lone, ev.at).0, ev.at) && Handle(cfg, s, ev).1 == Take(lone, ev.at).1
            else Same(Slot(t.m, k), lone, ev.at)
  {
    var slot := Slot(s.m, k);
    SameLater(slot, lone, s.clock, ev.at);
    if ev.Tick? {
      TickSlot(s.m, cfg.idle, ev.stamp, k);
      SameAtTick(slot, lone, rule, cfg.idle, s.clock, ev.at, ev.stamp);
    } else if IsServed(cfg, s, ev, k) {
      RuleOfCall(cfg, rule, ev, k);
      CallSlot(cfg, s, ev, k);
      SameAtCall(slot, lone, rule, s.clock, ev.at);
    } else if IsCall(cfg, ev, k) {
      CapRefusal(cfg, s, ev, k);
    } else {
      OtherCall(cfg, s, ev, k);
    }
  }

  lemma {:induction false} LoneRule(rule: Rule, start: real, times: seq<real>)
    ensures Lone(rule, start, times).rule == rule
  {
    if times != [] {
      LoneRule(rule, start, times[..|times| - 1]);
    }
  }

  lemma AppendTime(rule: Rule, start: real, times: seq<real>, at: real)
    ensures Lone(rule, start, times + [at]) == Take(Lone(rule, start, times), at).0
    ensures LoneVerdicts(rule, start, times + [at]) == LoneVerdicts(rule, start, times) + [Take(Lone(rule, start, times), at).1]
  {
    assert (times + [at])[..|times|] == times;
  }

  /** Evictions, refusals and everything else that runs never change what a client
      is told when it is served: always what its own token bucket would say, fed with
      just those calls, if an idle period refills a burst. */
  lemma {:induction false} EvictionInvisible(cfg: Config, start: real, evs: seq<Event>, rule: Rule, k: Key)
    requires LegalRun(cfg, start, evs) && Serves(cfg, rule, k.id)
    requires cfg.idle >= 0.0 && Covers(rule, cfg.idle)
    ensures Verdicts(cfg, start, evs, k) == LoneVerdicts(rule, start, Times(cfg, start, evs, k))
    ensures Same(Slot(Run(cfg, start, evs).m, k), Lone(rule, start, Times(cfg, start, evs, k)), Run(cfg, start, evs).clock)
  {
    if evs != [] {
      var before, ev := evs[..|evs| - 1], evs[|evs| - 1];
      var s := Run(cfg, start, before);
      var times := Times(cfg, start, before, k);
      EvictionInvisible(cfg, start, before, rule, k);
      SlotAlways(cfg, start, before, rule, k);
      LoneRule(rule, start, times);
      SameAfter(cfg, s, ev, rule, k, Lone(rule, start, times));
      if IsServed(cfg, s, ev, k) {
        AppendTime(rule, start, times, ev.at);
      } else {
        assert Times(cfg, start, evs, k) == times;
      }
    } else {
      NewIsFull(rule, start);
    }
  }

  lemma NewIsFull(rule: Rule, start: real)
    ensures Full(NewLimiter(rule, start), start)
  {
  }
}
