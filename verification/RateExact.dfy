/** Exactly when eviction can be observed, and exactly when it breaks the window
    bound; and what that means for the rules that ship. */
module RateExact {
  import opened RateLimit
  import opened RateRuns
  import opened RateBounds
  import opened TokenBucket

  lemma Append(cfg: Config, start: real, evs: seq<Event>, ev: Event, k: Key)
    ensures Run(cfg, start, evs + [ev]) == Step(cfg, Run(cfg, start, evs), ev)
    ensures LegalRun(cfg, start, evs + [ev]) <==> LegalRun(cfg, start, evs) && Legal(Run(cfg, start, evs), ev)
    ensures Times(cfg, start, evs + [ev], k) ==
            Times(cfg, start, evs, k) + if IsServed(cfg, Run(cfg, start, evs), ev, k) then [ev.at] else []
    ensures Verdicts(cfg, start, evs + [ev], k) ==
            Verdicts(cfg, start, evs, k) +
            if IsServed(cfg, Run(cfg, start, evs), ev, k) then [Handle(cfg, Run(cfg, start, evs), ev).1] else []
  {
    assert (evs + [ev])[..|evs|] == evs;
  }

  /** A run as one client's story: what it was told so far and when it called last. */
  ghost predicate Story(cfg: Config, start: real, evs: seq<Event>, k: Key, told: nat, end: real) {
    LegalRun(cfg, start, evs) && Run(cfg, start, evs).clock == end &&
    Count(Verdicts(cfg, start, evs, k)) == told && Ascending(start, Times(cfg, start, evs, k), end)
  }

  lemma StoryCall(cfg: Config, start: real, evs: seq<Event>, k: Key, told: nat, end: real, ev: Event)
    requires Story(cfg, start, evs, k, told, end) && IsCall(cfg, ev, k) && ':' !in ev.verb && end <= ev.at
    requires !CapRefuses(cfg, Run(cfg, start, evs), k) && Handle(cfg, Run(cfg, start, evs), ev).1
    ensures Story(cfg, start, evs + [ev], k, told + 1, ev.at)
  {
    Append(cfg, start, evs, ev, k);
    CountAppend(Verdicts(cfg, start, evs, k), true);
    AscendingAppend(start, Times(cfg, start, evs, k), end, ev.at);
  }

  lemma StoryTick(cfg: Config, start: real, evs: seq<Event>, k: Key, told: nat, end: real, at: real)
    requires Story(cfg, start, evs, k, told, end) && end <= at
    ensures Story(cfg, start, evs + [Tick(at, at)], k, told, at)
  {
    Append(cfg, start, evs, Tick(at, at), k);
    AscendingLater(start, Times(cfg, start, evs, k), end, at);
    assert Times(cfg, start, evs, k) + [] == Times(cfg, start, evs, k);
    assert Verdicts(cfg, start, evs, k) + [] == Verdicts(cfg, start, evs, k);
  }

  /** One client that has used up `n` tokens at one instant, and no other. */
  function Spent(rule: Rule, ip: string, n: int, at: real): Buckets {
    map[ip := Bucket(Limiter(rule, (rule.burst - n) as real, at), at)]
  }

  lemma SpendOne(m: KeyMap, cap: int, rule: Rule, k: Key, n: nat, at: real)
    requires 0 <= n < rule.burst && cap >= 1
    requires BucketsOf(m, k.id) == if n == 0 then map[] else Spent(rule, k.ip, n, at)
    ensures var (after, ok) := AllowStep(m, cap, k.id, k.ip, rule, at);
            ok && BucketsOf(after, k.id) == Spent(rule, k.ip, n + 1, at)
    ensures k.ip in BucketsOf(m, k.id) || |BucketsOf(m, k.id)| < cap
  {
    var l := if n == 0 then NewLimiter(rule, at) else Spent(rule, k.ip, n, at)[k.ip].limiter;
    assert at - l.last == 0.0 && Available(l, at) == (rule.burst - n) as real;
    assert Spent(rule, k.ip, n, at)[k.ip := Bucket(Take(l, at).0, at)] == Spent(rule, k.ip, n + 1, at);
  }

  lemma OneMoreCall(cfg: Config, start: real, before: seq<Event>, k: Key, told: nat, end: real, ev: Event,
                    rule: Rule, n: nat)
    requires Story(cfg, start, before, k, told, end) && IsCall(cfg, ev, k) && ':' !in ev.verb && end <= ev.at
    requires cfg.maxBuckets >= 1 && n < rule.burst && RuleFor(cfg, ev.verb, ev.path).0 == rule
    requires BucketsOf(Run(cfg, start, before).m, k.id) ==
             if n == 0 then map[] else Spent(rule, k.ip, n, ev.at)
    ensures Story(cfg, start, before + [ev], k, told + 1, ev.at)
    ensures BucketsOf(Run(cfg, start, before + [ev]).m, k.id) ==
            Spent(rule, k.ip, n + 1, ev.at)
  {
    SpendOne(Run(cfg, start, before).m, cfg.maxBuckets, rule, k, n, ev.at);
    StoryCall(cfg, start, before, k, told, end, ev);
    Append(cfg, start, before, ev, k);
  }

  /** From an empty map on, repeating a call at one instant until the burst is
      used up is let through every time. */
  lemma {:induction false} BurstAtOnce(cfg: Config, start: real, before: seq<Event>, k: Key, told: nat, end: real, ev: Event,
                                       rule: Rule, n: nat) returns (evs: seq<Event>)
    requires Story(cfg, start, before, k, told, end) && IsCall(cfg, ev, k) && ':' !in ev.verb && end <= ev.at
    requires cfg.maxBuckets >= 1 && n <= rule.burst && RuleFor(cfg, ev.verb, ev.path).0 == rule && rule.burst > 0
    requires BucketsOf(Run(cfg, start, before).m, k.id) == if n == 0 then map[] else Spent(rule, k.ip, n, ev.at)
    requires n > 0 ==> end == ev.at
    ensures Story(cfg, start, evs, k, told + rule.burst - n, ev.at)
    ensures BucketsOf(Run(cfg, start, evs).m, k.id) == Spent(rule, k.ip, rule.burst, ev.at)
    decreases rule.burst - n
  {
    if n == rule.burst {
      evs := before;
    } else {
      OneMoreCall(cfg, start, before, k, told, end, ev, rule, n);
      evs := BurstAtOnce(cfg, start, before + [ev], k, told + 1, ev.at, ev, rule, n + 1);
    }
  }

  lemma PickLater(rule: Rule, idle: real) returns (later: real)
    requires !Covers(rule, idle) && idle >= 0.0
    ensures later > idle && Refill(rule.perSecond, later) < rule.burst as real && rule.burst > 0
  {
    Nonnegative(rule.perSecond, idle);
    if rule.perSecond <= 0.0 {
      later := idle + 1.0;
    } else {
      var slack := (rule.burst as real - Refill(rule.perSecond, idle)) / (2.0 * rule.perSecond);
      later := idle + slack;
      assert rule.perSecond * slack == (rule.burst as real - Refill(rule.perSecond, idle)) / 2.0;
      assert slack > 0.0;
      RefillSum(rule.perSecond, idle, slack);
    }
  }

  /** Every run tells the client, when it is served, what its own bucket would say. */
  ghost predicate Invisible(cfg: Config, rule: Rule, k: Key) {
    forall start, evs :: LegalRun(cfg, start, evs) ==>
                           Verdicts(cfg, start, evs, k) == LoneVerdicts(rule, start, Times(cfg, start, evs, k))
  }

  lemma PauseEvicts(cfg: Config, start: real, evs: seq<Event>, k: Key, told: nat, end: real, later: real, rule: Rule)
    requires Story(cfg, start, evs, k, told, end) && later - end > cfg.idle >= 0.0
    requires BucketsOf(Run(cfg, start, evs).m, k.id) == Spent(rule, k.ip, rule.burst, end) && rule.burst > 0
    ensures Story(cfg, start, evs + [Tick(later, later)], k, told, later)
    ensures BucketsOf(Run(cfg, start, evs + [Tick(later, later)]).m, k.id) == map[]
  {
    StoryTick(cfg, start, evs, k, told, end, later);
    Append(cfg, start, evs, Tick(later, later), k);
    assert KeptIps(BucketsOf(Run(cfg, start, evs).m, k.id), cfg.idle, later) == map[];
  }

  /** A burst, a long pause with an eviction, and another burst. */
  lemma TwoBursts(cfg: Config, k: Key, verb: string, path: string, later: real) returns (evs: seq<Event>)
    requires ':' !in verb && RuleFor(cfg, verb, path).1 == k.id && cfg.maxBuckets >= 1 && cfg.idle >= 0.0
    requires later > cfg.idle && RuleFor(cfg, verb, path).0.burst > 0
    ensures Story(cfg, 0.0, evs, k, 2 * RuleFor(cfg, verb, path).0.burst, later)
  {
    var rule := RuleFor(cfg, verb, path).0;
    assert Story(cfg, 0.0, [], k, 0, 0.0);
    var first := BurstAtOnce(cfg, 0.0, [], k, 0, 0.0, Request(verb, path, k.ip, 0.0), rule, 0);
    PauseEvicts(cfg, 0.0, first, k, rule.burst, 0.0, later, rule);
    evs := BurstAtOnce(cfg, 0.0, first + [Tick(later, later)], k, rule.burst, later, Request(verb, path, k.ip, later), rule, 0);
  }

  /** Eviction cannot be observed by a client exactly when an idle period refills
      its rule's whole burst. */
  lemma InvisibleExactly(cfg: Config, verb: string, path: string, ip: string)
    requires ':' !in verb && cfg.maxBuckets >= 1 && cfg.idle >= 0.0
    ensures var (rule, id) := RuleFor(cfg, verb, path); Invisible(cfg, rule, Key(id, ip)) <==> Covers(rule, cfg.idle)
  {
    var (rule, id) := RuleFor(cfg, verb, path);
    var k := Key(id, ip);
    assert Serves(cfg, rule, id);
    if Covers(rule, cfg.idle) {
      forall start, evs | LegalRun(cfg, start, evs)
        ensures Verdicts(cfg, start, evs, k) == LoneVerdicts(rule, start, Times(cfg, start, evs, k))
      {
        EvictionInvisible(cfg, start, evs, rule, k);
      }
    } else {
      var later := PickLater(rule, cfg.idle);
      var evs := TwoBursts(cfg, k, verb, path, later);
      LoneBound(rule, 0.0, Times(cfg, 0.0, evs, k), later);
      assert Verdicts(cfg, 0.0, evs, k) != LoneVerdicts(rule, 0.0, Times(cfg, 0.0, evs, k));
    }
  }

  /** A window that spans the whole run counts every call let through. */
  lemma {:induction false} AllowedIsCount(cfg: Config, start: real, evs: seq<Event>, k: Key, to: real)
    requires LegalRun(cfg, start, evs) && Run(cfg, start, evs).clock <= to
    ensures Allowed(cfg, start, evs, k, start, to) == Count(Verdicts(cfg, start, evs, k)) && start <= Run(cfg, start, evs).clock
  {
    if evs != [] {
      var before, ev := evs[..|evs| - 1], evs[|evs| - 1];
      AllowedIsCount(cfg, start, before, k, to);
      if IsServed(cfg, Run(cfg, start, before), ev, k) {
        CountAppend(Verdicts(cfg, start, before, k), Handle(cfg, Run(cfg, start, before), ev).1);
      } else {
        if IsCall(cfg, ev, k) {
          CapRefusal(cfg, Run(cfg, start, before), ev, k);
        }
        assert Verdicts(cfg, start, evs, k) == Verdicts(cfg, start, before, k);
      }
    }
  }

  ghost predicate Bounded(cfg: Config, rule: Rule, k: Key) {
    forall start, evs, from, to :: LegalRun(cfg, start, evs) && from <= to ==>
      Allowed(cfg, start, evs, k, from, to) as real <= Top(rule) + Earned(rule.perSecond, to - from)
  }

  /** The bound holds over every window of every run exactly when an idle period
      refills the whole burst. */
  lemma BoundedExactly(cfg: Config, verb: string, path: string, ip: string)
    requires ':' !in verb && cfg.maxBuckets >= 1 && cfg.idle >= 0.0
    ensures var (rule, id) := RuleFor(cfg, verb, path); Bounded(cfg, rule, Key(id, ip)) <==> Covers(rule, cfg.idle)
  {
    var (rule, id) := RuleFor(cfg, verb, path);
    var k := Key(id, ip);
    assert Serves(cfg, rule, id);
    if Covers(rule, cfg.idle) {
      forall start, evs, from, to | LegalRun(cfg, start, evs) && from <= to
        ensures Allowed(cfg, start, evs, k, from, to) as real <= Top(rule) + Earned(rule.perSecond, to - from)
      {
        WindowBound(cfg, start, evs, rule, k, from, to);
      }
    } else {
      var later := PickLater(rule, cfg.idle);
      var evs := TwoBursts(cfg, k, verb, path, later);
      AllowedIsCount(cfg, 0.0, evs, k, later);
      assert LegalRun(cfg, 0.0, evs) && Allowed(cfg, 0.0, evs, k, 0.0, later) == 2 * rule.burst;
    }
  }

  // ---- The shipped configuration ----

  function Shipped(): Config {
    Config(Rule(5.0, 10),
           [Route("POST", "/pair/request", Rule(5.0 / 60.0, 5)),
            Route("PUT", "/mailbox/", Rule(1.0, 60)),
            Route("GET", "/mailbox/", Rule(2.0, 120))],
           600.0, 50_000)
  }

  /** Under every rule the public listener ships with, no client can tell whether
      its bucket was ever evicted. */
  lemma ShippedInvisible(verb: string, path: string, ip: string)
    requires ':' !in verb
    ensures var (rule, id) := RuleFor(Shipped(), verb, path); Invisible(Shipped(), rule, Key(id, ip))
  {
    var k := RuleSource(Shipped(), Shipped().routes, verb, path);
    FirstMatchDecides(Shipped(), Shipped().routes, verb, path, k);
    InvisibleExactly(Shipped(), verb, path, ip);
  }

  /** Which rule each request to the public listener falls under. */
  lemma ShippedRuleExactly(verb: string, path: string)
    ensures RuleFor(Shipped(), verb, path) ==
            if verb == "POST" && (exists rest: string :: path == "/pair/request" + rest) then (Rule(5.0 / 60.0, 5), "POST:/pair/request")
            else if verb == "PUT" && (exists rest: string :: path == "/mailbox/" + rest) then (Rule(1.0, 60), "PUT:/mailbox/")
            else if verb == "GET" && (exists rest: string :: path == "/mailbox/" + rest) then (Rule(2.0, 120), "GET:/mailbox/")
            else (Rule(5.0, 10), "default")
  {
    var routes := Shipped().routes;
    var post, put, get := Route("POST", "/pair/request", Rule(5.0 / 60.0, 5)), Route("PUT", "/mailbox/", Rule(1.0, 60)),
                          Route("GET", "/mailbox/", Rule(2.0, 120));
    assert routes == [post, put, get];
    var k := if MeantFor(post, verb, path) then 0 else if MeantFor(put, verb, path) then 1 else if MeantFor(get, verb, path) then 2 else 3;
    FirstMatchDecides(Shipped(), routes, verb, path, k);
    assert "POST" + ":" + "/pair/request" == "POST:/pair/request";
    assert "PUT" + ":" + "/mailbox/" == "PUT:/mailbox/";
    assert "GET" + ":" + "/mailbox/" == "GET:/mailbox/";
  }

  /** Mailbox traffic: every path below "/mailbox/" has the rule of its method. */
  lemma MailboxRules(rest: string)
    ensures RuleFor(Shipped(), "PUT", "/mailbox/" + rest).0 == Rule(1.0, 60)
    ensures RuleFor(Shipped(), "GET", "/mailbox/" + rest).0 == Rule(2.0, 120)
    ensures RuleFor(Shipped(), "POST", "/mailbox/" + rest).0 == Rule(5.0, 10)
  {
    ShippedRuleExactly("PUT", "/mailbox/" + rest);
    ShippedRuleExactly("GET", "/mailbox/" + rest);
    ShippedRuleExactly("POST", "/mailbox/" + rest);
    assert ("/mailbox/" + rest)[1] == 'm';
    forall r: string
      ensures "/mailbox/" + rest != "/pair/request" + r
    {
      assert ("/pair/request" + r)[1] == 'p';
    }
  }
}
