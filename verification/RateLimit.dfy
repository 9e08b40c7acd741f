/** The per-client token buckets in front of the public endpoints. Times are
    seconds on one clock; a limiter refills lazily, when it is asked. */
module RateLimit {

  datatype Rule = Rule(perSecond: real, burst: int)

  /** An empty method matches every request. */
  datatype Route = Route(verb: string, prefix: string, rule: Rule)

  datatype Config = Config(fallback: Rule, routes: seq<Route>, idle: real, maxBuckets: int)

  datatype Limiter = Limiter(rule: Rule, tokens: real, last: real)

  datatype Bucket = Bucket(limiter: Limiter, last: real)

  type Buckets = map<string, Bucket>
  type KeyMap = map<string, Buckets>

  // ---- The token bucket ----

  /** A rate that is not positive never refills. */
  function Refill(perSecond: real, elapsed: real): real {
    if perSecond <= 0.0 || elapsed <= 0.0 then 0.0 else perSecond * elapsed
  }

  function Available(l: Limiter, now: real): real {
    var tokens := l.tokens + Refill(l.rule.perSecond, now - l.last);
    if tokens > l.rule.burst as real then l.rule.burst as real else tokens
  }

  function NewLimiter(rule: Rule, now: real): Limiter {
    Limiter(rule, rule.burst as real, now)
  }

  /** Take one token if there is one; a refused call changes nothing. */
  function Take(l: Limiter, now: real): (Limiter, bool) {
    if 1 <= l.rule.burst && Available(l, now) >= 1.0
    then (l.(tokens := Available(l, now) - 1.0, last := now), true)
    else (l, false)
  }

  // ---- Rules ----

  predicate HasPrefix(s: string, prefix: string) {
    prefix <= s
  }

  predicate RouteMatches(route: Route, verb: string, path: string) {
    (route.verb == "" || route.verb == verb) && HasPrefix(path, route.prefix)
  }

  function RouteId(route: Route): string {
    route.verb + ":" + route.prefix
  }

  /** The first route that matches, else the fallback. */
  function RuleFrom(cfg: Config, routes: seq<Route>, verb: string, path: string): (Rule, string) {
    if routes == [] then (cfg.fallback, "default")
    else if RouteMatches(routes[0], verb, path) then (routes[0].rule, RouteId(routes[0]))
    else RuleFrom(cfg, routes[1..], verb, path)
  }

  function RuleFor(cfg: Config, verb: string, path: string): (Rule, string) {
    RuleFrom(cfg, cfg.routes, verb, path)
  }

  // ---- The two operations on the nested map ----

  function BucketsOf(m: KeyMap, ruleId: string): Buckets {
    if ruleId in m then m[ruleId] else map[]
  }

  function AllowStep(m: KeyMap, cap: int, ruleId: string, ip: string, rule: Rule, now: real): (KeyMap, bool) {
    var ips := BucketsOf(m, ruleId);
    if ip !in ips && |ips| >= cap then (m[ruleId := ips], false)
    else
      var (after, ok) := Take(if ip in ips then ips[ip].limiter else NewLimiter(rule, now), now);
      (m[ruleId := ips[ip := Bucket(after, now)]], ok)
  }

  predicate Idle(b: Bucket, idle: real, now: real) {
    now - b.last > idle
  }

  function KeptIps(ips: Buckets, idle: real, now: real): Buckets {
    map ip | ip in ips && !Idle(ips[ip], idle, now) :: ips[ip]
  }

  function Evicted(m: KeyMap, idle: real, now: real): KeyMap {
    map id | id in m && KeptIps(m[id], idle, now) != map[] :: KeptIps(m[id], idle, now)
  }

  class RateLimiter {
    const cfg: Config
    var keyMap: KeyMap

    /** Zero values fall back to ten minutes and 50000 buckets. */
    constructor (given: Config)
      ensures keyMap == map[]
      ensures cfg.fallback == given.fallback && cfg.routes == given.routes
      ensures cfg.idle == (if given.idle == 0.0 then 600.0 else given.idle)
      ensures cfg.maxBuckets == (if given.maxBuckets == 0 then 50_000 else given.maxBuckets)
    {
      cfg := given.(idle := if given.idle == 0.0 then 600.0 else given.idle,
                    maxBuckets := if given.maxBuckets == 0 then 50_000 else given.maxBuckets);
      keyMap := map[];
    }

    method MatchRule(verb: string, path: string) returns (rule: Rule, ruleId: string)
      ensures (rule, ruleId) == RuleFor(cfg, verb, path)
    {
      for i := 0 to |cfg.routes|
        invariant RuleFrom(cfg, cfg.routes[i..], verb, path) == RuleFor(cfg, verb, path)
      {
        var route := cfg.routes[i];
        assert cfg.routes[i..][0] == route && cfg.routes[i..][1..] == cfg.routes[i + 1..];
        if route.verb != "" && route.verb != verb {
          continue;
        }
        if HasPrefix(path, route.prefix) {
          return route.rule, RouteId(route);
        }
      }
      return cfg.fallback, "default";
    }

    method Allow(ruleId: string, ip: string, rule: Rule, now: real) returns (ok: bool)
      modifies this`keyMap
      ensures (keyMap, ok) == AllowStep(old(keyMap), cfg.maxBuckets, ruleId, ip, rule, now)
    {
      if ruleId !in keyMap {
        keyMap := keyMap[ruleId := map[]];
      }
      var ips := keyMap[ruleId];
      if ip !in ips {
        if |ips| >= cfg.maxBuckets {
          assert keyMap == old(keyMap)[ruleId := ips];
          return false;
        }
        ips := ips[ip := Bucket(NewLimiter(rule, now), now)];
      }
      var (limiter, taken) := Take(ips[ip].limiter, now);
      ok := taken;
      keyMap := keyMap[ruleId := ips[ip := Bucket(limiter, now)]];
      assert keyMap[ruleId] == BucketsOf(old(keyMap), ruleId)[ip := Bucket(limiter, now)];
      assert keyMap == old(keyMap)[ruleId := BucketsOf(old(keyMap), ruleId)[ip := Bucket(limiter, now)]];
    }

    /** One request through the middleware. */
    method Admit(verb: string, path: string, ip: string, now: real) returns (ok: bool)
      modifies this`keyMap
      ensures (keyMap, ok) == var (rule, ruleId) := RuleFor(cfg, verb, path);
                              AllowStep(old(keyMap), cfg.maxBuckets, ruleId, ip, rule, now)
    {
      var rule, ruleId := MatchRule(verb, path);
      ok := Allow(ruleId, ip, rule, now);
    }

    /** One rule's buckets, visited in any order. */
    method EvictIps(ips: Buckets, now: real) returns (kept: Buckets)
      ensures kept == KeptIps(ips, cfg.idle, now)
    {
      kept := ips;
      var todo := ips.Keys;
      while todo != {}
        invariant todo <= ips.Keys
        invariant kept == map ip | ip in ips && (ip in todo || !Idle(ips[ip], cfg.idle, now)) :: ips[ip]
        decreases |todo|
      {
        var ip :| ip in todo;
        if Idle(ips[ip], cfg.idle, now) {
          kept := kept - {ip};
        }
        todo := todo - {ip};
      }
    }

    /** A tick of the eviction loop; rules left without buckets go too. */
    method EvictTick(now: real)
      modifies this`keyMap
      ensures keyMap == Evicted(old(keyMap), cfg.idle, now)
    {
      ghost var was := keyMap;
      var todo := keyMap.Keys;
      while todo != {}
        invariant todo <= was.Keys
        invariant forall id :: id in todo ==> id in keyMap && keyMap[id] == was[id]
        invariant forall id :: id in keyMap ==>
                    id in was && (id in todo || keyMap[id] == KeptIps(was[id], cfg.idle, now) != map[])
        invariant forall id :: id in was && id !in todo && KeptIps(was[id], cfg.idle, now) != map[] ==> id in keyMap
        decreases |todo|
      {
        var id :| id in todo;
        var ips := EvictIps(keyMap[id], now);
        if ips == map[] {
          keyMap := keyMap - {id};
        } else {
          keyMap := keyMap[id := ips];
        }
        todo := todo - {id};
      }
    }
  }

  // ---- Which rule decides ----

  /** A route is meant for a request when its method is the request's, or none, and
      the path continues its prefix. */
  ghost predicate MeantFor(route: Route, verb: string, path: string) {
    (route.verb == "" || route.verb == verb) && exists rest: string :: path == route.prefix + rest
  }

  lemma RouteMatchesExactly(route: Route, verb: string, path: string)
    ensures RouteMatches(route, verb, path) <==> MeantFor(route, verb, path)
  {
    if RouteMatches(route, verb, path) {
      assert path == route.prefix + path[|route.prefix|..];
    }
  }

  /** The route that decides is the first that is meant for the request; without
      one, the fallback decides. */
  lemma {:induction false} FirstMatchDecides(cfg: Config, routes: seq<Route>, verb: string, path: string, k: nat)
    requires k <= |routes| && forall i :: 0 <= i < k ==> !MeantFor(routes[i], verb, path)
    requires k < |routes| ==> MeantFor(routes[k], verb, path)
    ensures RuleFrom(cfg, routes, verb, path) ==
            if k < |routes| then (routes[k].rule, routes[k].verb + ":" + routes[k].prefix) else (cfg.fallback, "default")
  {
    if routes != [] {
      RouteMatchesExactly(routes[0], verb, path);
    }
    if k > 0 {
      FirstMatchDecides(cfg, routes[1..], verb, path, k - 1);
    }
  }

  lemma {:induction false} IdsApart(a: string, b: string, c: string, d: string)
    requires ':' !in a && ':' !in c && a + ":" + b == c + ":" + d
    ensures a == c && b == d
  {
    if a == "" || c == "" {
      assert (a + ":" + b)[0] == (c + ":" + d)[0];
      assert a == c;
      assert b == (a + ":" + b)[1..] && d == (c + ":" + d)[1..];
    } else {
      assert (a + ":" + b)[0] == a[0] && (c + ":" + d)[0] == c[0];
      assert (a + ":" + b)[1..] == a[1..] + ":" + b && (c + ":" + d)[1..] == c[1..] + ":" + d;
      IdsApart(a[1..], b, c[1..], d);
      assert a == [a[0]] + a[1..] && c == [c[0]] + c[1..];
    }
  }

  /** Where a rule comes from: the fallback, or a first match. */
  lemma {:induction false} RuleSource(cfg: Config, routes: seq<Route>, verb: string, path: string) returns (k: nat)
    ensures k <= |routes| && forall i :: 0 <= i < k ==> !MeantFor(routes[i], verb, path)
    ensures k < |routes| ==> MeantFor(routes[k], verb, path)
  {
    if routes == [] || MeantFor(routes[0], verb, path) {
      k := 0;
    } else {
      var j := RuleSource(cfg, routes[1..], verb, path);
      k := j + 1;
      assert forall i :: 0 < i < |routes| ==> routes[i] == routes[1..][i - 1];
    }
  }

  /** Requests whose rules have one id share one rule, so a bucket never serves
      two rules. An HTTP method holds no colon. */
  lemma RuleIdDeterminesRule(cfg: Config, verb: string, path: string, verb2: string, path2: string)
    requires ':' !in verb && ':' !in verb2
    requires RuleFor(cfg, verb, path).1 == RuleFor(cfg, verb2, path2).1
    ensures RuleFor(cfg, verb, path).0 == RuleFor(cfg, verb2, path2).0
  {
    var j := RuleSource(cfg, cfg.routes, verb, path);
    var k := RuleSource(cfg, cfg.routes, verb2, path2);
    FirstMatchDecides(cfg, cfg.routes, verb, path, j);
    FirstMatchDecides(cfg, cfg.routes, verb2, path2, k);
    if j < |cfg.routes| && k < |cfg.routes| {
      var a, b := cfg.routes[j], cfg.routes[k];
      IdsApart(a.verb, a.prefix, b.verb, b.prefix);
    } else if j < |cfg.routes| {
      NotDefault(cfg.routes[j]);
    } else if k < |cfg.routes| {
      NotDefault(cfg.routes[k]);
    }
  }

  lemma NotDefault(route: Route)
    ensures RouteId(route) != "default"
  {
    assert RouteId(route)[|route.verb|] == ':';
  }

  /** A tick keeps exactly the buckets used no longer ago than the idle period, as
      they are, and no rule without buckets. */
  lemma KeptExactly(m: KeyMap, idle: real, now: real, id: string, ip: string)
    ensures var after := Evicted(m, idle, now);
            (id in after && ip in after[id] <==> id in m && ip in m[id] && now - m[id][ip].last <= idle) &&
            (id in after && ip in after[id] ==> after[id][ip] == m[id][ip]) &&
            (id in after ==> after[id] != map[])
  {
    if id in m && ip in m[id] && now - m[id][ip].last <= idle {
      assert ip in KeptIps(m[id], idle, now);
    }
  }

  /** A client without a bucket gets one, and one token of it, exactly while its rule
      has room and allows any call at all. */
  lemma NewcomerExactly(m: KeyMap, cap: int, ruleId: string, ip: string, rule: Rule, now: real)
    requires ip !in BucketsOf(m, ruleId)
    ensures var (after, ok) := AllowStep(m, cap, ruleId, ip, rule, now);
            (ok <==> |BucketsOf(m, ruleId)| < cap && rule.burst >= 1) &&
            (ip in BucketsOf(after, ruleId) <==> |BucketsOf(m, ruleId)| < cap) &&
            (ok ==> BucketsOf(after, ruleId)[ip] == Bucket(Limiter(rule, rule.burst as real - 1.0, now), now))
  {
  }
}
