/** Routing of the auth gateway: which backend serves a path, and what is left of
    the path for it. */
module Gateway {
  import opened Lex

  /** The handlers that authenticate for themselves: one gRPC pillar, or one of
      the two edges that serve both gRPC and HTTP. A pillar without a product is
      not gated. */
  datatype Lane = Pillar(product: string) | Cairn(product: string) | Herald

  datatype Target =
    /** A reverse-proxied backend and the product that gates it, if any. */
    | Backend(url: string, product: string)
    /** A handler that owns its own authentication. */
    | GrpcMode(lane: Lane)

  datatype Route = Route(prefix: string, target: Target)

  /** A path's route and the rest of the path. */
  datatype Hit = Hit(route: Route, rest: string)

  datatype Config = Config(
    publicPaths: seq<string>, routes: map<string, string>, products: map<string, string>, handlers: map<string, Lane>)

  /** Without trailing slashes. */
  function TrimRight(s: string): (t: string)
    ensures t <= s && (t == "" || t[|t| - 1] != '/')
    ensures forall i :: |t| <= i < |s| ==> s[i] == '/'
  {
    if s != "" && s[|s| - 1] == '/' then TrimRight(s[..|s| - 1]) else s
  }

  /** The prefix ends where a segment of the path ends. */
  predicate Covers(prefix: string, path: string) {
    path == prefix || prefix + "/" <= path
  }

  function Rest(prefix: string, path: string): string
    requires prefix <= path
  {
    if path == prefix then "/" else path[|prefix|..]
  }

  function FirstMatch(routes: seq<Route>, path: string): Option<Hit> {
    if routes == [] then None
    else if Covers(routes[0].prefix, path) then Some(Hit(routes[0], Rest(routes[0].prefix, path)))
    else FirstMatch(routes[1..], path)
  }

  predicate LongestFirst(routes: seq<Route>) {
    forall i, j :: 0 <= i < j < |routes| ==> |routes[i].prefix| >= |routes[j].prefix|
  }

  predicate IsPublic(exact: set<string>, prefixes: seq<string>, path: string) {
    path in exact || exists p :: p in prefixes && p <= path
  }

  function ProxyRoute(cfg: Config, parse: string -> Option<string>, key: string): Route
    requires key in cfg.routes && parse(cfg.routes[key]).Some?
  {
    var p := TrimRight(key);
    Route(p, Backend(parse(cfg.routes[key]).value, if p in cfg.products then cfg.products[p] else ""))
  }

  function HandlerRoute(cfg: Config, key: string): Route
    requires key in cfg.handlers
  {
    Route(TrimRight(key), GrpcMode(cfg.handlers[key]))
  }

  predicate Parses(cfg: Config, parse: string -> Option<string>) {
    forall key :: key in cfg.routes ==> parse(cfg.routes[key]).Some?
  }

  function ProxyRoutes(cfg: Config, parse: string -> Option<string>, keys: set<string>): set<Route>
    requires keys <= cfg.routes.Keys && forall key :: key in keys ==> parse(cfg.routes[key]).Some?
  {
    set key | key in keys :: ProxyRoute(cfg, parse, key)
  }

  function HandlerRoutes(cfg: Config, keys: set<string>): set<Route>
    requires keys <= cfg.handlers.Keys
  {
    set key | key in keys :: HandlerRoute(cfg, key)
  }

  function Members(routes: seq<Route>): set<Route> {
    set r | r in routes
  }

  lemma MembersAppend(routes: seq<Route>, r: Route)
    ensures Members(routes + [r]) == Members(routes) + {r}
  {
  }

  lemma ProxyOneMore(cfg: Config, parse: string -> Option<string>, done: set<string>, key: string)
    requires done + {key} <= cfg.routes.Keys && forall k :: k in done + {key} ==> parse(cfg.routes[k]).Some?
    ensures ProxyRoutes(cfg, parse, done + {key}) == ProxyRoutes(cfg, parse, done) + {ProxyRoute(cfg, parse, key)}
  {
  }

  lemma HandlerOneMore(cfg: Config, done: set<string>, key: string)
    requires done + {key} <= cfg.handlers.Keys
    ensures HandlerRoutes(cfg, done + {key}) == HandlerRoutes(cfg, done) + {HandlerRoute(cfg, key)}
  {
  }

  lemma TakeOut(routes: seq<Route>, k: nat)
    requires k < |routes|
    ensures var rest := routes[..k] + routes[k + 1..];
            multiset(routes) == multiset{routes[k]} + multiset(rest) && forall r :: r in rest ==> r in routes
  {
    assert routes == routes[..k] + [routes[k]] + routes[k + 1..];
  }

  predicate AllLonger(longer: seq<Route>, shorter: seq<Route>) {
    forall a, b :: a in longer && b in shorter ==> |a.prefix| >= |b.prefix|
  }

  lemma AppendLongest(sorted: seq<Route>, r: Route)
    requires LongestFirst(sorted) && AllLonger(sorted, [r])
    ensures LongestFirst(sorted + [r])
  {
    assert r in [r];
    forall i, j | 0 <= i < j < |sorted + [r]|
      ensures |(sorted + [r])[i].prefix| >= |(sorted + [r])[j].prefix|
    {
      assert sorted[i] in sorted;
    }
  }

  /** Any result that a sort by length may give: it promises no order among
      prefixes of equal length. */
  method SortLongestFirst(routes: seq<Route>) returns (sorted: seq<Route>)
    ensures LongestFirst(sorted) && multiset(sorted) == multiset(routes)
  {
    var left := routes;
    sorted := [];
    while left != []
      invariant multiset(sorted) + multiset(left) == multiset(routes)
      invariant LongestFirst(sorted) && AllLonger(sorted, left)
      decreases |left|
    {
      ghost var top := Longest(left);
      var k :| 0 <= k < |left| && forall j :: 0 <= j < |left| ==> |left[j].prefix| <= |left[k].prefix|;
      assert forall b :: b in left ==> |b.prefix| <= |left[k].prefix|;
      TakeOut(left, k);
      AppendLongest(sorted, left[k]);
      sorted := sorted + [left[k]];
      left := left[..k] + left[k + 1..];
    }
  }

  lemma {:induction false} Longest(routes: seq<Route>) returns (k: nat)
    requires routes != []
    ensures k < |routes| && forall j :: 0 <= j < |routes| ==> |routes[j].prefix| <= |routes[k].prefix|
  {
    if |routes| == 1 {
      k := 0;
    } else {
      var m := Longest(routes[1..]);
      assert forall j :: 0 < j < |routes| ==> routes[j] == routes[1..][j - 1];
      k := if |routes[0].prefix| > |routes[m + 1].prefix| then 0 else m + 1;
    }
  }

  class Router {
    var routes: seq<Route>
    var publicEx: set<string>
    var publicPx: seq<string>

    constructor ()
      ensures routes == [] && publicEx == {} && publicPx == []
    {
      routes, publicEx, publicPx := [], {}, [];
    }

    method AddPublic(paths: seq<string>)
      modifies this`publicEx, this`publicPx
      ensures forall path :: IsPublic(publicEx, publicPx, path) <==>
                old(IsPublic(publicEx, publicPx, path)) || ListedPublic(paths, path)
    {
      for i := 0 to |paths|
        invariant forall path :: IsPublic(publicEx, publicPx, path) <==>
                    old(IsPublic(publicEx, publicPx, path)) || ListedPublic(paths[..i], path)
      {
        label before:
        var p := TrimSpace(paths[i]);
        assert paths[..i + 1] == paths[..i] + [paths[i]];
        if p != "" {
          if p[|p| - 1] == '/' {
            publicPx := publicPx + [p];
          } else {
            publicEx := publicEx + {p};
          }
        }
        forall path
          ensures IsPublic(publicEx, publicPx, path) <==> old@before(IsPublic(publicEx, publicPx, path)) || Publishes(paths[i], path)
        {
          OnePublicPath(old@before(publicEx), old@before(publicPx), paths[i], path);
        }
        forall path
          ensures ListedPublic(paths[..i + 1], path) <==> ListedPublic(paths[..i], path) || Publishes(paths[i], path)
        {
          ListedOneMore(paths, i, path);
        }
      }
      assert paths[..|paths|] == paths;
    }

    /** The reverse-proxied routes in some order, unless an address does not parse. */
    method AddProxies(cfg: Config, parse: string -> Option<string>) returns (ok: bool)
      requires routes == []
      modifies this`routes
      ensures ok <==> Parses(cfg, parse)
      ensures ok ==> |routes| == |cfg.routes| && Members(routes) == ProxyRoutes(cfg, parse, cfg.routes.Keys)
    {
      var todo := cfg.routes.Keys;
      while todo != {}
        invariant todo <= cfg.routes.Keys
        invariant forall key :: key in cfg.routes.Keys - todo ==> parse(cfg.routes[key]).Some?
        invariant Members(routes) == ProxyRoutes(cfg, parse, cfg.routes.Keys - todo)
        invariant |routes| + |todo| == |cfg.routes|
        decreases |todo|
      {
        var key :| key in todo;
        if parse(cfg.routes[key]).None? {
          return false;
        }
        assert cfg.routes.Keys - (todo - {key}) == cfg.routes.Keys - todo + {key};
        ProxyOneMore(cfg, parse, cfg.routes.Keys - todo, key);
        MembersAppend(routes, ProxyRoute(cfg, parse, key));
        todo := todo - {key};
        routes := routes + [ProxyRoute(cfg, parse, key)];
      }
      ok := true;
    }

    method AddHandlers(cfg: Config)
      modifies this`routes
      ensures |routes| == |old(routes)| + |cfg.handlers|
      ensures Members(routes) == Members(old(routes)) + HandlerRoutes(cfg, cfg.handlers.Keys)
    {
      var todo := cfg.handlers.Keys;
      while todo != {}
        invariant todo <= cfg.handlers.Keys
        invariant Members(routes) == Members(old(routes)) + HandlerRoutes(cfg, cfg.handlers.Keys - todo)
        invariant |routes| + |todo| == |old(routes)| + |cfg.handlers|
        decreases |todo|
      {
        var key :| key in todo;
        assert cfg.handlers.Keys - (todo - {key}) == cfg.handlers.Keys - todo + {key};
        HandlerOneMore(cfg, cfg.handlers.Keys - todo, key);
        MembersAppend(routes, HandlerRoute(cfg, key));
        todo := todo - {key};
        routes := routes + [HandlerRoute(cfg, key)];
      }
    }

    /** Registers every route in some order and sorts; fails exactly when nobody
        could verify tokens or a backend address does not parse. */
    method Configure(cfg: Config, parse: string -> Option<string>, bypass: bool, hasVerifier: bool) returns (ok: bool)
      requires routes == []
      modifies this`routes
      ensures ok <==> (bypass || hasVerifier) && Parses(cfg, parse)
      ensures ok ==> LongestFirst(routes) && |routes| == |cfg.routes| + |cfg.handlers|
      ensures ok ==> Members(routes) == ProxyRoutes(cfg, parse, cfg.routes.Keys) + HandlerRoutes(cfg, cfg.handlers.Keys)
    {
      if !bypass && !hasVerifier {
        return false;
      }
      ok := AddProxies(cfg, parse);
      if ok {
        AddHandlers(cfg);
        ghost var unsorted := routes;
        routes := SortLongestFirst(routes);
        SameMembers(routes, unsorted);
      }
    }

    method Match(path: string) returns (hit: Option<Hit>)
      ensures hit == FirstMatch(routes, path)
    {
      for i := 0 to |routes|
        invariant FirstMatch(routes[i..], path) == FirstMatch(routes, path)
      {
        assert routes[i..][0] == routes[i] && routes[i..][1..] == routes[i + 1..];
        if path == routes[i].prefix || routes[i].prefix + "/" <= path {
          var rest := path[|routes[i].prefix|..];
          if rest == "" {
            rest := "/";
          }
          return Some(Hit(routes[i], rest));
        }
      }
      return None;
    }

    method CheckPublic(path: string) returns (yes: bool)
      ensures yes <==> IsPublic(publicEx, publicPx, path)
    {
      if path in publicEx {
        return true;
      }
      for i := 0 to |publicPx|
        invariant forall j :: 0 <= j < i ==> !(publicPx[j] <= path)
      {
        if publicPx[i] <= path {
          assert publicPx[i] in publicPx;
          return true;
        }
      }
      return false;
    }
  }

  lemma SameMembers(a: seq<Route>, b: seq<Route>)
    requires multiset(a) == multiset(b)
    ensures |a| == |b| && forall r :: r in a <==> r in b
  {
    assert |multiset(a)| == |a| && |multiset(b)| == |b|;
    assert forall r :: r in a <==> r in multiset(a);
    assert forall r :: r in b <==> r in multiset(b);
  }

  /** Unicode white space. */
  predicate IsSpace(c: char) {
    var n := c as int;
    n == 0x20 || 9 <= n <= 13 || n == 0x85 || n == 0xA0 || n == 0x1680 || 0x2000 <= n <= 0x200A ||
    n == 0x2028 || n == 0x2029 || n == 0x202F || n == 0x205F || n == 0x3000
  }

  function TrimSpace(s: string): string {
    if s != "" && IsSpace(s[0]) then TrimSpace(s[1..])
    else if s != "" && IsSpace(s[|s| - 1]) then TrimSpace(s[..|s| - 1])
    else s
  }

  /** What one configured entry makes public: everything below it if it ends in a
      slash, else exactly itself. */
  predicate Publishes(entry: string, path: string) {
    var p := TrimSpace(entry);
    p != "" && if p[|p| - 1] == '/' then p <= path else path == p
  }

  predicate ListedPublic(entries: seq<string>, path: string) {
    exists i :: 0 <= i < |entries| && Publishes(entries[i], path)
  }

  lemma OnePublicPath(exact: set<string>, prefixes: seq<string>, entry: string, path: string)
    ensures var p := TrimSpace(entry);
            (p != "" && p[|p| - 1] == '/' ==>
               (IsPublic(exact, prefixes + [p], path) <==> IsPublic(exact, prefixes, path) || Publishes(entry, path))) &&
            (p != "" && p[|p| - 1] != '/' ==>
               (IsPublic(exact + {p}, prefixes, path) <==> IsPublic(exact, prefixes, path) || Publishes(entry, path))) &&
            (p == "" ==> !Publishes(entry, path))
  {
    PrefixOneMore(prefixes, TrimSpace(entry), path);
  }

  lemma PrefixOneMore(prefixes: seq<string>, p: string, path: string)
    ensures (exists q :: q in prefixes + [p] && q <= path) <==> (exists q :: q in prefixes && q <= path) || p <= path
  {
    assert p in prefixes + [p];
    if exists q :: q in prefixes && q <= path {
      var q :| q in prefixes && q <= path;
      assert q in prefixes + [p];
    }
    if exists q :: q in prefixes + [p] && q <= path {
      var q :| q in prefixes + [p] && q <= path;
      assert q in prefixes || q == p;
    }
  }

  lemma ListedOneMore(entries: seq<string>, i: nat, path: string)
    requires i < |entries|
    ensures ListedPublic(entries[..i + 1], path) <==> ListedPublic(entries[..i], path) || Publishes(entries[i], path)
  {
    if ListedPublic(entries[..i], path) {
      var j :| 0 <= j < i && Publishes(entries[..i][j], path);
      assert entries[..i + 1][j] == entries[..i][j];
    }
    if ListedPublic(entries[..i + 1], path) && !Publishes(entries[i], path) {
      var j :| 0 <= j < i + 1 && Publishes(entries[..i + 1][j], path);
      assert entries[..i][j] == entries[..i + 1][j];
    }
    if Publishes(entries[i], path) {
      assert entries[..i + 1][i] == entries[i];
    }
  }

  // ---- The longest prefix wins ----

  /** A hit is a route of the table that covers the path, none that covers it is
      longer, and no hit means that none covers it. */
  lemma {:induction false} HitIsLongest(routes: seq<Route>, path: string)
    requires LongestFirst(routes)
    ensures var hit := FirstMatch(routes, path);
            if hit.None? then forall r :: r in routes ==> !Covers(r.prefix, path)
            else hit.value.route in routes && Covers(hit.value.route.prefix, path) &&
                 forall r :: r in routes && Covers(r.prefix, path) ==> |r.prefix| <= |hit.value.route.prefix|
  {
    if routes != [] {
      assert forall r :: r in routes <==> r == routes[0] || r in routes[1..];
      if !Covers(routes[0].prefix, path) {
        HitIsLongest(routes[1..], path);
      }
    }
  }

  /** The rest of a path starts with a slash and completes the prefix, unless the
      path is the prefix. */
  lemma {:induction false} RestCompletes(routes: seq<Route>, path: string)
    requires FirstMatch(routes, path).Some?
    ensures var Hit(route, rest) := FirstMatch(routes, path).value;
            rest != "" && rest[0] == '/' &&
            (if path == route.prefix then rest == "/" else route.prefix + rest == path)
  {
    if Covers(routes[0].prefix, path) {
      var p := routes[0].prefix;
      if path != p {
        assert path[|p|] == (p + "/")[|p|];
      }
    } else {
      RestCompletes(routes[1..], path);
    }
  }

  /** One prefix, one route. */
  predicate Distinct(routes: seq<Route>) {
    forall a, b :: a in routes && b in routes && a.prefix == b.prefix ==> a == b
  }

  lemma CoversSameLength(p: string, q: string, path: string)
    requires Covers(p, path) && Covers(q, path) && |p| == |q|
    ensures p == q
  {
    assert p == path[..|p|] && q == path[..|q|];
  }

  /** Any two tables with the same distinct routes answer alike, in whatever order
      they were registered and sorted. */
  lemma OrderIrrelevant(rs: seq<Route>, qs: seq<Route>, path: string)
    requires LongestFirst(rs) && LongestFirst(qs) && Distinct(rs) && forall r :: r in rs <==> r in qs
    ensures FirstMatch(rs, path) == FirstMatch(qs, path)
  {
    HitIsLongest(rs, path);
    HitIsLongest(qs, path);
    FirstMatchRest(rs, path);
    FirstMatchRest(qs, path);
    var a, b := FirstMatch(rs, path), FirstMatch(qs, path);
    if a.Some? && b.Some? {
      CoversSameLength(a.value.route.prefix, b.value.route.prefix, path);
    }
  }

  lemma {:induction false} FirstMatchRest(routes: seq<Route>, path: string)
    ensures var hit := FirstMatch(routes, path);
            hit.Some? ==> Covers(hit.value.route.prefix, path) && hit.value.rest == Rest(hit.value.route.prefix, path)
  {
    if routes != [] && !Covers(routes[0].prefix, path) {
      FirstMatchRest(routes[1..], path);
    }
  }

  /** The first route with a prefix is the one that the prefix, as a path, hits. */
  lemma {:induction false} FirstAt(routes: seq<Route>, i: nat)
    requires LongestFirst(routes) && i < |routes|
    requires forall j :: 0 <= j < i ==> routes[j].prefix != routes[i].prefix
    ensures FirstMatch(routes, routes[i].prefix) == Some(Hit(routes[i], "/"))
  {
    if i > 0 {
      var p := routes[i].prefix;
      assert !Covers(routes[0].prefix, p) by {
        assert |routes[0].prefix| >= |p|;
      }
      FirstAt(routes[1..], i - 1);
    }
  }

  function Swapped(routes: seq<Route>, i: nat, j: nat): seq<Route>
    requires i < |routes| && j < |routes|
  {
    routes[i := routes[j]][j := routes[i]]
  }

  lemma SwapKeeps(routes: seq<Route>, i: nat, j: nat)
    requires i < |routes| && j < |routes|
    ensures multiset(Swapped(routes, i, j)) == multiset(routes)
  {
  }

  lemma {:induction false} FirstWith(routes: seq<Route>, p: string) returns (i: nat)
    requires exists r :: r in routes && r.prefix == p
    ensures i < |routes| && routes[i].prefix == p && forall j :: 0 <= j < i ==> routes[j].prefix != p
  {
    if routes[0].prefix == p {
      i := 0;
    } else {
      assert forall r :: r in routes <==> r == routes[0] || r in routes[1..];
      var k := FirstWith(routes[1..], p);
      i := k + 1;
    }
  }

  lemma SwapDistinguishes(routes: seq<Route>, i: nat, j: nat)
    requires LongestFirst(routes) && i < |routes| && j < |routes| && routes[i].prefix == routes[j].prefix && routes[i] != routes[j]
    requires forall k :: 0 <= k < i ==> routes[k].prefix != routes[i].prefix
    ensures LongestFirst(Swapped(routes, i, j))
    ensures FirstMatch(Swapped(routes, i, j), routes[i].prefix) != FirstMatch(routes, routes[i].prefix)
  {
    var other := Swapped(routes, i, j);
    assert i < j;
    assert forall k :: 0 <= k < |routes| ==> other[k].prefix == routes[k].prefix;
    FirstAt(routes, i);
    FirstAt(other, i);
  }

  /** Two orders of one table that a sort may produce and a path that tells them
      apart, when two routes share a prefix. */
  lemma SharedPrefixMatters(routes: seq<Route>) returns (other: seq<Route>, path: string)
    requires LongestFirst(routes) && !Distinct(routes)
    ensures LongestFirst(other) && multiset(other) == multiset(routes)
    ensures FirstMatch(other, path) != FirstMatch(routes, path)
  {
    var a, b :| a in routes && b in routes && a.prefix == b.prefix && a != b;
    path := a.prefix;
    var i := FirstWith(routes, path);
    var r := if routes[i] == a then b else a;
    var j :| 0 <= j < |routes| && routes[j] == r;
    other := Swapped(routes, i, j);
    SwapKeeps(routes, i, j);
    SwapDistinguishes(routes, i, j);
  }

  /** Every sort of the table answers every path alike. */
  ghost predicate OrderFree(routes: seq<Route>) {
    forall other, path :: LongestFirst(other) && multiset(other) == multiset(routes) ==>
                            FirstMatch(other, path) == FirstMatch(routes, path)
  }

  /** Routing does not depend on map order or on the sort exactly when no two
      different routes have the same trimmed prefix. */
  lemma OrderFreeExactly(routes: seq<Route>)
    requires LongestFirst(routes)
    ensures OrderFree(routes) <==> Distinct(routes)
  {
    if Distinct(routes) {
      forall other, path | LongestFirst(other) && multiset(other) == multiset(routes)
        ensures FirstMatch(other, path) == FirstMatch(routes, path)
      {
        SameMembers(other, routes);
        OrderIrrelevant(routes, other, path);
      }
    } else {
      var other, path := SharedPrefixMatters(routes);
    }
  }

  // ---- The parts of the table, said without its functions ----

  /** A route covers its own prefix and everything below it. */
  lemma CoversExactly(prefix: string, path: string)
    ensures Covers(prefix, path) <==> path == prefix || exists tail: string :: path == prefix + "/" + tail
  {
    if prefix + "/" <= path {
      assert path == prefix + "/" + path[|prefix| + 1..];
    }
  }

  predicate Slashes(s: string) {
    forall i :: 0 <= i < |s| ==> s[i] == '/'
  }

  /** A key is its trimmed prefix and slashes; there is one such prefix. */
  lemma {:induction false} TrimRightExactly(p: string, slashes: string)
    requires Slashes(slashes) && (p == "" || p[|p| - 1] != '/')
    ensures TrimRight(p + slashes) == p
  {
    if slashes != "" {
      assert (p + slashes)[..|p + slashes| - 1] == p + slashes[..|slashes| - 1];
      TrimRightExactly(p, slashes[..|slashes| - 1]);
    } else {
      assert p + slashes == p;
    }
  }

  /** A configured backend is gated by the product listed under its trimmed prefix,
      and by none if none is listed. */
  lemma ProxyRouteExactly(cfg: Config, parse: string -> Option<string>, p: string, slashes: string)
    requires Slashes(slashes) && (p == "" || p[|p| - 1] != '/')
    requires p + slashes in cfg.routes && parse(cfg.routes[p + slashes]).Some?
    ensures var r := ProxyRoute(cfg, parse, p + slashes);
            r.prefix == p && r.target.Backend? && Some(r.target.url) == parse(cfg.routes[p + slashes]) &&
            (p in cfg.products ==> r.target.product == cfg.products[p]) && (p !in cfg.products ==> r.target.product == "")
  {
    TrimRightExactly(p, slashes);
  }

  lemma HandlerRouteExactly(cfg: Config, p: string, slashes: string)
    requires Slashes(slashes) && (p == "" || p[|p| - 1] != '/') && p + slashes in cfg.handlers
    ensures HandlerRoute(cfg, p + slashes) == Route(p, GrpcMode(cfg.handlers[p + slashes]))
  {
    TrimRightExactly(p, slashes);
  }

  predicate Spaces(s: string) {
    forall i :: 0 <= i < |s| ==> IsSpace(s[i])
  }

  /** Text that neither starts nor ends in white space. */
  predicate Tight(p: string) {
    p != "" ==> !IsSpace(p[0]) && !IsSpace(p[|p| - 1])
  }

  lemma {:induction false} TrimSpaceExactly(front: string, p: string, back: string)
    requires Spaces(front) && Tight(p) && Spaces(back)
    ensures TrimSpace(front + p + back) == p
  {
    var s := front + p + back;
    if front != "" {
      assert s[1..] == front[1..] + p + back;
      TrimSpaceExactly(front[1..], p, back);
    } else if p == "" {
      assert s == back;
      if back != "" {
        assert back[1..] == "" + p + back[1..];
        TrimSpaceExactly("", p, back[1..]);
      }
    } else if back != "" {
      assert s[0] == p[0] && s[..|s| - 1] == "" + p + back[..|back| - 1];
      TrimSpaceExactly("", p, back[..|back| - 1]);
    } else {
      assert s == p;
    }
  }

  /** What an entry publishes, whatever white space stands around it: all that
      continues it if it ends in a slash, else itself. */
  lemma PublishesExactly(front: string, p: string, back: string, path: string)
    requires Spaces(front) && Tight(p) && Spaces(back)
    ensures Publishes(front + p + back, path) <==>
            p != "" && if p[|p| - 1] == '/' then (exists tail: string :: path == p + tail) else path == p
  {
    TrimSpaceExactly(front, p, back);
    if p <= path {
      assert path == p + path[|p|..];
    }
  }

  /** The 25 characters with the Unicode property White_Space. */
  lemma SpacesAre(c: char)
    ensures IsSpace(c) <==>
            c as int in {0x09, 0x0A, 0x0B, 0x0C, 0x0D, 0x20, 0x85, 0xA0, 0x1680, 0x2000, 0x2001, 0x2002, 0x2003, 0x2004, 0x2005,
                         0x2006, 0x2007, 0x2008, 0x2009, 0x200A, 0x2028, 0x2029, 0x202F, 0x205F, 0x3000}
  {
  }
}
