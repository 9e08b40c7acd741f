/** Identity injection: what a backend is told about the caller, on every lane of
    the gateway, and that no client header has a say in it. */
module Identity {
  import opened Lex
  import opened Gateway

  datatype Identity = Identity(
    subject: string, kind: string, org: string, responsibleHuman: string,
    scopes: seq<string>, products: seq<string>, audience: seq<string>)

  const NOBODY: Identity := Identity("", "", "", "", [], [], [])

  /** Token to identity, or no verifier at all. */
  type Verifier = Option<string -> Option<Identity>>

  /** Header values by canonical name. */
  type Headers = map<string, seq<string>>

  // ---- Header names ----

  function Upper(c: char): char {
    if 'a' <= c <= 'z' then (c as int - 32) as char else c
  }

  function Lower(c: char): char {
    if 'A' <= c <= 'Z' then (c as int + 32) as char else c
  }

  function Canonical(s: string, wordStart: bool): string {
    if s == "" then ""
    else [if wordStart then Upper(s[0]) else Lower(s[0])] + Canonical(s[1..], s[0] == '-')
  }

  /** The spelling under which a header name is stored and looked up. */
  function CanonicalKey(name: string): string {
    Canonical(name, true)
  }

  predicate SameName(a: string, b: string) {
    |a| == |b| && forall i :: 0 <= i < |a| ==> Lower(a[i]) == Lower(b[i])
  }

  datatype Field = Org | Subject | Kind | Scopes | Products | Human

  function HttpName(f: Field): string {
    match f
    case Org => "X-CWB-Org"
    case Subject => "X-CWB-Subject"
    case Kind => "X-CWB-Kind"
    case Scopes => "X-CWB-Scopes"
    case Products => "X-CWB-Products"
    case Human => "X-CWB-Responsible-Human"
  }

  function MetaName(f: Field): string {
    match f
    case Org => "cwb-org"
    case Subject => "cwb-subject"
    case Kind => "cwb-kind"
    case Scopes => "cwb-scopes"
    case Products => "cwb-products"
    case Human => "cwb-responsible-human"
  }

  function HttpKey(f: Field): string {
    CanonicalKey(HttpName(f))
  }

  function MetaKey(f: Field): string {
    CanonicalKey(MetaName(f))
  }

  /** gRPC metadata travels over HTTP under this prefix. */
  function GrpcKey(f: Field): string {
    CanonicalKey("Grpc-Metadata-" + MetaName(f))
  }

  const TRUSTED: seq<Field> := [Org, Subject, Kind, Scopes, Human, Products]
  const FIELDS: seq<Field> := [Org, Subject, Kind, Scopes, Products, Human]

  function HttpKeys(): set<string> {
    set f: Field | true :: HttpKey(f)
  }

  function MetaKeys(): set<string> {
    (set f: Field | true :: MetaKey(f)) + (set f: Field | true :: GrpcKey(f))
  }

  lemma {:induction false} CanonicalShape(s: string, wordStart: bool)
    ensures |Canonical(s, wordStart)| == |s|
    ensures s != "" ==> Canonical(s, wordStart)[0] == if wordStart then Upper(s[0]) else Lower(s[0])
  {
    if s != "" {
      CanonicalShape(s[1..], s[0] == '-');
    }
  }

  /** The six HTTP names stay apart: no two have the same length. */
  lemma HttpKeysApart(f: Field, g: Field)
    ensures HttpKey(f) == HttpKey(g) <==> f == g
  {
    CanonicalShape(HttpName(f), true);
    CanonicalShape(HttpName(g), true);
  }

  predicate StartsWith(s: string, c: char) {
    s != "" && s[0] == c
  }

  lemma KeyStarts(name: string)
    requires name != ""
    ensures StartsWith(CanonicalKey(name), Upper(name[0]))
  {
    CanonicalShape(name, true);
  }

  lemma HttpKeyStarts(f: Field)
    ensures StartsWith(HttpKey(f), 'X')
  {
    assert StartsWith(HttpName(f), 'X');
    KeyStarts(HttpName(f));
  }

  lemma MetaKeyStarts(f: Field)
    ensures StartsWith(MetaKey(f), 'C')
  {
    assert StartsWith(MetaName(f), 'c');
    KeyStarts(MetaName(f));
  }

  lemma GrpcKeyStarts(f: Field)
    ensures StartsWith(GrpcKey(f), 'G')
  {
    GrpcNameStarts(MetaName(f));
    KeyStarts("Grpc-Metadata-" + MetaName(f));
  }

  lemma GrpcNameStarts(name: string)
    ensures StartsWith("Grpc-Metadata-" + name, 'G')
  {
  }

  lemma AuthorizationStarts()
    ensures StartsWith(CanonicalKey("Authorization"), 'A')
  {
    KeyStarts("Authorization");
  }

  /** Stripping never takes the token away. */
  lemma StartsApart(key: string)
    requires StartsWith(key, 'A')
    ensures key !in HttpKeys() + MetaKeys()
  {
    forall f: Field
      ensures key != HttpKey(f) && key != MetaKey(f) && key != GrpcKey(f)
    {
      HttpKeyStarts(f);
      MetaKeyStarts(f);
      GrpcKeyStarts(f);
    }
  }

  /** One stored name for every spelling, and only for those. */
  lemma {:induction false} SpellingsShareKey(a: string, b: string, wordStart: bool)
    ensures Canonical(a, wordStart) == Canonical(b, wordStart) <==> SameName(a, b)
  {
    CanonicalShape(a, wordStart);
    CanonicalShape(b, wordStart);
    if a != "" && b != "" {
      var restA, restB := Canonical(a[1..], a[0] == '-'), Canonical(b[1..], b[0] == '-');
      assert Canonical(a, wordStart)[1..] == restA && Canonical(b, wordStart)[1..] == restB;
      assert Canonical(a, wordStart)[0] == Canonical(b, wordStart)[0] <==> Lower(a[0]) == Lower(b[0]);
      if Lower(a[0]) == Lower(b[0]) {
        assert a[0] == '-' <==> b[0] == '-';
        SpellingsShareKey(a[1..], b[1..], a[0] == '-');
        assert SameName(a, b) <==> SameName(a[1..], b[1..]) by {
          if SameName(a, b) {
            assert forall i :: 0 <= i < |a| - 1 ==> a[1..][i] == a[i + 1] && b[1..][i] == b[i + 1];
          }
          if SameName(a[1..], b[1..]) {
            assert forall i :: 0 < i < |a| ==> a[i] == a[1..][i - 1] && b[i] == b[1..][i - 1];
          }
        }
      }
    }
  }

  // ---- Headers ----

  function Get(h: Headers, name: string): string {
    var key := CanonicalKey(name);
    if key in h && h[key] != [] then h[key][0] else ""
  }

  function JoinWords(words: seq<string>): string {
    if words == [] then ""
    else if |words| == 1 then words[0]
    else words[0] + " " + JoinWords(words[1..])
  }

  /** A field as header text. */
  function Text(id: Identity, f: Field): string {
    match f
    case Org => id.org
    case Subject => id.subject
    case Kind => id.kind
    case Scopes => JoinWords(id.scopes)
    case Products => JoinWords(id.products)
    case Human => id.responsibleHuman
  }

  /** The human is only named when there is one. */
  predicate Named(id: Identity, f: Field) {
    f == Human ==> id.responsibleHuman != ""
  }

  /** Five fields always, the human only when named, each under its key. */
  function WithFields(h: Headers, key: Field -> string, id: Identity): Headers {
    var five := h[key(Org) := [Text(id, Org)]][key(Subject) := [Text(id, Subject)]][key(Kind) := [Text(id, Kind)]]
                 [key(Scopes) := [Text(id, Scopes)]][key(Products) := [Text(id, Products)]];
    if Named(id, Human) then five[key(Human) := [Text(id, Human)]] else five
  }

  function WithIdentity(h: Headers, id: Identity): Headers {
    WithFields(h, HttpKey, id)
  }

  ghost predicate CarriedUnder(h: Headers, key: Field -> string, id: Option<Identity>) {
    forall f: Field ::
      if id.Some? && Named(id.value, f) then key(f) in h && h[key(f)] == [Text(id.value, f)] else key(f) !in h
  }

  /** The HTTP backend is told exactly this identity, or none. */
  ghost predicate HttpCarries(h: Headers, id: Option<Identity>) {
    CarriedUnder(h, HttpKey, id)
  }

  /** What the metadata annotator emits for a stashed identity. */
  function Annotated(id: Identity, f: Field): seq<string> {
    if (f == Scopes && id.scopes == []) || (f == Products && id.products == []) || !Named(id, f) then [] else [Text(id, f)]
  }

  /** The metadata a gRPC backend receives: client headers under the metadata
      prefix, joined with the annotator's values. */
  function Metadata(h: Headers, id: Identity, f: Field): seq<string> {
    (if GrpcKey(f) in h then h[GrpcKey(f)] else []) + Annotated(id, f)
  }

  ghost predicate GrpcCarries(h: Headers, id: Identity) {
    forall f: Field :: Metadata(h, id, f) == Annotated(id, f)
  }

  // ---- Decisions ----

  /** "Bearer " in any case, then the token. */
  function Bearer(h: Headers): string {
    var text := Get(h, "Authorization");
    if |text| > 7 && SameName(text[..7], "Bearer ") then text[7..] else ""
  }

  datatype Auth = NoToken | BadToken | Caller(id: Identity)

  /** Without a verifier every token stands for nobody in particular. */
  function Authenticate(v: Verifier, h: Headers): Auth {
    if Bearer(h) == "" then NoToken
    else if v.None? then Caller(NOBODY)
    else
      var id := v.value(Bearer(h));
      if id.None? then BadToken else Caller(id.value)
  }

  predicate AudienceOk(id: Identity, product: string) {
    product == "" || id.audience == [] || product in id.audience
  }

  datatype Outcome =
    | Answered(status: nat)
    | ToHttp(httpPath: string, httpHeaders: Headers)
    | ToGrpc(grpcPath: string, grpcHeaders: Headers, identity: Identity)

  /** The reverse-proxy lane: strip, verify unless bypassed or public, inject, and
      only then ask for the product. */
  function ProxyLane(v: Verifier, open: bool, product: string, rest: string, h: Headers): Outcome {
    if open then ToHttp(rest, h - HttpKeys()) else ProxyForward(Authenticate(v, h - HttpKeys()), product, rest, h - HttpKeys())
  }

  function ProxyForward(auth: Auth, product: string, rest: string, h: Headers): Outcome {
    if !auth.Caller? then Answered(401)
    else if product != "" && product !in auth.id.products then Answered(403)
    else ToHttp(rest, WithIdentity(h, auth.id))
  }

  function PillarLane(v: Verifier, product: string, path: string, h: Headers): Outcome {
    PillarForward(Authenticate(v, h), product, path, h - MetaKeys())
  }

  function PillarForward(auth: Auth, product: string, path: string, h: Headers): Outcome {
    if !auth.Caller? then Answered(401)
    else if product != "" && product !in auth.id.products then Answered(403)
    else if !AudienceOk(auth.id, product) then Answered(403)
    else ToGrpc(path, h, auth.id)
  }

  function CairnLane(v: Verifier, product: string, path: string, h: Headers): Outcome {
    CairnForward(Authenticate(v, h), product, path, h - MetaKeys() - HttpKeys())
  }

  function CairnForward(auth: Auth, product: string, path: string, h: Headers): Outcome {
    if !auth.Caller? then Answered(401)
    else if product !in auth.id.products || !AudienceOk(auth.id, product) then Answered(403)
    else if "/api/" <= path then ToGrpc(path, h, auth.id)
    else ToHttp(path, WithIdentity(h, auth.id))
  }

  predicate IsAdmin(path: string) {
    "/api/orgs" <= path || "/api/humans/" <= path || path == "/api/me"
  }

  function HeraldLane(v: Verifier, path: string, h: Headers): Outcome {
    if !IsAdmin(path) then ToHttp(path, h - MetaKeys() - HttpKeys())
    else HeraldForward(Authenticate(v, h), path, h - MetaKeys() - HttpKeys())
  }

  function HeraldForward(auth: Auth, path: string, h: Headers): Outcome {
    if auth.Caller? then ToGrpc(path, h, auth.id) else Answered(401)
  }

  function LaneOutcome(v: Verifier, lane: Lane, path: string, h: Headers): Outcome {
    match lane
    case Pillar(product) => PillarLane(v, product, path, h)
    case Cairn(product) => CairnLane(v, product, path, h)
    case Herald => HeraldLane(v, path, h)
  }

  datatype Settings = Settings(routes: seq<Route>, exact: set<string>, prefixes: seq<string>, bypass: bool, verifier: Verifier)

  predicate Open(g: Settings, path: string) {
    g.bypass || IsPublic(g.exact, g.prefixes, path)
  }

  /** The whole gateway: route, then the lane of the route. */
  function Served(g: Settings, path: string, h: Headers): Outcome {
    match FirstMatch(g.routes, path)
    case None => Answered(404)
    case Some(Hit(route, rest)) =>
      match route.target
      case GrpcMode(lane) => LaneOutcome(g.verifier, lane, rest, h)
      case Backend(_, product) => ProxyLane(g.verifier, Open(g, path), product, rest, h)
  }

  // ---- The handlers, on a request they change ----

  class Request {
    var path: string
    var headers: Headers
    /** The verified identity that the annotator reads. */
    var stash: Option<Identity>

    constructor (path: string, headers: Headers)
      ensures this.path == path && this.headers == headers && stash == None
    {
      this.path, this.headers, this.stash := path, headers, None;
    }

    method StripTrusted()
      modifies this`headers
      ensures headers == old(headers) - HttpKeys()
    {
      for i := 0 to |TRUSTED|
        invariant headers == old(headers) - HttpKeysOf(First(TRUSTED, i))
      {
        FirstMore(TRUSTED, i);
        HttpKeysMore(First(TRUSTED, i), TRUSTED[i]);
        headers := headers - {HttpKey(TRUSTED[i])};
      }
      AllFields();
    }

    method StripMeta()
      modifies this`headers
      ensures headers == old(headers) - MetaKeys()
    {
      for i := 0 to |FIELDS|
        invariant headers == old(headers) - MetaKeysOf(First(FIELDS, i))
      {
        FirstMore(FIELDS, i);
        MetaKeysMore(First(FIELDS, i), FIELDS[i]);
        StripTwo(old(headers), MetaKeysOf(First(FIELDS, i)), MetaKey(FIELDS[i]), GrpcKey(FIELDS[i]));
        headers := headers - {MetaKey(FIELDS[i])};
        headers := headers - {GrpcKey(FIELDS[i])};
      }
      AllFields();
    }

    method StripSpoofedIdentity()
      modifies this`headers
      ensures headers == old(headers) - MetaKeys() - HttpKeys()
    {
      StripMeta();
      StripTrusted();
    }

    method InjectHttp(id: Identity)
      modifies this`headers
      ensures headers == WithIdentity(old(headers), id)
    {
      headers := headers[HttpKey(Org) := [id.org]];
      headers := headers[HttpKey(Subject) := [id.subject]];
      headers := headers[HttpKey(Kind) := [id.kind]];
      headers := headers[HttpKey(Scopes) := [JoinWords(id.scopes)]];
      headers := headers[HttpKey(Products) := [JoinWords(id.products)]];
      if id.responsibleHuman != "" {
        headers := headers[HttpKey(Human) := [id.responsibleHuman]];
      }
    }
  }

  function First(fields: seq<Field>, n: nat): set<Field>
    requires n <= |fields|
  {
    set f | f in fields[..n]
  }

  lemma FirstMore(fields: seq<Field>, n: nat)
    requires n < |fields|
    ensures First(fields, n + 1) == First(fields, n) + {fields[n]}
  {
    assert fields[..n + 1] == fields[..n] + [fields[n]];
  }

  function HttpKeysOf(fields: set<Field>): set<string> {
    set f | f in fields :: HttpKey(f)
  }

  function MetaKeysOf(fields: set<Field>): set<string> {
    (set f | f in fields :: MetaKey(f)) + (set f | f in fields :: GrpcKey(f))
  }

  lemma HttpKeysMore(fields: set<Field>, f: Field)
    ensures HttpKeysOf(fields + {f}) == HttpKeysOf(fields) + {HttpKey(f)}
  {
  }

  lemma MetaKeysMore(fields: set<Field>, f: Field)
    ensures MetaKeysOf(fields + {f}) == MetaKeysOf(fields) + {MetaKey(f), GrpcKey(f)}
  {
  }

  lemma StripTwo(h: Headers, gone: set<string>, a: string, b: string)
    ensures h - gone - {a} - {b} == h - (gone + {a, b})
  {
  }

  /** Both lists of the source name every field. */
  lemma AllFields()
    ensures HttpKeysOf(First(TRUSTED, |TRUSTED|)) == HttpKeys()
    ensures MetaKeysOf(First(FIELDS, |FIELDS|)) == MetaKeys()
  {
    forall f: Field
      ensures f in First(TRUSTED, |TRUSTED|) && f in First(FIELDS, |FIELDS|)
    {
      assert f == TRUSTED[0] || f == TRUSTED[1] || f == TRUSTED[2] || f == TRUSTED[3] || f == TRUSTED[4] || f == TRUSTED[5];
      assert f == FIELDS[0] || f == FIELDS[1] || f == FIELDS[2] || f == FIELDS[3] || f == FIELDS[4] || f == FIELDS[5];
    }
  }

  class Edge {
    const router: Router
    const bypass: bool
    const verifier: Verifier

    constructor (router: Router, bypass: bool, verifier: Verifier)
      ensures this.router == router && this.bypass == bypass && this.verifier == verifier
    {
      this.router, this.bypass, this.verifier := router, bypass, verifier;
    }

    function Current(): Settings
      reads router
    {
      Settings(router.routes, router.publicEx, router.publicPx, bypass, verifier)
    }

    method AuthInject(r: Request, product: string) returns (o: Outcome)
      modifies r
      ensures o == PillarLane(verifier, product, old(r.path), old(r.headers))
    {
      var auth := Authenticate(verifier, r.headers);
      if !auth.Caller? {
        return Answered(401);
      }
      if product != "" && product !in auth.id.products {
        return Answered(403);
      }
      if !AudienceOk(auth.id, product) {
        return Answered(403);
      }
      r.StripMeta();
      r.stash := Some(auth.id);
      return ToGrpc(r.path, r.headers, r.stash.value);
    }

    method CairnComposite(r: Request, product: string) returns (o: Outcome)
      modifies r
      ensures o == CairnLane(verifier, product, old(r.path), old(r.headers))
    {
      var auth := Authenticate(verifier, r.headers);
      if !auth.Caller? {
        return Answered(401);
      }
      if product !in auth.id.products {
        return Answered(403);
      }
      if !AudienceOk(auth.id, product) {
        return Answered(403);
      }
      r.StripSpoofedIdentity();
      if "/api/" <= r.path {
        r.stash := Some(auth.id);
        return ToGrpc(r.path, r.headers, r.stash.value);
      }
      r.InjectHttp(auth.id);
      return ToHttp(r.path, r.headers);
    }

    method HeraldComposite(r: Request) returns (o: Outcome)
      modifies r
      ensures o == HeraldLane(verifier, old(r.path), old(r.headers))
    {
      if !IsAdmin(r.path) {
        r.StripSpoofedIdentity();
        return ToHttp(r.path, r.headers);
      }
      var auth := Authenticate(verifier, r.headers);
      if !auth.Caller? {
        return Answered(401);
      }
      r.StripSpoofedIdentity();
      r.stash := Some(auth.id);
      return ToGrpc(r.path, r.headers, r.stash.value);
    }

    method Serve(r: Request) returns (o: Outcome)
      modifies r
      ensures o == Served(Current(), old(r.path), old(r.headers))
    {
      var hit := router.Match(r.path);
      if hit.None? {
        return Answered(404);
      }
      var Hit(route, rest) := hit.value;
      match route.target
      case GrpcMode(lane) =>
        r.path := rest;
        match lane {
          case Pillar(product) => o := AuthInject(r, product);
          case Cairn(product) => o := CairnComposite(r, product);
          case Herald => o := HeraldComposite(r);
        }
      case Backend(_, product) =>
        r.StripTrusted();
        var public := router.CheckPublic(r.path);
        if !bypass && !public {
          var auth := Authenticate(verifier, r.headers);
          if !auth.Caller? {
            return Answered(401);
          }
          r.InjectHttp(auth.id);
          if product != "" && product !in auth.id.products {
            return Answered(403);
          }
        }
        r.path := rest;
        return ToHttp(r.path, r.headers);
    }
  }

  // ---- Only the verified identity goes out ----

  /** Writes under names that stay apart do not overwrite each other. */
  lemma WritesAreCarried(h: Headers, key: Field -> string, id: Identity)
    requires forall f: Field, g: Field :: f != g ==> key(f) != key(g)
    requires forall f: Field :: key(f) !in h
    ensures CarriedUnder(WithFields(h, key, id), key, Some(id))
  {
  }

  lemma InjectedIsCarried(h: Headers, id: Identity)
    requires forall f: Field :: HttpKey(f) !in h
    ensures HttpCarries(WithIdentity(h, id), Some(id))
  {
    forall f: Field, g: Field | f != g
      ensures HttpKey(f) != HttpKey(g)
    {
      HttpKeysApart(f, g);
    }
    WritesAreCarried(h, HttpKey, id);
  }

  lemma StrippedHttp(h: Headers, keys: set<string>)
    requires HttpKeys() <= keys
    ensures forall f: Field :: HttpKey(f) !in h - keys
  {
    forall f: Field
      ensures HttpKey(f) in HttpKeys()
    {
    }
  }

  lemma StrippedGrpc(h: Headers, id: Identity)
    ensures GrpcCarries(h - MetaKeys(), id) && GrpcCarries(h - MetaKeys() - HttpKeys(), id)
  {
    forall f: Field
      ensures Metadata(h - MetaKeys(), id, f) == Annotated(id, f) && Metadata(h - MetaKeys() - HttpKeys(), id, f) == Annotated(id, f)
    {
      assert GrpcKey(f) in MetaKeys();
      assert [] + Annotated(id, f) == Annotated(id, f);
    }
  }

  /** Who the verifier says the caller is. */
  function VerifiedCaller(v: Verifier, h: Headers): Option<Identity> {
    CallerOf(Authenticate(v, h))
  }

  /** Whatever goes out carries the identity `who`, and no other. */
  ghost predicate Carries(o: Outcome, who: Option<Identity>) {
    match o
    case Answered(_) => true
    case ToHttp(_, h) => HttpCarries(h, who)
    case ToGrpc(_, h, id) => who == Some(id) && GrpcCarries(h, id)
  }

  /** The paths of herald's admin service. */
  ghost predicate AdminPath(rest: string) {
    (exists tail: string :: rest == "/api/orgs" + tail) || (exists tail: string :: rest == "/api/humans/" + tail) || rest == "/api/me"
  }

  lemma IsAdminExactly(rest: string)
    ensures IsAdmin(rest) <==> AdminPath(rest)
  {
    if "/api/orgs" <= rest {
      assert rest == "/api/orgs" + rest[9..];
    }
    if "/api/humans/" <= rest {
      assert rest == "/api/humans/" + rest[12..];
    }
  }

  /** The paths on which a lane authenticates nobody. */
  ghost predicate Tokenless(g: Settings, path: string) {
    var hit := FirstMatch(g.routes, path);
    hit.Some? && match hit.value.route.target
                 case Backend(_, _) => Open(g, path)
                 case GrpcMode(lane) => lane == Herald && !AdminPath(hit.value.rest)
  }

  lemma BearerSurvives(h: Headers)
    ensures Bearer(h - HttpKeys()) == Bearer(h)
  {
    AuthorizationStarts();
    StartsApart(CanonicalKey("Authorization"));
  }

  lemma CallerSurvives(v: Verifier, h: Headers)
    ensures Authenticate(v, h - HttpKeys()) == Authenticate(v, h)
  {
    BearerSurvives(h);
  }

  function CallerOf(auth: Auth): Option<Identity> {
    if auth.Caller? then Some(auth.id) else None
  }

  /** What goes out says who was authenticated, and something goes out only then. */
  ghost predicate Faithful(o: Outcome, auth: Auth) {
    Carries(o, CallerOf(auth)) && (!o.Answered? ==> auth.Caller?)
  }

  lemma ProxyForwardFaithful(auth: Auth, product: string, rest: string, h: Headers)
    requires forall f: Field :: HttpKey(f) !in h
    ensures Faithful(ProxyForward(auth, product, rest, h), auth)
  {
    if auth.Caller? {
      InjectedIsCarried(h, auth.id);
    }
  }

  lemma PillarForwardFaithful(auth: Auth, product: string, path: string, h: Headers)
    requires auth.Caller? ==> GrpcCarries(h, auth.id)
    ensures Faithful(PillarForward(auth, product, path, h), auth)
  {
  }

  lemma CairnForwardFaithful(auth: Auth, product: string, path: string, h: Headers)
    requires forall f: Field :: HttpKey(f) !in h
    requires auth.Caller? ==> GrpcCarries(h, auth.id)
    ensures Faithful(CairnForward(auth, product, path, h), auth)
  {
    if auth.Caller? {
      InjectedIsCarried(h, auth.id);
    }
  }

  lemma ProxyCarries(v: Verifier, open: bool, product: string, rest: string, h: Headers)
    ensures var o := ProxyLane(v, open, product, rest, h);
            if open then Carries(o, None) else Faithful(o, Authenticate(v, h))
  {
    StrippedHttp(h, HttpKeys());
    if !open {
      CallerSurvives(v, h);
      ProxyForwardFaithful(Authenticate(v, h), product, rest, h - HttpKeys());
    }
  }

  lemma StrippedBoth(h: Headers, auth: Auth)
    ensures forall f: Field :: HttpKey(f) !in h - MetaKeys() - HttpKeys()
    ensures auth.Caller? ==> GrpcCarries(h - MetaKeys(), auth.id) && GrpcCarries(h - MetaKeys() - HttpKeys(), auth.id)
  {
    StrippedHttp(h - MetaKeys(), HttpKeys());
    if auth.Caller? {
      StrippedGrpc(h, auth.id);
    }
  }

  lemma PillarCarries(v: Verifier, product: string, path: string, h: Headers)
    ensures Faithful(PillarLane(v, product, path, h), Authenticate(v, h))
  {
    StrippedBoth(h, Authenticate(v, h));
    PillarForwardFaithful(Authenticate(v, h), product, path, h - MetaKeys());
  }

  lemma CairnCarries(v: Verifier, product: string, path: string, h: Headers)
    ensures Faithful(CairnLane(v, product, path, h), Authenticate(v, h))
  {
    StrippedBoth(h, Authenticate(v, h));
    CairnForwardFaithful(Authenticate(v, h), product, path, h - MetaKeys() - HttpKeys());
  }

  lemma HeraldCarries(v: Verifier, path: string, h: Headers)
    ensures var o := HeraldLane(v, path, h);
            if !IsAdmin(path) then Carries(o, None) else Faithful(o, Authenticate(v, h))
  {
    StrippedBoth(h, Authenticate(v, h));
  }

  /** On every lane a backend is told exactly the identity that the verifier gave
      for the request's token; on tokenless paths it is told none. */
  lemma OutboundIdentity(g: Settings, path: string, h: Headers)
    ensures var who := if Tokenless(g, path) then None else VerifiedCaller(g.verifier, h);
            var o := Served(g, path, h);
            Carries(o, who) && (!Tokenless(g, path) && !o.Answered? ==> who.Some?)
  {
    var hit := FirstMatch(g.routes, path);
    if hit.Some? {
      match hit.value.route.target
      case Backend(_, product) => ProxyCarries(g.verifier, Open(g, path), product, hit.value.rest, h);
      case GrpcMode(Pillar(product)) => PillarCarries(g.verifier, product, hit.value.rest, h);
      case GrpcMode(Cairn(product)) => CairnCarries(g.verifier, product, hit.value.rest, h);
      case GrpcMode(Herald) =>
        IsAdminExactly(hit.value.rest);
        HeraldCarries(g.verifier, hit.value.rest, h);
    }
  }

  // ---- Client headers have no say ----

  /** The names that the lane of a path takes for itself. */
  function IdentityKeys(g: Settings, path: string): set<string> {
    var hit := FirstMatch(g.routes, path);
    if hit.None? then {}
    else
      match hit.value.route.target
      case Backend(_, _) => HttpKeys()
      case GrpcMode(Pillar(_)) => MetaKeys()
      case GrpcMode(_) => MetaKeys() + HttpKeys()
  }

  lemma SameStripped(a: Headers, b: Headers)
    requires a - (MetaKeys() + HttpKeys()) == b - (MetaKeys() + HttpKeys())
    ensures a - MetaKeys() - HttpKeys() == b - MetaKeys() - HttpKeys()
  {
    assert a - MetaKeys() - HttpKeys() == a - (MetaKeys() + HttpKeys());
    assert b - MetaKeys() - HttpKeys() == b - (MetaKeys() + HttpKeys());
  }

  lemma SameBearer(a: Headers, b: Headers, keys: set<string>)
    requires a - keys == b - keys && keys <= MetaKeys() + HttpKeys()
    ensures Bearer(a) == Bearer(b)
  {
    AuthorizationStarts();
    StartsApart(CanonicalKey("Authorization"));
    SameOutside(a, b, keys, CanonicalKey("Authorization"));
  }

  lemma SameOutside(a: Headers, b: Headers, keys: set<string>, key: string)
    requires a - keys == b - keys && key !in keys
    ensures key in a <==> key in b
    ensures key in a ==> a[key] == b[key]
  {
    assert key in a <==> key in a - keys;
    assert key in b <==> key in b - keys;
  }

  /** Two requests that differ only in the identity names of their lane get the
      same decision, and the backend gets the same request. */
  lemma ClientHasNoSay(g: Settings, path: string, a: Headers, b: Headers)
    requires a - IdentityKeys(g, path) == b - IdentityKeys(g, path)
    ensures Served(g, path, a) == Served(g, path, b)
  {
    var hit := FirstMatch(g.routes, path);
    if hit.Some? {
      SameBearer(a, b, IdentityKeys(g, path));
      match hit.value.route.target
      case Backend(_, _) =>
      case GrpcMode(Pillar(_)) =>
      case GrpcMode(_) => SameStripped(a, b);
    }
  }

  /** A request as it arrives: names in any spelling, values in order. */
  type Wire = seq<(string, string)>

  /** How the server files what arrives. */
  function Filed(wire: Wire): Headers {
    if wire == [] then map[]
    else
      var before := Filed(wire[..|wire| - 1]);
      var (name, text) := wire[|wire| - 1];
      before[CanonicalKey(name) := (if CanonicalKey(name) in before then before[CanonicalKey(name)] else []) + [text]]
  }

  /** The request without every header whose name, in any spelling, is one of these. */
  function Without(wire: Wire, keys: set<string>): Wire {
    if wire == [] then []
    else Without(wire[..|wire| - 1], keys) + if CanonicalKey(wire[|wire| - 1].0) in keys then [] else [wire[|wire| - 1]]
  }

  lemma {:induction false} FiledWithout(wire: Wire, keys: set<string>)
    ensures Filed(Without(wire, keys)) == Filed(wire) - keys
  {
    if wire != [] {
      var before, last := wire[..|wire| - 1], wire[|wire| - 1];
      FiledWithout(before, keys);
      if CanonicalKey(last.0) !in keys {
        assert (Without(before, keys) + [last])[..|Without(before, keys)|] == Without(before, keys);
      } else {
        assert Without(wire, keys) == Without(before, keys);
      }
    }
  }

  /** However a client spells, repeats or orders forged identity headers, the
      gateway does what it does without them. */
  lemma ForgeriesChangeNothing(g: Settings, path: string, wire: Wire)
    ensures Served(g, path, Filed(wire)) == Served(g, path, Filed(Without(wire, IdentityKeys(g, path))))
  {
    var keys := IdentityKeys(g, path);
    FiledWithout(wire, keys);
    assert Filed(wire) - keys - keys == Filed(wire) - keys;
    ClientHasNoSay(g, path, Filed(wire), Filed(Without(wire, keys)));
  }
}
