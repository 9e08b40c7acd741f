/** What the gateway does with a request on each lane, in terms of its token, its
    path and the names of headers, and of nothing else. */
module Lanes {
  import opened Lex
  import opened Gateway
  import opened Identity

  // ---- Header names ----

  /** ASCII letters have one lower-case form; everything else is its own. */
  lemma LowerExactly(c: char)
    ensures 'A' <= c <= 'Z' ==> 'a' <= Lower(c) <= 'z' && Lower(c) as int - 'a' as int == c as int - 'A' as int
    ensures !('A' <= c <= 'Z') ==> Lower(c) == c
    ensures 'a' <= c <= 'z' ==> 'A' <= Upper(c) <= 'Z' && Lower(Upper(c)) == c
    ensures !('a' <= c <= 'z') ==> Upper(c) == c
  {
  }

  /** A stored name: capitals at the start and after each dash, small letters
      elsewhere. */
  lemma {:induction false} CanonicalAt(s: string, wordStart: bool, i: nat)
    requires i < |s|
    ensures |Canonical(s, wordStart)| == |s|
    ensures Canonical(s, wordStart)[i] == if (i == 0 && wordStart) || (i > 0 && s[i - 1] == '-') then Upper(s[i]) else Lower(s[i])
  {
    CanonicalShape(s, wordStart);
    if i > 0 {
      CanonicalAt(s[1..], s[0] == '-', i - 1);
    }
  }

  /** The HTTP names that the gateway takes for itself. */
  const HTTP_NAMES: seq<string> := [
    "X-CWB-Org", "X-CWB-Subject", "X-CWB-Kind", "X-CWB-Scopes", "X-CWB-Products", "X-CWB-Responsible-Human"]

  /** The metadata names, as headers of their own and under the metadata prefix. */
  const META_NAMES: seq<string> := [
    "cwb-org", "cwb-subject", "cwb-kind", "cwb-scopes", "cwb-products", "cwb-responsible-human",
    "Grpc-Metadata-cwb-org", "Grpc-Metadata-cwb-subject", "Grpc-Metadata-cwb-kind",
    "Grpc-Metadata-cwb-scopes", "Grpc-Metadata-cwb-products", "Grpc-Metadata-cwb-responsible-human"]

  /** These headers without the named ones, in whatever spelling. */
  ghost predicate Cleared(out: Headers, h: Headers, names: seq<string>) {
    forall key ::
      (key in out <==> key in h && forall i :: 0 <= i < |names| ==> key != CanonicalKey(names[i])) &&
      (key in out ==> out[key] == h[key])
  }

  lemma HttpNames(key: string)
    ensures key in HttpKeys() <==> exists i :: 0 <= i < |HTTP_NAMES| && key == CanonicalKey(HTTP_NAMES[i])
  {
    var n := HTTP_NAMES;
    assert n[0] == HttpName(Org) && n[1] == HttpName(Subject) && n[2] == HttpName(Kind);
    assert n[3] == HttpName(Scopes) && n[4] == HttpName(Products) && n[5] == HttpName(Human);
    if key in HttpKeys() {
      var f: Field :| key == HttpKey(f);
      var i := match f case Org => 0 case Subject => 1 case Kind => 2 case Scopes => 3 case Products => 4 case Human => 5;
      assert key == CanonicalKey(n[i]);
    }
    if exists i :: 0 <= i < |n| && key == CanonicalKey(n[i]) {
      var i :| 0 <= i < |n| && key == CanonicalKey(n[i]);
      var f := FIELDS[i];
      assert n[i] == HttpName(f);
      assert key == HttpKey(f);
    }
  }

  lemma MetaNamesAre(i: nat)
    requires i < 6
    ensures META_NAMES[i] == MetaName(FIELDS[i]) && META_NAMES[i + 6] == "Grpc-Metadata-" + MetaName(FIELDS[i])
  {
  }

  function PlaceOf(f: Field): nat {
    match f case Org => 0 case Subject => 1 case Kind => 2 case Scopes => 3 case Products => 4 case Human => 5
  }

  lemma PlaceOfField(f: Field)
    ensures PlaceOf(f) < 6 && FIELDS[PlaceOf(f)] == f
  {
  }

  lemma FieldIsNamed(f: Field)
    ensures exists i :: 0 <= i < |META_NAMES| && MetaKey(f) == CanonicalKey(META_NAMES[i])
    ensures exists i :: 0 <= i < |META_NAMES| && GrpcKey(f) == CanonicalKey(META_NAMES[i])
  {
    PlaceOfField(f);
    MetaNamesAre(PlaceOf(f));
    assert MetaKey(f) == CanonicalKey(META_NAMES[PlaceOf(f)]);
    assert GrpcKey(f) == CanonicalKey(META_NAMES[PlaceOf(f) + 6]);
  }

  lemma NameIsField(i: nat)
    requires i < 12
    ensures CanonicalKey(META_NAMES[i]) in MetaKeys()
  {
    var f := FIELDS[if i < 6 then i else i - 6];
    MetaNamesAre(if i < 6 then i else i - 6);
    assert CanonicalKey(META_NAMES[i]) == if i < 6 then MetaKey(f) else GrpcKey(f);
  }

  lemma MetaNames(key: string)
    ensures key in MetaKeys() <==> exists i :: 0 <= i < |META_NAMES| && key == CanonicalKey(META_NAMES[i])
  {
    if key in MetaKeys() {
      var f: Field :| key == MetaKey(f) || key == GrpcKey(f);
      FieldIsNamed(f);
    }
    if exists i :: 0 <= i < |META_NAMES| && key == CanonicalKey(META_NAMES[i]) {
      var i :| 0 <= i < |META_NAMES| && key == CanonicalKey(META_NAMES[i]);
      NameIsField(i);
    }
  }

  lemma HttpCleared(h: Headers)
    ensures Cleared(h - HttpKeys(), h, HTTP_NAMES)
  {
    forall key
      ensures key in h - HttpKeys() <==> key in h && forall i :: 0 <= i < |HTTP_NAMES| ==> key != CanonicalKey(HTTP_NAMES[i])
    {
      HttpNames(key);
    }
  }

  lemma MetaCleared(h: Headers)
    ensures Cleared(h - MetaKeys(), h, META_NAMES)
  {
    forall key
      ensures key in h - MetaKeys() <==> key in h && forall i :: 0 <= i < |META_NAMES| ==> key != CanonicalKey(META_NAMES[i])
    {
      MetaNames(key);
    }
  }

  lemma BothCleared(h: Headers)
    ensures Cleared(h - MetaKeys() - HttpKeys(), h, META_NAMES + HTTP_NAMES)
  {
    var names, out := META_NAMES + HTTP_NAMES, h - MetaKeys() - HttpKeys();
    forall key
      ensures key in out <==> key in h && forall i :: 0 <= i < |names| ==> key != CanonicalKey(names[i])
    {
      HttpNames(key);
      MetaNames(key);
      if key in h && forall i :: 0 <= i < |names| ==> key != CanonicalKey(names[i]) {
        assert forall i :: 0 <= i < |META_NAMES| ==> names[i] == META_NAMES[i];
        assert forall i :: 0 <= i < |HTTP_NAMES| ==> names[12 + i] == HTTP_NAMES[i];
      }
    }
  }

  // ---- Tokens and callers ----

  /** The request carries this bearer token: the first Authorization value is
      "Bearer" in any case, a space, and the token. */
  ghost predicate HasToken(h: Headers, token: string) {
    var key := CanonicalKey("Authorization");
    token != "" && key in h && h[key] != [] &&
    exists scheme: string :: SameName(scheme, "Bearer") && h[key][0] == scheme + " " + token
  }

  lemma SchemeAndSpace(text: string)
    requires |text| == 7
    ensures SameName(text, "Bearer ") <==> SameName(text[..6], "Bearer") && text[6] == ' '
  {
    var bearer := "Bearer ";
    assert bearer[..6] == "Bearer" && bearer[6] == ' ';
    assert forall i :: 0 <= i < 6 ==> text[..6][i] == text[i] && bearer[..6][i] == bearer[i];
    assert Lower(text[6]) == Lower(' ') <==> text[6] == ' ';
    if SameName(text[..6], "Bearer") && text[6] == ' ' {
      forall i | 0 <= i < 7
        ensures Lower(text[i]) == Lower(bearer[i])
      {
        if i < 6 {
          assert Lower(text[..6][i]) == Lower("Bearer"[i]);
        }
      }
    }
    if SameName(text, bearer) {
      assert forall i :: 0 <= i < 6 ==> Lower(text[i]) == Lower(bearer[i]);
    }
  }

  lemma BearerExactly(h: Headers, token: string)
    ensures token != "" ==> (Bearer(h) == token <==> HasToken(h, token))
    ensures Bearer(h) == "" <==> !exists t: string :: HasToken(h, t)
  {
    var text := Get(h, "Authorization");
    if |text| > 7 {
      SchemeAndSpace(text[..7]);
      assert text[..7][..6] == text[..6] && text[..7][6] == text[6];
      assert text == text[..6] + " " + text[7..] <==> text[6] == ' ';
      if Bearer(h) != "" {
        assert HasToken(h, text[7..]);
      }
    }
    forall t: string | HasToken(h, t)
      ensures Bearer(h) == t
    {
      var scheme: string :| SameName(scheme, "Bearer") && text == scheme + " " + t;
      assert |scheme| == 6 && text[..6] == scheme && text[6] == ' ' && text[7..] == t;
      SchemeAndSpace(text[..7]);
      assert text[..7][..6] == scheme && text[..7][6] == ' ';
    }
  }

  /** The verifier vouches for this identity on the request's token; without a
      verifier every token stands for the empty identity. */
  ghost predicate Vouched(v: Verifier, h: Headers, id: Identity) {
    exists token: string :: HasToken(h, token) &&
      if v.None? then id == Identity("", "", "", "", [], [], []) else v.value(token) == Some(id)
  }

  ghost predicate Anonymous(v: Verifier, h: Headers) {
    forall id :: !Vouched(v, h, id)
  }

  lemma CallerExactly(v: Verifier, h: Headers, id: Identity)
    ensures Authenticate(v, h) == Caller(id) <==> Vouched(v, h, id)
    ensures Vouched(v, h, id) ==> Bearer(h) != ""
  {
    BearerExactly(h, Bearer(h));
    if Vouched(v, h, id) {
      var token: string :| HasToken(h, token) &&
        if v.None? then id == Identity("", "", "", "", [], [], []) else v.value(token) == Some(id);
      BearerExactly(h, token);
    }
    if Authenticate(v, h) == Caller(id) {
      assert HasToken(h, Bearer(h));
    }
  }

  lemma NobodyExactly(v: Verifier, h: Headers)
    ensures !Authenticate(v, h).Caller? <==> Anonymous(v, h)
  {
    if Authenticate(v, h).Caller? {
      CallerExactly(v, h, Authenticate(v, h).id);
    }
    forall id | Vouched(v, h, id)
      ensures Authenticate(v, h).Caller?
    {
      CallerExactly(v, h, id);
    }
  }

  // ---- What is told of a caller ----

  /** Words with one space between them. */
  lemma {:induction false} JoinWordsParts(a: seq<string>, b: seq<string>)
    requires a != [] && b != []
    ensures JoinWords(a + b) == JoinWords(a) + " " + JoinWords(b)
  {
    if |a| == 1 {
      assert (a + b)[1..] == b;
    } else {
      assert (a + b)[1..] == a[1..] + b;
      JoinWordsParts(a[1..], b);
      assert JoinWords(a + b) == a[0] + " " + (JoinWords(a[1..]) + " " + JoinWords(b));
    }
  }

  lemma OneWord(word: string)
    ensures JoinWords([word]) == word && JoinWords([]) == ""
  {
  }

  /** Read by name, in any spelling: the six headers of an HTTP lane say who called. */
  ghost predicate Tells(h: Headers, name: string, text: string) {
    forall spelling: string :: SameName(spelling, name) ==> CanonicalKey(spelling) in h && h[CanonicalKey(spelling)] == [text]
  }

  ghost predicate IsSilent(h: Headers, name: string) {
    forall spelling: string :: SameName(spelling, name) ==> CanonicalKey(spelling) !in h
  }

  lemma ToldUnder(h: Headers, name: string, text: string)
    requires CanonicalKey(name) in h && h[CanonicalKey(name)] == [text]
    ensures Tells(h, name, text)
  {
    forall spelling: string | SameName(spelling, name)
      ensures CanonicalKey(spelling) == CanonicalKey(name)
    {
      SpellingsShareKey(spelling, name, true);
    }
  }

  lemma SilentUnder(h: Headers, name: string)
    requires CanonicalKey(name) !in h
    ensures IsSilent(h, name)
  {
    forall spelling: string | SameName(spelling, name)
      ensures CanonicalKey(spelling) == CanonicalKey(name)
    {
      SpellingsShareKey(spelling, name, true);
    }
  }

  /** The identity that headers tell, field by field. */
  ghost predicate TellsIdentity(h: Headers, id: Identity) {
    Tells(h, "X-CWB-Org", id.org) && Tells(h, "X-CWB-Subject", id.subject) && Tells(h, "X-CWB-Kind", id.kind) &&
    Tells(h, "X-CWB-Scopes", JoinWords(id.scopes)) && Tells(h, "X-CWB-Products", JoinWords(id.products)) &&
    (id.responsibleHuman != "" ==> Tells(h, "X-CWB-Responsible-Human", id.responsibleHuman)) &&
    (id.responsibleHuman == "" ==> IsSilent(h, "X-CWB-Responsible-Human"))
  }

  lemma CarriedIsTold(h: Headers, id: Identity)
    requires HttpCarries(h, Some(id))
    ensures TellsIdentity(h, id)
  {
    forall f: Field | Named(id, f)
      ensures Tells(h, HttpName(f), Text(id, f))
    {
      assert HttpKey(f) in h && h[HttpKey(f)] == [Text(id, f)];
      ToldUnder(h, HttpName(f), Text(id, f));
    }
    assert Tells(h, HttpName(Org), id.org) && Tells(h, HttpName(Subject), id.subject) && Tells(h, HttpName(Kind), id.kind);
    assert Tells(h, HttpName(Scopes), JoinWords(id.scopes)) && Tells(h, HttpName(Products), JoinWords(id.products));
    if id.responsibleHuman != "" {
      assert Named(id, Human) && Text(id, Human) == id.responsibleHuman;
    } else {
      assert HttpKey(Human) !in h;
      SilentUnder(h, HttpName(Human));
    }
  }

  /** Whatever a lane lets through tells the identity that it is given; everything
      that is not an identity header stays. */
  lemma InjectedTells(h: Headers, id: Identity)
    requires forall i :: 0 <= i < |HTTP_NAMES| ==> CanonicalKey(HTTP_NAMES[i]) !in h
    ensures TellsIdentity(WithIdentity(h, id), id)
    ensures forall key :: (forall i :: 0 <= i < |HTTP_NAMES| ==> key != CanonicalKey(HTTP_NAMES[i])) ==>
                            (key in WithIdentity(h, id) <==> key in h) && (key in h ==> WithIdentity(h, id)[key] == h[key])
  {
    forall f: Field
      ensures HttpKey(f) !in h
    {
      assert HttpKey(f) in HttpKeys();
      HttpNames(HttpKey(f));
    }
    InjectedIsCarried(h, id);
    CarriedIsTold(WithIdentity(h, id), id);
    forall key | forall i :: 0 <= i < |HTTP_NAMES| ==> key != CanonicalKey(HTTP_NAMES[i])
      ensures (key in WithIdentity(h, id) <==> key in h) && (key in h ==> WithIdentity(h, id)[key] == h[key])
    {
      HttpNames(key);
      forall f: Field
        ensures key != HttpKey(f)
      {
        assert HttpKey(f) in HttpKeys();
      }
    }
  }

  /** These headers, the named ones replaced by the identity. */
  ghost predicate Replaced(out: Headers, h: Headers, names: seq<string>, id: Identity) {
    TellsIdentity(out, id) && exists before: Headers :: Cleared(before, h, names) && out == WithIdentity(before, id)
  }

  lemma ReplacedAfter(before: Headers, h: Headers, names: seq<string>, id: Identity)
    requires Cleared(before, h, names) && forall i :: 0 <= i < |HTTP_NAMES| ==> CanonicalKey(HTTP_NAMES[i]) !in before
    ensures Replaced(WithIdentity(before, id), h, names, id)
  {
    InjectedTells(before, id);
  }

  /** The metadata names of the gRPC lanes and what goes under each. */
  lemma MetadataExactly(id: Identity)
    ensures (MetaName(Org), Annotated(id, Org)) == ("cwb-org", [id.org])
    ensures (MetaName(Subject), Annotated(id, Subject)) == ("cwb-subject", [id.subject])
    ensures (MetaName(Kind), Annotated(id, Kind)) == ("cwb-kind", [id.kind])
    ensures (MetaName(Scopes), Annotated(id, Scopes)) == ("cwb-scopes", if id.scopes == [] then [] else [JoinWords(id.scopes)])
    ensures (MetaName(Products), Annotated(id, Products)) == ("cwb-products", if id.products == [] then [] else [JoinWords(id.products)])
    ensures (MetaName(Human), Annotated(id, Human)) ==
            ("cwb-responsible-human", if id.responsibleHuman == "" then [] else [id.responsibleHuman])
  {
  }

  // ---- The lanes ----

  /** Not enabled for the caller, or outside what its token is for. */
  predicate Refused(id: Identity, product: string) {
    product != "" && (product !in id.products || (id.audience != [] && product !in id.audience))
  }

  /** A gRPC pillar: 401 without a vouched-for caller, 403 for one who is refused,
      and else the caller goes with the request. */
  lemma PillarExactly(g: Settings, path: string, h: Headers, route: Route, rest: string, product: string, id: Identity)
    requires FirstMatch(g.routes, path) == Some(Hit(route, rest)) && route.target == GrpcMode(Pillar(product))
    ensures var o := Served(g, path, h);
            (o == Answered(401) <==> Anonymous(g.verifier, h)) &&
            (Vouched(g.verifier, h, id) ==>
               if Refused(id, product) then o == Answered(403)
               else o.ToGrpc? && o.grpcPath == rest && o.identity == id && Cleared(o.grpcHeaders, h, META_NAMES))
  {
    NobodyExactly(g.verifier, h);
    CallerExactly(g.verifier, h, id);
    MetaCleared(h);
  }

  /** The cairn lanes: the product is required of everyone; below "/api/" the request
      goes to gRPC, elsewhere to HTTP with the caller in its headers. */
  lemma CairnExactly(g: Settings, path: string, h: Headers, route: Route, rest: string, product: string, id: Identity)
    requires FirstMatch(g.routes, path) == Some(Hit(route, rest)) && route.target == GrpcMode(Cairn(product))
    ensures var o := Served(g, path, h);
            (o == Answered(401) <==> Anonymous(g.verifier, h)) &&
            (Vouched(g.verifier, h, id) ==>
               if product !in id.products || Refused(id, product) then o == Answered(403)
               else if exists tail: string :: rest == "/api/" + tail then
                 o.ToGrpc? && o.grpcPath == rest && o.identity == id && Cleared(o.grpcHeaders, h, META_NAMES + HTTP_NAMES)
               else
                 o.ToHttp? && o.httpPath == rest && Replaced(o.httpHeaders, h, META_NAMES + HTTP_NAMES, id))
  {
    NobodyExactly(g.verifier, h);
    CallerExactly(g.verifier, h, id);
    BothCleared(h);
    NoHttpNames(h - MetaKeys());
    ReplacedAfter(h - MetaKeys() - HttpKeys(), h, META_NAMES + HTTP_NAMES, id);
    BelowApi(rest);
  }

  lemma BelowApi(rest: string)
    ensures "/api/" <= rest <==> exists tail: string :: rest == "/api/" + tail
  {
    if "/api/" <= rest {
      assert rest == "/api/" + rest[5..];
    }
  }

  lemma NoHttpNames(h: Headers)
    ensures forall i :: 0 <= i < |HTTP_NAMES| ==> CanonicalKey(HTTP_NAMES[i]) !in h - HttpKeys()
  {
    HttpCleared(h);
  }

  /** The herald lanes: the admin paths need a vouched-for caller and go to gRPC; all
      other paths go to HTTP whatever the token, and tell nobody's identity. */
  lemma HeraldExactly(g: Settings, path: string, h: Headers, route: Route, rest: string, id: Identity)
    requires FirstMatch(g.routes, path) == Some(Hit(route, rest)) && route.target == GrpcMode(Herald)
    ensures var o := Served(g, path, h);
            (o == Answered(401) <==> AdminPath(rest) && Anonymous(g.verifier, h)) &&
            (AdminPath(rest) && Vouched(g.verifier, h, id) ==>
               o.ToGrpc? && o.grpcPath == rest && o.identity == id && Cleared(o.grpcHeaders, h, META_NAMES + HTTP_NAMES)) &&
            (!AdminPath(rest) ==> o.ToHttp? && o.httpPath == rest && Cleared(o.httpHeaders, h, META_NAMES + HTTP_NAMES))
  {
    NobodyExactly(g.verifier, h);
    CallerExactly(g.verifier, h, id);
    IsAdminExactly(rest);
    BothCleared(h);
  }

  /** A reverse-proxied backend: open to everyone when the gateway bypasses
      authentication or the path is public, and then told nobody's identity; else 401
      without a vouched-for caller, 403 without the route's product. */
  lemma BackendExactly(g: Settings, path: string, h: Headers, route: Route, rest: string, url: string, product: string, id: Identity)
    requires FirstMatch(g.routes, path) == Some(Hit(route, rest)) && route.target == Backend(url, product)
    ensures var o := Served(g, path, h);
            var open := g.bypass || path in g.exact || exists p :: p in g.prefixes && p <= path;
            (open ==> o.ToHttp? && o.httpPath == rest && Cleared(o.httpHeaders, h, HTTP_NAMES)) &&
            (o == Answered(401) <==> !open && Anonymous(g.verifier, h)) &&
            (!open && Vouched(g.verifier, h, id) ==>
               if product != "" && product !in id.products then o == Answered(403)
               else o.ToHttp? && o.httpPath == rest && Replaced(o.httpHeaders, h, HTTP_NAMES, id))
  {
    ProxyExactly(g.verifier, Open(g, path), product, rest, h, id);
  }

  lemma ProxyExactly(v: Verifier, open: bool, product: string, rest: string, h: Headers, id: Identity)
    ensures var o := ProxyLane(v, open, product, rest, h);
            (open ==> o.ToHttp? && o.httpPath == rest && Cleared(o.httpHeaders, h, HTTP_NAMES)) &&
            (o == Answered(401) <==> !open && Anonymous(v, h)) &&
            (!open && Vouched(v, h, id) ==>
               if product != "" && product !in id.products then o == Answered(403)
               else o.ToHttp? && o.httpPath == rest && Replaced(o.httpHeaders, h, HTTP_NAMES, id))
  {
    CallerSurvives(v, h);
    NobodyExactly(v, h);
    CallerExactly(v, h, id);
    HttpCleared(h);
    NoHttpNames(h);
    ReplacedAfter(h - HttpKeys(), h, HTTP_NAMES, id);
  }
}
