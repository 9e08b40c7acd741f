/** The last step of an HTTP lane: the reverse proxy removes hop-by-hop headers,
    among them every header that the request's Connection header names. */
module ReverseProxy {
  import opened Lex
  import opened Gateway
  import opened Identity

  // ---- Hop-by-hop headers, section 7.6.1 of RFC 9110 ----

  /** The names in one Connection header, between commas. */
  function Tokens(s: string): (tokens: seq<string>)
    ensures |tokens| >= 1
  {
    if s == "" then [""]
    else if s[0] == ',' then [""] + Tokens(s[1..])
    else
      var rest := Tokens(s[1..]);
      [[s[0]] + rest[0]] + rest[1..]
  }

  predicate Blank(c: char) {
    c == ' ' || c == '\t' || c == '\n' || c == '\r'
  }

  function Trimmed(s: string): string {
    if s != "" && Blank(s[0]) then Trimmed(s[1..])
    else if s != "" && Blank(s[|s| - 1]) then Trimmed(s[..|s| - 1])
    else s
  }

  function ConnectionKey(): string {
    CanonicalKey("Connection")
  }

  /** The request says that this header is for the next hop only. */
  predicate NamesKey(values: seq<string>, key: string) {
    exists i, j :: 0 <= i < |values| && 0 <= j < |Tokens(values[i])| &&
                   Trimmed(Tokens(values[i])[j]) != "" && CanonicalKey(Trimmed(Tokens(values[i])[j])) == key
  }

  predicate ForNextHop(h: Headers, key: string) {
    ConnectionKey() in h && NamesKey(h[ConnectionKey()], key)
  }

  /** The names that go whether the request names them or not. */
  const HOP_NAMES: seq<string> := [
    "Connection", "Proxy-Connection", "Keep-Alive", "Proxy-Authenticate", "Proxy-Authorization",
    "Te", "Trailer", "Transfer-Encoding", "Upgrade"]

  predicate IsHop(key: string) {
    exists i :: 0 <= i < |HOP_NAMES| && key == CanonicalKey(HOP_NAMES[i])
  }

  /** What the backend receives of these headers. */
  function Delivered(h: Headers): Headers {
    map key | key in h && !ForNextHop(h, key) && !IsHop(key) :: h[key]
  }

  // ---- Identity headers and hop-by-hop headers ----

  lemma HttpKeyIsNoHop(f: Field)
    ensures !IsHop(HttpKey(f))
  {
    HttpKeyStarts(f);
    forall i | 0 <= i < |HOP_NAMES|
      ensures HttpKey(f) != CanonicalKey(HOP_NAMES[i])
    {
      HopStarts(i);
      KeyStarts(HOP_NAMES[i]);
    }
  }

  lemma HopStarts(i: nat)
    requires i < |HOP_NAMES|
    ensures HOP_NAMES[i] != "" && Upper(HOP_NAMES[i][0]) != 'X'
  {
  }

  /** No lane touches the Connection header. */
  lemma ConnectionApart()
    ensures ConnectionKey() !in HttpKeys() + MetaKeys()
  {
    CanonicalSecond("Connection");
    KeyStarts("Connection");
    forall f: Field
      ensures ConnectionKey() != HttpKey(f) && ConnectionKey() != MetaKey(f) && ConnectionKey() != GrpcKey(f)
    {
      HttpKeyStarts(f);
      GrpcKeyStarts(f);
      MetaSecond(f);
      CanonicalSecond(MetaName(f));
    }
  }

  lemma MetaSecond(f: Field)
    ensures |MetaName(f)| >= 2 && MetaName(f)[0] == 'c' && MetaName(f)[1] == 'w'
  {
  }

  lemma CanonicalSecond(s: string)
    requires |s| >= 2 && s[0] != '-'
    ensures |CanonicalKey(s)| >= 2 && CanonicalKey(s)[1] == Lower(s[1])
  {
    CanonicalShape(s, true);
    CanonicalShape(s[1..], false);
    assert CanonicalKey(s)[1..] == Canonical(s[1..], false);
  }

  // ---- What the backend is told in the end ----

  /** No field of this identity is named by the request's Connection header. */
  ghost predicate NoneNamed(h: Headers, who: Option<Identity>) {
    forall f: Field :: who.Some? && Named(who.value, f) ==> !ForNextHop(h, HttpKey(f))
  }

  /** Whatever the backend is told of the caller is true of this identity. */
  ghost predicate NeverForged(h: Headers, who: Option<Identity>) {
    forall f: Field :: HttpKey(f) in h ==> who.Some? && Named(who.value, f) && h[HttpKey(f)] == [Text(who.value, f)]
  }

  lemma DeliveredExactly(h: Headers, who: Option<Identity>)
    requires HttpCarries(h, who)
    ensures NeverForged(Delivered(h), who)
    ensures HttpCarries(Delivered(h), who) <==> NoneNamed(h, who)
  {
    forall f: Field
      ensures HttpKey(f) in Delivered(h) <==> HttpKey(f) in h && !ForNextHop(h, HttpKey(f))
    {
      HttpKeyIsNoHop(f);
    }
  }

  /** The lanes pass the Connection header on as it came. */
  lemma ConnectionPasses(g: Settings, path: string, h: Headers, key: string)
    requires Served(g, path, h).ToHttp?
    ensures ForNextHop(Served(g, path, h).httpHeaders, key) <==> ForNextHop(h, key)
  {
    ConnectionApart();
    OnlyKeysChange(g, path, h, ConnectionKey());
  }

  /** A name that no lane takes for itself reaches the proxy as it came. */
  lemma OnlyKeysChange(g: Settings, path: string, h: Headers, key: string)
    requires Served(g, path, h).ToHttp? && key !in HttpKeys() + MetaKeys()
    ensures var out := Served(g, path, h).httpHeaders; (key in out <==> key in h) && (key in h ==> out[key] == h[key])
  {
    var hit := FirstMatch(g.routes, path).value;
    var auth := Authenticate(g.verifier, h);
    match hit.route.target
    case Backend(_, product) =>
      CallerSurvives(g.verifier, h);
      if !Open(g, path) {
        InjectionLeaves(h - HttpKeys(), auth.id, key);
      }
    case GrpcMode(Pillar(_)) =>
    case GrpcMode(Cairn(_)) => InjectionLeaves(h - MetaKeys() - HttpKeys(), auth.id, key);
    case GrpcMode(Herald) =>
  }

  lemma InjectionLeaves(h: Headers, id: Identity, key: string)
    requires key !in HttpKeys()
    ensures var out := WithIdentity(h, id); (key in out <==> key in h) && (key in h ==> out[key] == h[key])
  {
    forall f: Field
      ensures HttpKey(f) != key
    {
      assert HttpKey(f) in HttpKeys();
    }
  }

  /** On the HTTP lanes the backend is never told anything but the verified
      identity; it is told all of it exactly when the client's Connection header
      names no header that carries one of its fields. */
  lemma BackendToldExactly(g: Settings, path: string, h: Headers)
    requires Served(g, path, h).ToHttp?
    ensures var who := if Tokenless(g, path) then None else VerifiedCaller(g.verifier, h);
            var out := Delivered(Served(g, path, h).httpHeaders);
            NeverForged(out, who) && (HttpCarries(out, who) <==> NoneNamed(h, who))
  {
    var who := if Tokenless(g, path) then None else VerifiedCaller(g.verifier, h);
    var sent := Served(g, path, h).httpHeaders;
    OutboundIdentity(g, path, h);
    DeliveredExactly(sent, who);
    forall f: Field
      ensures ForNextHop(sent, HttpKey(f)) <==> ForNextHop(h, HttpKey(f))
    {
      ConnectionPasses(g, path, h, HttpKey(f));
    }
  }

  /** Two requests that differ only in the identity names of their lane reach the
      backend alike. */
  lemma DeliveredAlike(g: Settings, path: string, a: Headers, b: Headers)
    requires a - IdentityKeys(g, path) == b - IdentityKeys(g, path)
    requires Served(g, path, a).ToHttp?
    ensures Served(g, path, b).ToHttp? &&
            Delivered(Served(g, path, a).httpHeaders) == Delivered(Served(g, path, b).httpHeaders)
  {
    ClientHasNoSay(g, path, a, b);
  }

  // ---- A request whose identity does not arrive ----

  lemma {:induction false} OneToken(s: string)
    requires ',' !in s
    ensures Tokens(s) == [s]
  {
    if s != "" {
      OneToken(s[1..]);
      assert s == [s[0]] + s[1..];
    }
  }

  lemma NameOrg()
    ensures NamesKey(["X-CWB-Org"], HttpKey(Org))
  {
    var name := HttpName(Org);
    OneToken(name);
    assert Trimmed(name) == name;
    assert [name][0] == name && Tokens(name)[0] == name;
  }

  /** A route to a backend, nobody exempt, and a verifier that takes every token. */
  function Example(): Settings {
    Settings([Route("/a", Backend("b", ""))], {}, [], false, Some(token => Some(NOBODY)))
  }

  function ExampleHeaders(): Headers {
    map[CanonicalKey("Authorization") := ["Bearer t"], ConnectionKey() := ["X-CWB-Org"]]
  }

  lemma ExampleBearer(h: Headers)
    requires CanonicalKey("Authorization") in h && h[CanonicalKey("Authorization")] == ["Bearer t"]
    ensures Bearer(h) == "t"
  {
    var text := "Bearer t";
    assert Get(h, "Authorization") == text;
    assert text[..7] == "Bearer " && text[7..] == "t";
  }

  lemma ExampleHit()
    ensures FirstMatch(Example().routes, "/a") == Some(Hit(Route("/a", Backend("b", "")), "/"))
    ensures !Open(Example(), "/a")
  {
  }

  /** A route without a product forwards every verified caller. */
  lemma UngatedForwards(g: Settings, path: string, h: Headers, prefix: string, url: string, rest: string)
    requires FirstMatch(g.routes, path) == Some(Hit(Route(prefix, Backend(url, "")), rest)) && !Open(g, path)
    requires Authenticate(g.verifier, h).Caller?
    ensures Served(g, path, h).ToHttp?
  {
    CallerSurvives(g.verifier, h);
  }

  /** A forwarded field does not arrive when the Connection header names it. */
  lemma NamedIsDropped(g: Settings, path: string, h: Headers, f: Field)
    requires Served(g, path, h).ToHttp? && ForNextHop(h, HttpKey(f))
    ensures HttpKey(f) !in Delivered(Served(g, path, h).httpHeaders)
  {
    ConnectionPasses(g, path, h, HttpKey(f));
  }

  lemma ExampleAuthenticated(h: Headers)
    requires Bearer(h) == "t"
    ensures Authenticate(Example().verifier, h) == Caller(NOBODY)
  {
  }

  lemma ExampleNamesOrg(h: Headers)
    requires ConnectionKey() in h && h[ConnectionKey()] == ["X-CWB-Org"]
    ensures ForNextHop(h, HttpKey(Org))
  {
    NameOrg();
  }

  /** The verified caller is forwarded, and the backend is not told the org. */
  lemma IdentityCanBeDropped(h: Headers)
    requires CanonicalKey("Authorization") in h && h[CanonicalKey("Authorization")] == ["Bearer t"]
    requires ConnectionKey() in h && h[ConnectionKey()] == ["X-CWB-Org"]
    ensures Served(Example(), "/a", h).ToHttp? && VerifiedCaller(Example().verifier, h) == Some(NOBODY)
    ensures HttpKey(Org) !in Delivered(Served(Example(), "/a", h).httpHeaders)
  {
    ExampleBearer(h);
    ExampleAuthenticated(h);
    ExampleHit();
    UngatedForwards(Example(), "/a", h, "/a", "b", "/");
    ExampleNamesOrg(h);
    NamedIsDropped(Example(), "/a", h, Org);
  }

  /** Such a request exists. */
  lemma ExampleExists()
    ensures var h := ExampleHeaders();
            CanonicalKey("Authorization") in h && h[CanonicalKey("Authorization")] == ["Bearer t"] &&
            ConnectionKey() in h && h[ConnectionKey()] == ["X-CWB-Org"]
  {
    AuthorizationStarts();
    KeyStarts("Connection");
  }

  // ---- The pieces of the removal step, said without their functions ----

  /** Commas separate the names, and nothing else does. */
  lemma {:induction false} TokensExactly(a: string, b: string)
    ensures Tokens(a + "," + b) == Tokens(a) + Tokens(b)
  {
    var s := a + "," + b;
    if a == "" {
      assert s[1..] == b;
    } else {
      assert s[0] == a[0] && s[1..] == a[1..] + "," + b;
      TokensExactly(a[1..], b);
      Regrouped(a[0], Tokens(a[1..]), Tokens(b));
    }
  }

  lemma Regrouped(c: char, rest: seq<string>, more: seq<string>)
    requires rest != []
    ensures [""] + (rest + more) == [""] + rest + more
    ensures [[c] + (rest + more)[0]] + (rest + more)[1..] == [[c] + rest[0]] + rest[1..] + more
  {
    assert (rest + more)[1..] == rest[1..] + more;
  }

  predicate Blanks(s: string) {
    forall i :: 0 <= i < |s| ==> s[i] in {' ', '\t', '\n', '\r'}
  }

  /** What stands between blanks is a name as it is. */
  lemma {:induction false} TrimmedExactly(front: string, p: string, back: string)
    requires Blanks(front) && Blanks(back)
    requires p != "" ==> p[0] !in {' ', '\t', '\n', '\r'} && p[|p| - 1] !in {' ', '\t', '\n', '\r'}
    ensures Trimmed(front + p + back) == p
  {
    var s := front + p + back;
    if front != "" {
      assert s[1..] == front[1..] + p + back;
      TrimmedExactly(front[1..], p, back);
    } else if p == "" {
      assert s == back;
      if back != "" {
        assert back[1..] == "" + p + back[1..];
        TrimmedExactly("", p, back[1..]);
      }
    } else if back != "" {
      assert s[0] == p[0] && s[..|s| - 1] == "" + p + back[..|back| - 1];
      TrimmedExactly("", p, back[..|back| - 1]);
    } else {
      assert s == p;
    }
  }

  /** The headers that the proxy removes from every request, in any spelling. */
  ghost predicate HopByHop(name: string) {
    SameName(name, "Connection") || SameName(name, "Proxy-Connection") || SameName(name, "Keep-Alive") ||
    SameName(name, "Proxy-Authenticate") || SameName(name, "Proxy-Authorization") || SameName(name, "Te") ||
    SameName(name, "Trailer") || SameName(name, "Transfer-Encoding") || SameName(name, "Upgrade")
  }

  lemma HopNames(name: string)
    ensures HopByHop(name) <==> exists i :: 0 <= i < |HOP_NAMES| && SameName(name, HOP_NAMES[i])
  {
    assert HOP_NAMES[0] == "Connection" && HOP_NAMES[1] == "Proxy-Connection" && HOP_NAMES[2] == "Keep-Alive";
    assert HOP_NAMES[3] == "Proxy-Authenticate" && HOP_NAMES[4] == "Proxy-Authorization" && HOP_NAMES[5] == "Te";
    assert HOP_NAMES[6] == "Trailer" && HOP_NAMES[7] == "Transfer-Encoding" && HOP_NAMES[8] == "Upgrade";
  }

  lemma HopExactly(name: string)
    ensures IsHop(CanonicalKey(name)) <==> HopByHop(name)
  {
    forall i | 0 <= i < |HOP_NAMES|
      ensures CanonicalKey(name) == CanonicalKey(HOP_NAMES[i]) <==> SameName(name, HOP_NAMES[i])
    {
      SpellingsShareKey(name, HOP_NAMES[i], true);
    }
    HopNames(name);
  }

  /** One of the names in these Connection values is, in any spelling, this name. */
  ghost predicate Mentions(values: seq<string>, name: string) {
    exists i, j :: 0 <= i < |values| && 0 <= j < |Tokens(values[i])| && SameName(Trimmed(Tokens(values[i])[j]), name)
  }

  lemma MentionsExactly(values: seq<string>, name: string)
    requires name != ""
    ensures NamesKey(values, CanonicalKey(name)) <==> Mentions(values, name)
  {
    forall i, j | 0 <= i < |values| && 0 <= j < |Tokens(values[i])|
      ensures Trimmed(Tokens(values[i])[j]) != "" && CanonicalKey(Trimmed(Tokens(values[i])[j])) == CanonicalKey(name) <==>
              SameName(Trimmed(Tokens(values[i])[j]), name)
    {
      SpellingsShareKey(Trimmed(Tokens(values[i])[j]), name, true);
    }
  }

  /** A header reaches the backend exactly when it is not hop-by-hop and no Connection
      header mentions it. */
  lemma ReachesExactly(h: Headers, name: string)
    requires name != ""
    ensures var key, connection := CanonicalKey(name), CanonicalKey("Connection");
            (key in Delivered(h) <==> key in h && !HopByHop(name) && !(connection in h && Mentions(h[connection], name))) &&
            (key in Delivered(h) ==> Delivered(h)[key] == h[key])
  {
    HopExactly(name);
    if CanonicalKey("Connection") in h {
      MentionsExactly(h[CanonicalKey("Connection")], name);
    }
  }
}
