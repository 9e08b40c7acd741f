/** Which halves the pair flow takes: the schema as a list of checks, and the
    signature over the half's own lines. */
module Halves {
  import opened Lex
  import opened Foreign
  import opened Checks
  import opened SelfSig
  import Base64Url

  // ---- Schema ----

  const FLAWS: seq<Flaw> := [
    MissingFields, NexusIdTooLong, EndpointTooLong, UnsupportedSigAlg, PubkeyNotBase64url, PubkeyLength,
    DhAlgOrDhPubkeyMissing, DhAlgTooLong, DhPubkeyTooLong, DhPubkeyNotBase64url]

  /** The schema, in the order of its error codes. Lengths are those of the UTF-8
      text. */
  function HalfChecks(h: Half): seq<bool> {
    var pub := Base64Url.Decode(h.pubkey);
    [h.nexusId != "" && h.sigAlg != "" && h.pubkey != "" && h.nonce != "" && h.ts != "" && h.selfSig != "",
     |Utf8Text(h.nexusId)| <= 256,
     |Utf8Text(h.endpoint)| <= 1024,
     h.sigAlg == "ed25519",
     pub.Some?,
     pub.Some? && |pub.value| == 32,
     h.dhAlg == "" <==> h.dhPubkey == "",
     |Utf8Text(h.dhAlg)| <= 32,
     |Utf8Text(h.dhPubkey)| <= 256,
     h.dhPubkey == "" || Base64Url.Decode(h.dhPubkey).Some?]
  }

  lemma TenChecks(c: seq<bool>, k: nat)
    requires |c| == 10 && k < 10
    ensures AllPass(c) <==> c[0] && c[1] && c[2] && c[3] && c[4] && c[5] && c[6] && c[7] && c[8] && c[9]
    ensures FirstFailing(c, k) <==>
            !c[k] && (k > 0 ==> c[0]) && (k > 1 ==> c[1]) && (k > 2 ==> c[2]) && (k > 3 ==> c[3]) && (k > 4 ==> c[4]) &&
            (k > 5 ==> c[5]) && (k > 6 ==> c[6]) && (k > 7 ==> c[7]) && (k > 8 ==> c[8])
  {
  }

  /** What the schema decides, given what each check says. */
  lemma SchemaByChecks(h: Half, c: seq<bool>, k: nat)
    requires c == HalfChecks(h) && k < 10
    ensures ParseHalf(h) == Flawed(FlawAt(k)) <==>
            !c[k] && (k > 0 ==> c[0]) && (k > 1 ==> c[1]) && (k > 2 ==> c[2]) && (k > 3 ==> c[3]) && (k > 4 ==> c[4]) &&
            (k > 5 ==> c[5]) && (k > 6 ==> c[6]) && (k > 7 ==> c[7]) && (k > 8 ==> c[8])
    ensures ParseHalf(h).Parsed? <==> c[0] && c[1] && c[2] && c[3] && c[4] && c[5] && c[6] && c[7] && c[8] && c[9]
  {
    SizeIsOctets(h.nexusId);
    SizeIsOctets(h.endpoint);
    SizeIsOctets(h.dhAlg);
    SizeIsOctets(h.dhPubkey);
  }

  function FlawAt(k: nat): Flaw {
    if k == 0 then MissingFields else if k == 1 then NexusIdTooLong else if k == 2 then EndpointTooLong
    else if k == 3 then UnsupportedSigAlg else if k == 4 then PubkeyNotBase64url else if k == 5 then PubkeyLength
    else if k == 6 then DhAlgOrDhPubkeyMissing else if k == 7 then DhAlgTooLong
    else if k == 8 then DhPubkeyTooLong else DhPubkeyNotBase64url
  }

  lemma FlawsInOrder(k: nat)
    requires k < 10
    ensures FLAWS[k] == FlawAt(k)
  {
  }

  /** A half is refused for the first check that fails; one that passes all of them
      comes back with its decoded key. */
  lemma SchemaExactly(h: Half, k: nat)
    requires k < 10
    ensures ParseHalf(h) == Flawed(FLAWS[k]) <==> FirstFailing(HalfChecks(h), k)
    ensures ParseHalf(h).Parsed? <==> AllPass(HalfChecks(h))
    ensures ParseHalf(h).Parsed? ==> KeyText(h.pubkey) && ParseHalf(h).raw == Base64Url.Decode(h.pubkey).value
  {
    SchemaByChecks(h, HalfChecks(h), k);
    TenChecks(HalfChecks(h), k);
    FlawsInOrder(k);
    DecodedKey(h);
  }

  lemma DecodedKey(h: Half)
    ensures ParseHalf(h).Parsed? ==> KeyText(h.pubkey) && ParseHalf(h).raw == Base64Url.Decode(h.pubkey).value
  {
  }

  // ---- Signature ----

  /** The text that a half's owner signs, line by line: "v2" and all eight fields
      when there is an ECDH key, else "v1" and six. */
  predicate SpellsHalf(text: string, h: Half) {
    if h.dhPubkey != "" then
      text == "v2\n" + (h.nexusId + "\n" + (h.sigAlg + "\n" + (h.pubkey + "\n" + (h.dhAlg + "\n" + (h.dhPubkey + "\n" +
              (h.endpoint + "\n" + (h.nonce + "\n" + h.ts)))))))
    else
      text == "v1\n" + (h.nexusId + "\n" + (h.sigAlg + "\n" + (h.pubkey + "\n" + (h.endpoint + "\n" + (h.nonce + "\n" + h.ts)))))
  }

  lemma JoinTwo(first: string, rest: seq<string>)
    requires rest != []
    ensures Join([first] + rest) == first + "\n" + Join(rest)
  {
    assert ([first] + rest)[1..] == rest;
  }

  lemma JoinSix(a: string, b: string, c: string, d: string, e: string, f: string)
    ensures Join([a, b, c, d, e, f]) == a + "\n" + (b + "\n" + (c + "\n" + (d + "\n" + (e + "\n" + f))))
  {
    JoinTwo(e, [f]);
    JoinTwo(d, [e, f]);
    JoinTwo(c, [d, e, f]);
    JoinTwo(b, [c, d, e, f]);
    JoinTwo(a, [b, c, d, e, f]);
    assert [e] + [f] == [e, f] && [d] + [e, f] == [d, e, f] && [c] + [d, e, f] == [c, d, e, f];
    assert [b] + [c, d, e, f] == [b, c, d, e, f] && [a] + [b, c, d, e, f] == [a, b, c, d, e, f];
  }

  /** One text spells a half, and it is the one that the relay checks. */
  lemma SignedTextExactly(text: string, h: Half)
    ensures text == SignedText(h) <==> SpellsHalf(text, h)
  {
    CanonicalForms(h);
    if h.dhPubkey != "" {
      var six := [h.pubkey, h.dhAlg, h.dhPubkey, h.endpoint, h.nonce, h.ts];
      JoinSix(h.pubkey, h.dhAlg, h.dhPubkey, h.endpoint, h.nonce, h.ts);
      JoinTwo(h.sigAlg, six);
      JoinTwo(h.nexusId, [h.sigAlg] + six);
      assert FieldsV2(h) == [h.nexusId] + ([h.sigAlg] + six);
    } else {
      JoinSix(h.nexusId, h.sigAlg, h.pubkey, h.endpoint, h.nonce, h.ts);
    }
  }

  /** Read from the outside: lines that hold no line break themselves are the
      version and the named fields, "v2" exactly when there is an ECDH key. */
  lemma LinesExactly(text: string, h: Half)
    requires LfFree(FieldsV2(h))
    ensures SpellsHalf(text, h) <==>
            Split(text) == if h.dhPubkey != "" then ["v2", h.nexusId, h.sigAlg, h.pubkey, h.dhAlg, h.dhPubkey, h.endpoint, h.nonce, h.ts]
                           else ["v1", h.nexusId, h.sigAlg, h.pubkey, h.endpoint, h.nonce, h.ts]
  {
    SignedTextExactly(text, h);
    var lines := if h.dhPubkey != "" then ["v2"] + FieldsV2(h) else ["v1"] + FieldsV1(h);
    LinesLfFree(h);
    SplitJoin(lines);
    if Split(text) == lines {
      JoinSplit(text);
    }
  }

  lemma LinesLfFree(h: Half)
    requires LfFree(FieldsV2(h))
    ensures LfFree(["v2"] + FieldsV2(h)) && LfFree(["v1"] + FieldsV1(h))
  {
    var v := FieldsV2(h);
    assert '\n' !in v[0] && '\n' !in v[1] && '\n' !in v[2] && '\n' !in v[5] && '\n' !in v[6] && '\n' !in v[7];
  }

  lemma {:induction false} JoinSplit(s: string)
    ensures Join(Split(s)) == s
  {
    if s != "" {
      JoinSplit(s[1..]);
      var rest := Split(s[1..]);
      if s[0] == '\n' {
        JoinTwo("", rest);
        assert s == "\n" + s[1..];
      } else {
        assert s == [s[0]] + s[1..];
        if |rest| > 1 {
          JoinTwo(rest[0], rest[1..]);
          JoinTwo([s[0]] + rest[0], rest[1..]);
          assert rest == [rest[0]] + rest[1..];
          assert [s[0]] + rest[0] + "\n" + Join(rest[1..]) == [s[0]] + (rest[0] + "\n" + Join(rest[1..]));
        }
      }
    }
  }

  /** The key that a half names verifies its signature over its own text. */
  ghost predicate SelfSigned(lib: Library, h: Half) {
    KeyText(h.pubkey) && Base64Url.Decode(h.selfSig).Some? && |Base64Url.Decode(h.selfSig).value| == 64 &&
    exists text :: SpellsHalf(text, h) && lib.ed25519(Base64Url.Decode(h.pubkey).value, text, Base64Url.Decode(h.selfSig).value)
  }

  lemma VerifiesExactly(lib: Library, h: Half)
    requires ParseHalf(h).Parsed?
    ensures VerifySelfSig(lib, h, ParseHalf(h).raw) <==> SelfSigned(lib, h)
  {
    SchemaExactly(h, 0);
    SignedTextExactly(SignedText(h), h);
    if SelfSigned(lib, h) {
      var text :| SpellsHalf(text, h) && lib.ed25519(Base64Url.Decode(h.pubkey).value, text, Base64Url.Decode(h.selfSig).value);
      SignedTextExactly(text, h);
    }
  }
}
