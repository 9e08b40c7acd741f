/** The halves that two parties submit for pairing, and the line-oriented text
    that each of them signs. */
module SelfSig {
  import opened Lex
  import opened Foreign
  import Base64Url

  datatype Half = Half(
    nexusId: string, sigAlg: string, pubkey: string, dhAlg: string, dhPubkey: string,
    endpoint: string, nonce: string, ts: string, selfSig: string)

  datatype Flaw =
    | MissingFields | NexusIdTooLong | EndpointTooLong | UnsupportedSigAlg | PubkeyNotBase64url | PubkeyLength
    | DhAlgOrDhPubkeyMissing | DhAlgTooLong | DhPubkeyTooLong | DhPubkeyNotBase64url

  datatype ParsedHalf = Parsed(raw: seq<Octet>) | Flawed(flaw: Flaw)

  /** Schema checks in the order of the source; the accepted half comes with its
      decoded public key. */
  function ParseHalf(h: Half): ParsedHalf {
    var pub := Base64Url.Decode(h.pubkey);
    if h.nexusId == "" || h.sigAlg == "" || h.pubkey == "" || h.nonce == "" || h.ts == "" || h.selfSig == "" then
      Flawed(MissingFields)
    else if Utf8Size(h.nexusId) > 256 then Flawed(NexusIdTooLong)
    else if Utf8Size(h.endpoint) > 1024 then Flawed(EndpointTooLong)
    else if h.sigAlg != "ed25519" then Flawed(UnsupportedSigAlg)
    else if pub.None? then Flawed(PubkeyNotBase64url)
    else if |pub.value| != 32 then Flawed(PubkeyLength)
    else if (h.dhAlg == "") != (h.dhPubkey == "") then Flawed(DhAlgOrDhPubkeyMissing)
    else if Utf8Size(h.dhAlg) > 32 then Flawed(DhAlgTooLong)
    else if Utf8Size(h.dhPubkey) > 256 then Flawed(DhPubkeyTooLong)
    else if h.dhPubkey != "" && Base64Url.Decode(h.dhPubkey).None? then Flawed(DhPubkeyNotBase64url)
    else Parsed(pub.value)
  }

  /** Text that stands for an Ed25519 public key. */
  predicate KeyText(text: string) {
    Base64Url.Decode(text).Some? && |Base64Url.Decode(text).value| == 32
  }

  function Join(fields: seq<string>): string {
    if fields == [] then ""
    else if |fields| == 1 then fields[0]
    else fields[0] + "\n" + Join(fields[1..])
  }

  function FieldsV1(h: Half): seq<string> {
    [h.nexusId, h.sigAlg, h.pubkey, h.endpoint, h.nonce, h.ts]
  }

  function FieldsV2(h: Half): seq<string> {
    [h.nexusId, h.sigAlg, h.pubkey, h.dhAlg, h.dhPubkey, h.endpoint, h.nonce, h.ts]
  }

  function CanonicalV1(h: Half): string {
    Join(["v1"] + FieldsV1(h))
  }

  function CanonicalV2(h: Half): string {
    Join(["v2"] + FieldsV2(h))
  }

  /** The text whose signature is checked: a half that carries ECDH material
      must have it covered. */
  function SignedText(h: Half): string {
    if h.dhPubkey != "" then CanonicalV2(h) else CanonicalV1(h)
  }

  predicate VerifySelfSig(lib: Library, h: Half, raw: seq<Octet>) {
    var sig := Base64Url.Decode(h.selfSig);
    sig.Some? && |sig.value| == 64 && lib.ed25519(raw, SignedText(h), sig.value)
  }

  // ---- Splitting undoes joining ----

  predicate LfFree(fields: seq<string>) {
    forall i :: 0 <= i < |fields| ==> '\n' !in fields[i]
  }

  function Split(s: string): (fields: seq<string>)
    ensures |fields| >= 1
  {
    if s == "" then [""]
    else if s[0] == '\n' then [""] + Split(s[1..])
    else
      var rest := Split(s[1..]);
      [[s[0]] + rest[0]] + rest[1..]
  }

  lemma {:induction false} SplitAfterField(f: string, s: string)
    requires '\n' !in f
    ensures Split(f + "\n" + s) == [f] + Split(s)
  {
    if f == "" {
      assert f + "\n" + s == "\n" + s;
    } else {
      SplitAfterField(f[1..], s);
      assert (f + "\n" + s)[1..] == f[1..] + "\n" + s;
      assert f == [f[0]] + f[1..];
    }
  }

  lemma {:induction false} SplitPlain(f: string)
    requires '\n' !in f
    ensures Split(f) == [f]
  {
    if f != "" {
      SplitPlain(f[1..]);
      assert f == [f[0]] + f[1..];
    }
  }

  /** Every field of a preimage is recovered when none of them holds an LF. */
  lemma {:induction false} SplitJoin(fields: seq<string>)
    requires fields != [] && LfFree(fields)
    ensures Split(Join(fields)) == fields
  {
    if |fields| == 1 {
      SplitPlain(fields[0]);
    } else {
      SplitJoin(fields[1..]);
      SplitAfterField(fields[0], Join(fields[1..]));
      assert fields == [fields[0]] + fields[1..];
    }
  }

  function LfCount(s: string): nat {
    if s == "" then 0 else (if s[0] == '\n' then 1 else 0) + LfCount(s[1..])
  }

  function LfTotal(fields: seq<string>): nat {
    if fields == [] then 0 else LfCount(fields[0]) + LfTotal(fields[1..])
  }

  lemma {:induction false} LfCountConcat(s: string, t: string)
    ensures LfCount(s + t) == LfCount(s) + LfCount(t)
  {
    if s == "" {
      assert s + t == t;
    } else {
      LfCountConcat(s[1..], t);
      assert (s + t)[1..] == s[1..] + t;
    }
  }

  lemma {:induction false} LfCountJoin(fields: seq<string>)
    requires fields != []
    ensures LfCount(Join(fields)) == |fields| - 1 + LfTotal(fields)
  {
    if |fields| > 1 {
      LfCountJoin(fields[1..]);
      LfCountConcat(fields[0] + "\n", Join(fields[1..]));
      LfCountConcat(fields[0], "\n");
    }
  }

  lemma {:induction false} LfCountZero(s: string)
    ensures LfCount(s) == 0 <==> '\n' !in s
  {
    if s != "" {
      LfCountZero(s[1..]);
      assert s == [s[0]] + s[1..];
    }
  }

  lemma {:induction false} LfTotalZero(fields: seq<string>)
    ensures LfTotal(fields) == 0 <==> LfFree(fields)
  {
    if fields != [] {
      LfTotalZero(fields[1..]);
      LfCountZero(fields[0]);
      assert fields == [fields[0]] + fields[1..];
      assert forall i :: 1 <= i < |fields| ==> fields[i] == fields[1..][i - 1];
    }
  }

  /** Fields without LF cannot be confused with any other fields of that number. */
  lemma JoinDetermines(fields: seq<string>, others: seq<string>)
    requires |fields| == |others| && fields != [] && LfFree(fields)
    requires Join(fields) == Join(others)
    ensures fields == others
  {
    LfCountJoin(fields);
    LfCountJoin(others);
    LfTotalZero(fields);
    LfTotalZero(others);
    SplitJoin(fields);
    SplitJoin(others);
  }

  // ---- An LF inside a field always allows a second reading ----

  lemma {:induction false} JoinAppend(m: seq<string>, b: seq<string>)
    requires m != [] && b != []
    ensures Join(m + b) == Join(m) + "\n" + Join(b)
  {
    if |m| == 1 {
      assert (m + b)[1..] == b;
    } else {
      JoinAppend(m[1..], b);
      assert (m + b)[1..] == m[1..] + b;
      assert Join(m + b) == m[0] + "\n" + (Join(m[1..]) + "\n" + Join(b));
    }
  }

  lemma JoinBefore(m: seq<string>, n: seq<string>, b: seq<string>)
    requires m != [] && n != [] && Join(m) == Join(n)
    ensures Join(m + b) == Join(n + b)
  {
    if b != [] {
      JoinAppend(m, b);
      JoinAppend(n, b);
    } else {
      assert m + b == m && n + b == n;
    }
  }

  lemma JoinAfter(a: seq<string>, m: seq<string>, n: seq<string>)
    requires m != [] && n != [] && Join(m) == Join(n)
    ensures Join(a + m) == Join(a + n)
  {
    if a != [] {
      JoinAppend(a, m);
      JoinAppend(a, n);
    } else {
      assert a + m == m && a + n == n;
    }
  }

  lemma JoinCongruence(a: seq<string>, m: seq<string>, n: seq<string>, b: seq<string>)
    requires m != [] && n != [] && Join(m) == Join(n)
    ensures Join(a + m + b) == Join(a + n + b)
  {
    assert a + m + b == a + (m + b) && a + n + b == a + (n + b);
    JoinBefore(m, n, b);
    JoinAfter(a, m + b, n + b);
  }

  lemma SecondReading(fields: seq<string>) returns (others: seq<string>)
    requires |fields| >= 2 && !LfFree(fields)
    ensures |others| == |fields| && others != fields && Join(others) == Join(fields)
  {
    var i :| 0 <= i < |fields| && '\n' in fields[i];
    var f := fields[i];
    var p :| 0 <= p < |f| && f[p] == '\n';
    var x, y := f[..p], f[p + 1..];
    assert f == x + "\n" + y;
    // The two neighbouring fields among which the boundary moves.
    var k := if i + 1 < |fields| then i else i - 1;
    var g := if k == i then fields[i + 1] else fields[i - 1];
    var m := [fields[k], fields[k + 1]];
    var n := if k == i then [x, y + "\n" + g] else [g + "\n" + x, y];
    assert m[1..] == [m[1]] && n[1..] == [n[1]];
    assert Join(m) == Join(n) by {
      if k == i {
        assert x + "\n" + y + "\n" + g == x + "\n" + (y + "\n" + g);
      } else {
        assert g + "\n" + (x + "\n" + y) == g + "\n" + x + "\n" + y;
      }
    }
    others := fields[..k] + n + fields[k + 2..];
    assert fields == fields[..k] + m + fields[k + 2..];
    JoinCongruence(fields[..k], m, n, fields[k + 2..]);
    assert others[i] == n[i - k] != fields[i];
  }

  // ---- Self-signature preimages ----

  lemma CanonicalForms(h: Half)
    ensures CanonicalV1(h) == "v1\n" + Join(FieldsV1(h))
    ensures CanonicalV2(h) == "v2\n" + Join(FieldsV2(h))
  {
    assert (["v1"] + FieldsV1(h))[1..] == FieldsV1(h);
    assert (["v2"] + FieldsV2(h))[1..] == FieldsV2(h);
  }

  /** No v1 preimage is a v2 preimage, whatever the fields hold. */
  lemma VersionsDisjoint(h: Half, k: Half)
    ensures CanonicalV1(h) != CanonicalV2(k)
  {
    CanonicalForms(h);
    CanonicalForms(k);
    assert CanonicalV1(h)[1] != CanonicalV2(k)[1];
  }

  lemma SameCanonicalV1(h: Half, k: Half)
    ensures CanonicalV1(h) == CanonicalV1(k) <==> Join(FieldsV1(h)) == Join(FieldsV1(k))
  {
    CanonicalForms(h);
    CanonicalForms(k);
    assert CanonicalV1(h)[3..] == Join(FieldsV1(h)) && CanonicalV1(k)[3..] == Join(FieldsV1(k));
  }

  lemma SameCanonicalV2(h: Half, k: Half)
    ensures CanonicalV2(h) == CanonicalV2(k) <==> Join(FieldsV2(h)) == Join(FieldsV2(k))
  {
    CanonicalForms(h);
    CanonicalForms(k);
    assert CanonicalV2(h)[3..] == Join(FieldsV2(h)) && CanonicalV2(k)[3..] == Join(FieldsV2(k));
  }

  ghost predicate V1Determines(h: Half) {
    forall k: Half :: CanonicalV1(k) == CanonicalV1(h) ==> FieldsV1(k) == FieldsV1(h)
  }

  ghost predicate V2Determines(h: Half) {
    forall k: Half :: CanonicalV2(k) == CanonicalV2(h) ==> FieldsV2(k) == FieldsV2(h)
  }

  /** A v1 preimage determines its half exactly when no field holds an LF. */
  lemma V1UnambiguousExactly(h: Half)
    ensures V1Determines(h) <==> LfFree(FieldsV1(h))
  {
    if LfFree(FieldsV1(h)) {
      forall k: Half | CanonicalV1(k) == CanonicalV1(h)
        ensures FieldsV1(k) == FieldsV1(h)
      {
        SameCanonicalV1(h, k);
        JoinDetermines(FieldsV1(h), FieldsV1(k));
      }
    } else {
      var o := SecondReading(FieldsV1(h));
      var k := Half(o[0], o[1], o[2], h.dhAlg, h.dhPubkey, o[3], o[4], o[5], h.selfSig);
      assert FieldsV1(k) == o;
      SameCanonicalV1(h, k);
      assert CanonicalV1(k) == CanonicalV1(h) && FieldsV1(k) != FieldsV1(h);
    }
  }

  /** A v2 preimage determines its half exactly when no field holds an LF. */
  lemma V2UnambiguousExactly(h: Half)
    ensures V2Determines(h) <==> LfFree(FieldsV2(h))
  {
    if LfFree(FieldsV2(h)) {
      forall k: Half | CanonicalV2(k) == CanonicalV2(h)
        ensures FieldsV2(k) == FieldsV2(h)
      {
        SameCanonicalV2(h, k);
        JoinDetermines(FieldsV2(h), FieldsV2(k));
      }
    } else {
      var o := SecondReading(FieldsV2(h));
      var k := Half(o[0], o[1], o[2], o[3], o[4], o[5], o[6], o[7], h.selfSig);
      assert FieldsV2(k) == o;
      SameCanonicalV2(h, k);
      assert CanonicalV2(k) == CanonicalV2(h) && FieldsV2(k) != FieldsV2(h);
    }
  }

  /** The checked text of a half that carries ECDH material fixes all its fields:
      any half with the same checked text has the same ECDH algorithm and key, so
      neither can be swapped or dropped under one signature. */
  lemma SignatureCoversEcdh(h: Half, k: Half)
    requires h.dhPubkey != "" && LfFree(FieldsV2(h))
    requires SignedText(k) == SignedText(h)
    ensures k.dhPubkey == h.dhPubkey && k.dhAlg == h.dhAlg && FieldsV2(k) == FieldsV2(h)
  {
    VersionsDisjoint(k, h);
    V2UnambiguousExactly(h);
    assert FieldsV2(k) == FieldsV2(h);
    assert FieldsV2(k)[3] == FieldsV2(h)[3] && FieldsV2(k)[4] == FieldsV2(h)[4];
  }

  // ---- Line breaks that the schema lets through ----

  const BREAKS: string := "\n\n\n\n"

  lemma BreakSkipped(t: string)
    ensures Base64Url.StripNewlines("\n" + t) == Base64Url.StripNewlines(t)
  {
    assert ("\n" + t)[1..] == t;
  }

  /** The decoder skips line breaks, and four of them leave the padding as it was. */
  lemma FourBreaksDecode(s: string)
    ensures Base64Url.Decode(BREAKS + s) == Base64Url.Decode(s)
  {
    var t := Base64Url.PadToFour(s);
    assert Base64Url.PadToFour(BREAKS + s) == BREAKS + t;
    var t1 := "\n" + t;
    var t2 := "\n" + t1;
    var t3 := "\n" + t2;
    BreakSkipped(t);
    BreakSkipped(t1);
    BreakSkipped(t2);
    BreakSkipped(t3);
    assert BREAKS + t == "\n" + t3;
  }

  lemma {:induction false} Utf8SizeConcat(s: string, t: string)
    ensures Utf8Size(s + t) == Utf8Size(s) + Utf8Size(t)
  {
    if s == "" {
      assert s + t == t;
    } else {
      Utf8SizeConcat(s[1..], t);
      assert (s + t)[1..] == s[1..] + t;
    }
  }

  lemma BreaksSize()
    ensures Utf8Size(BREAKS) == 4
  {
    assert BREAKS == "\n\n" + "\n\n" && "\n\n" == "\n" + "\n";
    Utf8SizeConcat("\n\n", "\n\n");
    Utf8SizeConcat("\n", "\n");
    assert Utf8Size("\n") == 1;
  }

  lemma BoundaryMoves(h: Half)
    requires h.dhPubkey != ""
    ensures SignedText(h.(dhPubkey := BREAKS + h.dhPubkey)) == SignedText(h.(dhAlg := h.dhAlg + BREAKS))
  {
    var p, q := h.(dhPubkey := BREAKS + h.dhPubkey), h.(dhAlg := h.dhAlg + BREAKS);
    var m, n := [p.dhAlg, p.dhPubkey], [q.dhAlg, q.dhPubkey];
    assert m[1..] == [p.dhPubkey] && n[1..] == [q.dhPubkey];
    assert h.dhAlg + "\n" + (BREAKS + h.dhPubkey) == (h.dhAlg + BREAKS) + "\n" + h.dhPubkey;
    var front, back := [h.nexusId, h.sigAlg, h.pubkey], [h.endpoint, h.nonce, h.ts];
    assert FieldsV2(p) == front + m + back && FieldsV2(q) == front + n + back;
    JoinCongruence(front, m, n, back);
    SameCanonicalV2(p, q);
  }

  /** The schema does not keep LF out of the ECDH fields, so an accepted text need
      not fix them: every accepted half with room for four more characters in both
      fields gives two that pass the schema, have one signed text between them and
      carry different ECDH fields. */
  lemma AcceptedTextIsAmbiguous(lib: Library, h: Half)
    requires ParseHalf(h).Parsed? && h.dhPubkey != ""
    requires Utf8Size(h.dhAlg) + 4 <= 32 && Utf8Size(h.dhPubkey) + 4 <= 256
    ensures var p, q := h.(dhPubkey := BREAKS + h.dhPubkey), h.(dhAlg := h.dhAlg + BREAKS);
            ParseHalf(p) == ParseHalf(q) == ParseHalf(h) && SignedText(p) == SignedText(q) &&
            VerifySelfSig(lib, p, ParseHalf(h).raw) == VerifySelfSig(lib, q, ParseHalf(h).raw) &&
            p.dhAlg != q.dhAlg && p.dhPubkey != q.dhPubkey
  {
    var p, q := h.(dhPubkey := BREAKS + h.dhPubkey), h.(dhAlg := h.dhAlg + BREAKS);
    BoundaryMoves(h);
    FourBreaksDecode(h.dhPubkey);
    BreaksSize();
    Utf8SizeConcat(BREAKS, h.dhPubkey);
    Utf8SizeConcat(h.dhAlg, BREAKS);
    assert |p.dhPubkey| == 4 + |q.dhPubkey| && |q.dhAlg| == |p.dhAlg| + 4;
  }
}
