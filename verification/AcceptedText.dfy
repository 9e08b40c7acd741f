/** The signed text of envelopes that pass the checks of PUT. */
module AcceptedText {
  import opened Lex
  import opened Foreign
  import opened CanonicalJson
  import opened Hex
  import opened Mailbox
  import opened Storage
  import Base64Url
  import PathId
  import Uuid

  predicate Ascii(s: string) {
    forall i :: 0 <= i < |s| ==> s[i] < 128 as char
  }

  lemma AsciiParts(a: string, b: string)
    ensures Ascii(a + b) <==> Ascii(a) && Ascii(b)
  {
    assert Ascii(a + b) ==> Ascii(a) by {
      assert forall i :: 0 <= i < |a| ==> a[i] == (a + b)[i];
    }
    assert Ascii(a + b) ==> Ascii(b) by {
      assert forall i :: 0 <= i < |b| ==> b[i] == (a + b)[|a| + i];
    }
  }

  lemma {:induction false} QuantaAscii(s: string)
    requires Base64Url.DecodeQuanta(s).Some?
    ensures Ascii(s)
  {
    if s != "" {
      assert s == s[..4] + s[4..];
      AsciiParts(s[..4], s[4..]);
      if Base64Url.InAlphabet(s[2]) && Base64Url.InAlphabet(s[3]) {
        QuantaAscii(s[4..]);
      }
    }
  }

  lemma {:induction false} StrippedAscii(s: string)
    requires Ascii(Base64Url.StripNewlines(s))
    ensures Ascii(s)
  {
    if s != "" {
      var rest := Base64Url.StripNewlines(s[1..]);
      assert s == [s[0]] + s[1..];
      AsciiParts([s[0]], s[1..]);
      if s[0] == '\n' || s[0] == '\r' {
        StrippedAscii(s[1..]);
      } else {
        AsciiParts([s[0]], rest);
        StrippedAscii(s[1..]);
      }
    }
  }

  /** Text that the lenient decoder takes holds ASCII characters only. */
  lemma DecodableAscii(s: string)
    requires Base64Url.Decode(s).Some?
    ensures Ascii(s)
  {
    var padded := Base64Url.PadToFour(s);
    QuantaAscii(Base64Url.StripNewlines(padded));
    StrippedAscii(padded);
    assert padded == s + padded[|s|..];
    AsciiParts(s, padded[|s|..]);
  }

  lemma {:induction false} HexAscii(bytes: seq<Octet>)
    ensures Ascii(HexText(bytes))
  {
    if bytes != [] {
      HexAscii(bytes[1..]);
      AsciiParts([HexChar(bytes[0] / 16), HexChar(bytes[0] % 16)], HexText(bytes[1..]));
    }
  }

  lemma PathIdAscii(s: string)
    requires PathId.PathIdShape(s)
    ensures Ascii(s)
  {
    assert s == s[..4] + s[4..];
    AsciiParts(s[..4], s[4..]);
  }

  lemma UuidAscii(s: string)
    requires Uuid.UuidShape(s)
    ensures Ascii(s)
  {
  }

  lemma AsciiIsPlain(s: string)
    requires Ascii(s)
    ensures NoLineSeparator(s)
  {
  }

  // ---- Timestamps ----

  lemma TimestampAscii(s: string)
    requires TimestampText(s)
    ensures Ascii(s)
  {
    forall i | 0 <= i < |s|
      ensures s[i] < 128 as char
    {
      assert TimestampChar(s[i]);
    }
  }

  // ---- The signed text ----

  lemma CheckedIsAscii(lib: Library, pathId: string, e: Envelope, now: int)
    requires ReadsTimestamps(lib) && PathId.PathIdShape(pathId) && EnvelopeProblem(lib, pathId, e, now).None?
    ensures AllAscii(e)
  {
    DecodableAscii(e.ciphertext);
    HexAscii(lib.sha256(Base64Url.Decode(e.ciphertext).value));
    UuidAscii(e.msgId);
    PathIdAscii(pathId);
    TimestampAscii(e.ts);
  }

  predicate AllAscii(e: Envelope) {
    Ascii(e.ciphertext) && Ascii(e.ciphertextSha256) && Ascii(e.msgId) && Ascii(e.pathId) && Ascii(e.ts) && Ascii(e.version)
  }

  lemma AsciiMembersPlain(e: Envelope)
    requires AllAscii(e)
    ensures PlainValues(Members(e))
  {
    AsciiIsPlain(e.ciphertext);
    AsciiIsPlain(e.ciphertextSha256);
    AsciiIsPlain(e.msgId);
    AsciiIsPlain(e.pathId);
    AsciiIsPlain(e.ts);
    AsciiIsPlain(e.version);
  }

  lemma AsciiIsJcs(e: Envelope)
    requires AllAscii(e)
    ensures Canonical(e) == Jcs(e)
  {
    AsciiMembersPlain(e);
    CanonicalIsJcsExactly(e);
  }

  /** Every envelope that passes the checks of PUT is signed over its RFC 8785
      serialisation. */
  lemma AcceptedIsJcs(lib: Library, pathId: string, e: Envelope, now: int)
    requires ReadsTimestamps(lib) && PathId.PathIdShape(pathId) && EnvelopeProblem(lib, pathId, e, now).None?
    ensures Canonical(e) == Jcs(e)
  {
    CheckedIsAscii(lib, pathId, e, now);
    AsciiIsJcs(e);
  }

  /** An accepted PUT was signed by a half of the pair over that text. */
  lemma AcceptedIsSignedJcs(lib: Library, pairs: Pairs, pathId: string, body: Body, signature: string, now: int)
    requires ReadsTimestamps(lib) && PathId.PathIdShape(pathId)
    requires PutProblem(lib, pairs, pathId, body, signature, now).None?
    ensures pathId in pairs && body.decoded.Some?
    ensures Identify(lib, pairs[pathId], signature, Jcs(body.decoded.value)).Known?
  {
    AcceptedIsJcs(lib, pathId, body.decoded.value, now);
  }
}
