/** The four kinds of text that clients sign: an envelope, a listing request, an
    ack and a half. No text is of two kinds, and each one determines what it asks
    for, so that a signature given for one request serves no other. */
module SignedTexts {
  import opened Lex
  import opened CanonicalJson
  import opened Hex
  import opened Mailbox
  import opened SelfSig
  import PathId

  /** A request is determined by the text that it signs. */
  lemma ListingTextExactly(p: string, query: string, q: string, other: string)
    requires PathId.PathIdShape(p) && PathId.PathIdShape(q)
    ensures GetText(p, query) == GetText(q, other) <==> p == q && query == other
  {
    if GetText(p, query) == GetText(q, other) {
      PathStands(p, GetText(p, query)[56..]);
      PathStands(q, GetText(q, other)[56..]);
      GetTextParts(p, query);
      GetTextParts(q, other);
    }
  }

  lemma PathStands(p: string, rest: string)
    requires |p| == 47
    ensures |"/mailbox/" + p + rest| == 56 + |rest|
    ensures ("/mailbox/" + p + rest)[9..56] == p && ("/mailbox/" + p + rest)[56..] == rest
  {
  }

  lemma GetTextParts(p: string, query: string)
    requires |p| == 47
    ensures |GetText(p, query)| == 56 + if query == "" then 0 else 1 + |query|
    ensures GetText(p, query)[9..56] == p
    ensures query != "" ==> GetText(p, query)[56] == '?' && GetText(p, query)[57..] == query
  {
    PathStands(p, if query == "" then "" else "?" + query);
    assert GetText(p, query) == "/mailbox/" + p + if query == "" then "" else "?" + query;
  }

  lemma AckTextParts(p: string)
    requires |p| == 47
    ensures |AckText(p)| == 60 && AckText(p)[9..56] == p && AckText(p)[56..] == "/ack"
  {
    PathStands(p, "/ack");
  }

  lemma AckTextExactly(p: string, q: string)
    requires PathId.PathIdShape(p) && PathId.PathIdShape(q)
    ensures AckText(p) == AckText(q) <==> p == q
  {
    AckTextParts(p);
    AckTextParts(q);
  }

  lemma ListingIsNoAck(p: string, query: string, q: string)
    requires PathId.PathIdShape(p) && PathId.PathIdShape(q)
    ensures GetText(p, query) != AckText(q)
  {
    GetTextParts(p, query);
    AckTextParts(q);
    assert AckText(q)[56] == AckText(q)[56..][0];
  }

  lemma FirstCharacters(e: Envelope, p: string, query: string, h: Half)
    ensures Canonical(e) != "" && Canonical(e)[0] == '{'
    ensures GetText(p, query)[0] == '/' && AckText(p)[0] == '/'
    ensures SignedText(h) != "" && SignedText(h)[0] == 'v'
  {
    CanonicalText(e);
    CanonicalForms(h);
  }

  /** No text that a client may be asked to sign is of two kinds. */
  lemma KindsApart(e: Envelope, p: string, query: string, q: string, h: Half)
    requires PathId.PathIdShape(p) && PathId.PathIdShape(q)
    ensures Canonical(e) != GetText(p, query) && Canonical(e) != AckText(q) && Canonical(e) != SignedText(h)
    ensures GetText(p, query) != AckText(q) && SignedText(h) != GetText(p, query) && SignedText(h) != AckText(q)
  {
    FirstCharacters(e, p, query, h);
    FirstCharacters(e, q, query, h);
    ListingIsNoAck(p, query, q);
  }

  // ---- The signed text of an envelope, written out ----

  predicate NothingToEscape(s: string) {
    forall i :: 0 <= i < |s| ==> '0' <= s[i] <= 'z' && s[i] != '\\'
  }

  lemma {:induction false} WrittenAsIs(s: string)
    requires NothingToEscape(s)
    ensures Escape(s, GoChar) == s && GoString(s) == "\"" + s + "\""
  {
    if s != "" {
      WrittenAsIs(s[1..]);
      assert GoChar(s[0]) == [s[0]];
      assert s == [s[0]] + s[1..];
    }
  }

  /** Texts with commas between them. */
  function Commas(texts: seq<string>): string {
    if texts == [] then "" else if |texts| == 1 then texts[0] else texts[0] + "," + Commas(texts[1..])
  }

  function Pair(m: Member, quote: string -> string): string {
    "\"" + m.0 + "\":" + quote(m.1)
  }

  function Pairs(ms: seq<Member>, quote: string -> string): (texts: seq<string>)
    ensures |texts| == |ms| && forall i :: 0 <= i < |ms| ==> texts[i] == Pair(ms[i], quote)
  {
    seq(|ms|, i requires 0 <= i < |ms| => Pair(ms[i], quote))
  }

  ghost predicate PlainKeys(ms: seq<Member>, quote: string -> string) {
    forall i :: 0 <= i < |ms| ==> quote(ms[i].0) == "\"" + ms[i].0 + "\""
  }

  lemma FirstMember(ms: seq<Member>, quote: string -> string)
    requires ms != [] && PlainKeys(ms, quote)
    ensures WriteMembers(ms, quote) == Pair(ms[0], quote) + AfterMember(ms, quote)
  {
    var key, value, rest := ms[0].0, quote(ms[0].1), AfterMember(ms, quote);
    assert "\"" + key + "\"" + (":" + (value + rest)) == "\"" + key + "\":" + value + rest;
  }

  lemma {:induction false} MembersWritten(ms: seq<Member>, quote: string -> string)
    requires ms != [] && PlainKeys(ms, quote)
    ensures WriteMembers(ms, quote) == Commas(Pairs(ms, quote)) + "}"
  {
    FirstMember(ms, quote);
    if |ms| > 1 {
      MembersWritten(ms[1..], quote);
      assert Pairs(ms, quote)[1..] == Pairs(ms[1..], quote);
      CommaBetween(Pair(ms[0], quote), Commas(Pairs(ms[1..], quote)));
    } else {
      assert Pairs(ms, quote) == [Pair(ms[0], quote)];
    }
  }

  lemma CommaBetween(first: string, rest: string)
    ensures first + ("," + (rest + "}")) == first + "," + rest + "}"
  {
  }

  /** The signed text of an envelope: its six members by name, in this order, with
      nothing between them but commas. */
  lemma EnvelopeText(e: Envelope)
    ensures Canonical(e) ==
            "{" + (Commas(Pairs([("ciphertext", e.ciphertext), ("ciphertext_sha256", e.ciphertextSha256),
                                 ("msg_id", e.msgId), ("path_id", e.pathId), ("ts", e.ts), ("version", e.version)],
                                GoString)) + "}")
  {
    CanonicalText(e);
    var ms := Members(e);
    KeysAreWords(ms);
    forall i | 0 <= i < |ms|
      ensures GoString(ms[i].0) == "\"" + ms[i].0 + "\""
    {
      WrittenAsIs(ms[i].0);
    }
    MembersWritten(ms, GoString);
  }

  lemma KeysAreWords(ms: seq<Member>)
    requires |ms| == 6 && ms[0].0 == "ciphertext" && ms[1].0 == "ciphertext_sha256" && ms[2].0 == "msg_id"
    requires ms[3].0 == "path_id" && ms[4].0 == "ts" && ms[5].0 == "version"
    ensures forall i :: 0 <= i < |ms| ==> NothingToEscape(ms[i].0)
  {
  }

  // ---- How a string value is written ----

  /** `t` is a JSON spelling of the one character `c`. */
  predicate SpellsChar(t: string, c: char) {
    ReadChar(t) == Some((c, ""))
  }

  /** Section 3.2.2.2 of RFC 8785: a character is written in the shortest way there
      is, with digits in lower case; no other spelling is as short. */
  lemma ShortestSpelling(c: char, t: string)
    requires SpellsChar(t, c)
    ensures SpellsChar(JcsChar(c), c) && |JcsChar(c)| <= |t|
    ensures |t| == |JcsChar(c)| && (forall i :: 0 <= i < |t| ==> !('A' <= t[i] <= 'F')) ==> t == JcsChar(c)
  {
    SpelledByJcs(c);
    if t[0] != '\\' {
      SpelledAsIs(c, t);
    } else if t[1] == 'u' {
      SpelledByCode(c, t);
      if c < ' ' && |JcsChar(c)| == 6 && forall i :: 0 <= i < |t| ==> !('A' <= t[i] <= 'F') {
        SpelledLower(c, t);
      }
    } else {
      SpelledByLetter(c, t);
    }
  }

  lemma SpelledAsIs(c: char, t: string)
    requires SpellsChar(t, c) && t[0] != '\\'
    ensures t == [c] && |JcsChar(c)| == 1 && JcsChar(c) == [c]
  {
    assert t == [t[0]] + t[1..];
  }

  lemma SpelledByLetter(c: char, t: string)
    requires SpellsChar(t, c) && t[0] == '\\' && t[1] != 'u'
    ensures |t| == 2 && (c == '/' || t == JcsChar(c)) && |JcsChar(c)| <= 2
    ensures c == '/' ==> |JcsChar(c)| == 1
  {
    assert t == [t[0], t[1]] + t[2..];
  }

  lemma SpelledLower(c: char, t: string)
    requires SpellsChar(t, c) && t[0] == '\\' && t[1] == 'u' && |t| == 6 && c < ' ' && |JcsChar(c)| == 6
    requires t[2] == '0' && t[3] == '0' && HexValue(t[4]) == Some(c as int / 16) && HexValue(t[5]) == Some(c as int % 16)
    requires !('A' <= t[4] <= 'F') && !('A' <= t[5] <= 'F')
    ensures t == JcsChar(c)
  {
    DigitTable(c as int / 16);
    DigitTable(c as int % 16);
    assert t[4] == HexChar(c as int / 16) && t[5] == HexChar(c as int % 16);
    assert t == "\\u00" + [t[4], t[5]];
  }

  lemma SpelledByJcs(c: char)
    ensures SpellsChar(JcsChar(c), c)
  {
    if c < ' ' {
      ControlRoundTrip(c, "");
      assert GoChar(c) + "" == JcsChar(c);
    } else {
      assert JcsChar(c)[|JcsChar(c)|..] == "";
    }
  }

  lemma SpelledByCode(c: char, t: string)
    requires SpellsChar(t, c) && t[0] == '\\' && t[1] == 'u'
    ensures |t| == 6
    ensures c < ' ' ==> t[2] == '0' && t[3] == '0' && HexValue(t[4]) == Some(c as int / 16) && HexValue(t[5]) == Some(c as int % 16)
  {
    assert t[6..] == "";
    var code := FourHex(t[2..6]);
    assert code == Some(c as int);
  }
}
