/** The outer envelope and the canonical JSON text that its sender signs. */
module CanonicalJson {
  import opened Hex
  import opened Lex

  datatype Envelope = Envelope(
    version: string, msgId: string, ts: string, pathId: string,
    ciphertextSha256: string, ciphertext: string)

  type Member = (string, string)

  const KEYS: seq<string> := ["ciphertext", "ciphertext_sha256", "msg_id", "path_id", "ts", "version"]

  /** Members in declaration order of the source's canonical struct. */
  function Members(e: Envelope): seq<Member> {
    [("ciphertext", e.ciphertext), ("ciphertext_sha256", e.ciphertextSha256), ("msg_id", e.msgId),
     ("path_id", e.pathId), ("ts", e.ts), ("version", e.version)]
  }

  // ---- Writing ----

  predicate LineSeparator(c: char) {
    c == '\U{2028}' || c == '\U{2029}'
  }

  /** Escapes that Go's encoder and section 3.2.2.2 of RFC 8785 have in common. */
  function JcsChar(c: char): string {
    if c == '"' || c == '\\' then ['\\', c]
    else if c == '\U{0008}' then "\\b"
    else if c == '\t' then "\\t"
    else if c == '\n' then "\\n"
    else if c == '\U{000C}' then "\\f"
    else if c == '\r' then "\\r"
    else if c < ' ' then "\\u00" + [HexChar(c as int / 16), HexChar(c as int % 16)]
    else [c]
  }

  /** Go's encoder with HTML escaping off: it also escapes the two Unicode line
      separators. */
  function GoChar(c: char): string {
    if LineSeparator(c) then "\\u202" + [HexChar(c as int % 16)] else JcsChar(c)
  }

  function Escape(s: string, each: char -> string): string {
    if s == "" then "" else each(s[0]) + Escape(s[1..], each)
  }

  function Quote(s: string, each: char -> string): string {
    "\"" + Escape(s, each) + "\""
  }

  function GoString(s: string): string {
    Quote(s, GoChar)
  }

  function JcsString(s: string): string {
    Quote(s, JcsChar)
  }

  /** The members of a compact object and its closing brace; `quote` writes strings. */
  function WriteMembers(ms: seq<Member>, quote: string -> string): string
    decreases |ms|, 1
  {
    if ms == [] then "}"
    else quote(ms[0].0) + (":" + (quote(ms[0].1) + AfterMember(ms, quote)))
  }

  function AfterMember(ms: seq<Member>, quote: string -> string): string
    requires ms != []
    decreases |ms|, 0
  {
    if |ms| == 1 then "}" else "," + WriteMembers(ms[1..], quote)
  }

  function WriteObject(ms: seq<Member>, quote: string -> string): string {
    "{" + WriteMembers(ms, quote)
  }

  function TrimRightLf(s: string): string {
    if s != "" && s[|s| - 1] == '\n' then TrimRightLf(s[..|s| - 1]) else s
  }

  /** The stream encoder's line, with its line break trimmed. */
  function Canonical(e: Envelope): string {
    TrimRightLf(WriteObject(Members(e), GoString) + "\n")
  }

  /** The same members serialised as RFC 8785 prescribes. */
  function Jcs(e: Envelope): string {
    WriteObject(Members(e), JcsString)
  }

  // ---- Reading ----

  function FourHex(s: string): Option<nat>
    requires |s| == 4
  {
    var a, b, c, d := HexValue(s[0]), HexValue(s[1]), HexValue(s[2]), HexValue(s[3]);
    if a.None? || b.None? || c.None? || d.None? then None
    else Some(a.value * 4096 + b.value * 256 + c.value * 16 + d.value)
  }

  /** One character of a JSON string body, and what follows it. */
  function ReadChar(s: string): (r: Option<(char, string)>)
    ensures r.Some? ==> |r.value.1| < |s|
  {
    if s == "" || s[0] == '"' || s[0] < ' ' then None
    else if s[0] != '\\' then Some((s[0], s[1..]))
    else if |s| < 2 then None
    else if s[1] == '"' || s[1] == '\\' || s[1] == '/' then Some((s[1], s[2..]))
    else if s[1] == 'b' then Some(('\U{0008}', s[2..]))
    else if s[1] == 't' then Some(('\t', s[2..]))
    else if s[1] == 'n' then Some(('\n', s[2..]))
    else if s[1] == 'f' then Some(('\U{000C}', s[2..]))
    else if s[1] == 'r' then Some(('\r', s[2..]))
    else if s[1] != 'u' || |s| < 6 then None
    else
      var code := FourHex(s[2..6]);
      if code.None? || 0xD800 <= code.value < 0xE000 || code.value > 0xFFFF then None
      else Some((code.value as char, s[6..]))
  }

  /** A string body up to its closing quote. */
  function ReadBody(s: string): (r: Option<(string, string)>)
    ensures r.Some? ==> |r.value.1| < |s|
    decreases |s|
  {
    if s != "" && s[0] == '"' then Some(("", s[1..]))
    else
      var c := ReadChar(s);
      if c.None? then None
      else
        var rest := ReadBody(c.value.1);
        if rest.None? then None else Some(([c.value.0] + rest.value.0, rest.value.1))
  }

  function ReadString(s: string): (r: Option<(string, string)>)
    ensures r.Some? ==> |r.value.1| < |s|
  {
    if s == "" || s[0] != '"' then None else ReadBody(s[1..])
  }

  type Reader = string -> Option<(string, string)>

  ghost predicate Shrinks(read: Reader) {
    forall s :: read(s).Some? ==> |read(s).value.1| < |s|
  }

  /** The members of a compact object; `read` takes one string off the text. */
  function ReadMembers(s: string, read: Reader): Option<seq<Member>>
    requires Shrinks(read)
    decreases |s|
  {
    var key := read(s);
    if key.None? || key.value.1 == "" || key.value.1[0] != ':' then None
    else
      var value := read(key.value.1[1..]);
      if value.None? || value.value.1 == "" then None
      else
        var m := (key.value.0, value.value.0);
        var rest := value.value.1;
        if rest == "}" then Some([m])
        else if rest[0] != ',' then None
        else
          var more := ReadMembers(rest[1..], read);
          if more.None? then None else Some([m] + more.value)
  }

  /** A compact JSON object whose values are strings. */
  function ReadObject(s: string): Option<seq<Member>> {
    if s == "{}" then Some([])
    else if s == "" || s[0] != '{' then None
    else ReadMembers(s[1..], ReadString)
  }

  /** A field's value; a later member of the same name wins, a missing one is "". */
  function Lookup(ms: seq<Member>, key: string): string {
    if ms == [] then ""
    else if ms[|ms| - 1].0 == key then ms[|ms| - 1].1
    else Lookup(ms[..|ms| - 1], key)
  }

  function OfMembers(ms: seq<Member>): Envelope {
    Envelope(Lookup(ms, "version"), Lookup(ms, "msg_id"), Lookup(ms, "ts"), Lookup(ms, "path_id"),
             Lookup(ms, "ciphertext_sha256"), Lookup(ms, "ciphertext"))
  }

  function Unmarshal(s: string): Option<Envelope> {
    var ms := ReadObject(s);
    if ms.None? then None else Some(OfMembers(ms.value))
  }

  // ---- Round trip ----

  lemma HexRoundTrip(n: nat)
    requires n < 16
    ensures HexValue(HexChar(n)) == Some(n)
  {
    assert n < 10 ==> '0' <= HexChar(n) <= '9';
    assert n >= 10 ==> 'a' <= HexChar(n) <= 'f';
  }

  lemma ControlRoundTrip(c: char, rest: string)
    requires c < ' '
    ensures ReadChar(GoChar(c) + rest) == Some((c, rest))
  {
    var s := GoChar(c) + rest;
    if |JcsChar(c)| == 6 {
      var n := c as int;
      HexRoundTrip(n / 16);
      HexRoundTrip(n % 16);
      HexRoundTrip(0);
      assert s[2..6] == ['0', '0', HexChar(n / 16), HexChar(n % 16)];
      assert HexValue('0') == Some(0);
      assert FourHex(s[2..6]) == Some(n / 16 * 16 + n % 16);
      assert s[6..] == rest;
    } else {
      assert s[2..] == rest;
    }
  }

  lemma CharRoundTrip(c: char, rest: string)
    ensures ReadChar(GoChar(c) + rest) == Some((c, rest))
    ensures (GoChar(c) + rest)[0] != '"'
  {
    var s := GoChar(c) + rest;
    if LineSeparator(c) {
      HexRoundTrip(c as int % 16);
      assert s[2..6] == ['2', '0', '2', HexChar(c as int % 16)];
      assert HexValue('2') == Some(2) && HexValue('0') == Some(0);
      assert FourHex(s[2..6]) == Some(0x2020 + c as int % 16);
      assert s[6..] == rest;
    } else if c < ' ' {
      ControlRoundTrip(c, rest);
    } else if c == '"' || c == '\\' {
      assert s[2..] == rest;
    } else {
      assert s[1..] == rest;
    }
  }

  lemma {:induction false} BodyRoundTrip(v: string, rest: string)
    ensures ReadBody(Escape(v, GoChar) + "\"" + rest) == Some((v, rest))
  {
    if v == "" {
      assert Escape(v, GoChar) + "\"" + rest == "\"" + rest;
    } else {
      var tail := Escape(v[1..], GoChar) + "\"" + rest;
      assert Escape(v, GoChar) + "\"" + rest == GoChar(v[0]) + tail;
      CharRoundTrip(v[0], tail);
      BodyRoundTrip(v[1..], rest);
      assert v == [v[0]] + v[1..];
    }
  }

  lemma StringRoundTrip(v: string, rest: string)
    ensures ReadString(GoString(v) + rest) == Some((v, rest))
  {
    BodyRoundTrip(v, rest);
    assert (GoString(v) + rest)[1..] == Escape(v, GoChar) + "\"" + rest;
  }

  ghost predicate Undoes(read: Reader, quote: string -> string) {
    forall v: string, rest: string :: read(quote(v) + rest) == Some((v, rest))
  }

  /** The object layer round-trips for every string codec that does. */
  lemma {:induction false} MembersRoundTrip(ms: seq<Member>, quote: string -> string, read: Reader)
    requires ms != [] && Shrinks(read) && Undoes(read, quote)
    ensures ReadMembers(WriteMembers(ms, quote), read) == Some(ms)
  {
    var after := AfterMember(ms, quote);
    var value := quote(ms[0].1) + after;
    assert read(quote(ms[0].0) + (":" + value)) == Some((ms[0].0, ":" + value));
    assert (":" + value)[1..] == value;
    assert read(value) == Some((ms[0].1, after));
    if |ms| == 1 {
      assert ms == [ms[0]];
    } else {
      MembersRoundTrip(ms[1..], quote, read);
      assert after[1..] == WriteMembers(ms[1..], quote);
      assert after != "}" by {
        assert after[0] == ',';
      }
      assert ms == [ms[0]] + ms[1..];
    }
  }

  lemma TrimOne(w: string)
    requires w != "" && w[|w| - 1] != '\n'
    ensures TrimRightLf(w + "\n") == w
  {
    assert (w + "\n")[..|w|] == w;
  }

  lemma {:induction false} MembersEnd(ms: seq<Member>, quote: string -> string)
    ensures var w := WriteMembers(ms, quote); w != "" && w[|w| - 1] == '}'
  {
    if |ms| > 1 {
      MembersEnd(ms[1..], quote);
    }
  }

  /** The trailing line break goes, and nothing else. */
  lemma CanonicalText(e: Envelope)
    ensures Canonical(e) == WriteObject(Members(e), GoString)
    ensures Canonical(e)[|Canonical(e)| - 1] != '\n'
  {
    MembersEnd(Members(e), GoString);
    TrimOne(WriteObject(Members(e), GoString));
  }

  lemma ObjectRoundTrip(ms: seq<Member>)
    requires ms != []
    ensures ReadObject(WriteObject(ms, GoString)) == Some(ms)
  {
    forall v: string, rest: string
      ensures ReadString(GoString(v) + rest) == Some((v, rest))
    {
      StringRoundTrip(v, rest);
    }
    MembersRoundTrip(ms, GoString, ReadString);
    var w := WriteObject(ms, GoString);
    assert w[1..] == WriteMembers(ms, GoString) && w[1] == '"';
  }

  /** Parsing the signed text gives the envelope back, whatever its fields hold. */
  lemma RoundTrip(e: Envelope)
    ensures ReadObject(Canonical(e)) == Some(Members(e))
    ensures Unmarshal(Canonical(e)) == Some(e)
  {
    CanonicalText(e);
    ObjectRoundTrip(Members(e));
    LookupMembers(e);
  }

  lemma {:induction false} LookupAt(ms: seq<Member>, i: nat)
    requires i < |ms| && forall j :: i < j < |ms| ==> ms[j].0 != ms[i].0
    ensures Lookup(ms, ms[i].0) == ms[i].1
  {
    if i + 1 < |ms| {
      LookupAt(ms[..|ms| - 1], i);
    }
  }

  lemma LookupMembers(e: Envelope)
    ensures OfMembers(Members(e)) == e
  {
    var ms := Members(e);
    forall i | 0 <= i < 6
      ensures Lookup(ms, KEYS[i]) == ms[i].1
    {
      forall j | i < j < 6
        ensures ms[j].0 != ms[i].0
      {
        KeysAscend(e, i, j);
        StrTrichotomy(KEYS[i], KEYS[j]);
      }
      LookupAt(ms, i);
      assert ms[i].0 == KEYS[i];
    }
    assert Lookup(ms, KEYS[0]) == ms[0].1 && Lookup(ms, KEYS[1]) == ms[1].1 && Lookup(ms, KEYS[2]) == ms[2].1;
    assert Lookup(ms, KEYS[3]) == ms[3].1 && Lookup(ms, KEYS[4]) == ms[4].1 && Lookup(ms, KEYS[5]) == ms[5].1;
  }

  /** Different envelopes are never signed under the same text. */
  lemma Injective(e: Envelope, f: Envelope)
    requires Canonical(e) == Canonical(f)
    ensures e == f
  {
    RoundTrip(e);
    RoundTrip(f);
  }

  // ---- RFC 8785 ----

  /** Section 3.2.3: keys come in ascending order. */
  lemma KeysAscend(e: Envelope, i: nat, j: nat)
    requires i < j < 6
    ensures Members(e)[i].0 == KEYS[i] && Members(e)[j].0 == KEYS[j]
    ensures StrLess(KEYS[i], KEYS[j])
  {
    if i == 0 && j == 1 {
      var a, b := Codes(KEYS[0]), Codes(KEYS[1]);
      assert a[..10] == b[..10];
      LessAfterPrefix(a, b, 10);
    } else {
      assert KEYS[i][..0] == KEYS[j][..0];
      StrLessAt(KEYS[i], KEYS[j], 0);
    }
  }

  predicate NoLineSeparator(s: string) {
    forall i :: 0 <= i < |s| ==> !LineSeparator(s[i])
  }

  lemma {:induction false} EscapeAgrees(s: string)
    ensures |Escape(s, GoChar)| >= |Escape(s, JcsChar)|
    ensures NoLineSeparator(s) ==> Escape(s, GoChar) == Escape(s, JcsChar)
    ensures !NoLineSeparator(s) ==> |Escape(s, GoChar)| > |Escape(s, JcsChar)|
  {
    if s != "" {
      EscapeAgrees(s[1..]);
      assert s == [s[0]] + s[1..];
    }
  }

  predicate PlainValues(ms: seq<Member>) {
    forall i :: 0 <= i < |ms| ==> NoLineSeparator(ms[i].1)
  }

  /** `longer` writes plain strings as `shorter` does, and all others longer. */
  ghost predicate LongerUnlessPlain(longer: string -> string, shorter: string -> string) {
    forall v: string ::
      if NoLineSeparator(v) then longer(v) == shorter(v) else |longer(v)| > |shorter(v)|
  }

  lemma {:induction false} WriteAgrees(ms: seq<Member>, longer: string -> string, shorter: string -> string)
    requires LongerUnlessPlain(longer, shorter)
    requires forall i :: 0 <= i < |ms| ==> NoLineSeparator(ms[i].0)
    ensures if PlainValues(ms) then WriteMembers(ms, longer) == WriteMembers(ms, shorter)
            else |WriteMembers(ms, longer)| > |WriteMembers(ms, shorter)|
  {
    if ms != [] {
      WriteAgrees(ms[1..], longer, shorter);
      assert PlainValues(ms) <==> NoLineSeparator(ms[0].1) && PlainValues(ms[1..]) by {
        assert forall i :: 1 <= i < |ms| ==> ms[i] == ms[1..][i - 1];
      }
      assert longer(ms[0].0) == shorter(ms[0].0);
      assert |longer(ms[0].1)| >= |shorter(ms[0].1)|;
    }
  }

  lemma CodecsAgree()
    ensures LongerUnlessPlain(GoString, JcsString)
  {
    forall v: string
      ensures if NoLineSeparator(v) then GoString(v) == JcsString(v) else |GoString(v)| > |JcsString(v)|
    {
      EscapeAgrees(v);
    }
  }

  lemma KeysArePlain(ms: seq<Member>)
    requires |ms| == 6 && forall i :: 0 <= i < 6 ==> ms[i].0 == KEYS[i]
    ensures forall i :: 0 <= i < |ms| ==> NoLineSeparator(ms[i].0)
  {
    forall i, j | 0 <= i < 6 && 0 <= j < |ms[i].0|
      ensures !LineSeparator(ms[i].0[j])
    {
      assert KEYS[i][j] <= 'z';
    }
  }

  lemma KeyedObjectAgrees(ms: seq<Member>)
    requires |ms| == 6 && forall i :: 0 <= i < 6 ==> ms[i].0 == KEYS[i]
    ensures WriteObject(ms, GoString) == WriteObject(ms, JcsString) <==> PlainValues(ms)
  {
    CodecsAgree();
    KeysArePlain(ms);
    WriteAgrees(ms, GoString, JcsString);
  }

  /** The signed text is the RFC 8785 serialisation exactly when no field holds
      U+2028 or U+2029, which Go's encoder escapes and the standard does not. */
  lemma CanonicalIsJcsExactly(e: Envelope)
    ensures Canonical(e) == Jcs(e) <==> PlainValues(Members(e))
  {
    CanonicalText(e);
    MembersKeyed(e);
    KeyedObjectAgrees(Members(e));
  }

  lemma MembersKeyed(e: Envelope)
    ensures |Members(e)| == 6 && forall i :: 0 <= i < 6 ==> Members(e)[i].0 == KEYS[i]
  {
  }
}
