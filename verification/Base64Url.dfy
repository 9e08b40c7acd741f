/** The URL-safe base64 alphabet of section 5 of RFC 4648, with the lenient
    decoder that the mailbox, the pair flow and the signature verifier share. */
module Base64Url {
  import opened Lex

  type Sextet = x: int | 0 <= x < 64

  function CharOf(v: Sextet): char {
    if v < 26 then 'A' + v as char
    else if v < 52 then 'a' + (v - 26) as char
    else if v < 62 then '0' + (v - 52) as char
    else if v == 62 then '-' else '_'
  }

  predicate InAlphabet(c: char) {
    'A' <= c <= 'Z' || 'a' <= c <= 'z' || '0' <= c <= '9' || c == '-' || c == '_'
  }

  function ValueOf(c: char): Sextet
    requires InAlphabet(c)
  {
    if 'A' <= c <= 'Z' then c as int - 'A' as int
    else if 'a' <= c <= 'z' then c as int - 'a' as int + 26
    else if '0' <= c <= '9' then c as int - '0' as int + 52
    else if c == '-' then 62 else 63
  }

  lemma CharRoundTrip(v: Sextet)
    ensures InAlphabet(CharOf(v)) && ValueOf(CharOf(v)) == v
  {
    assert v < 26 ==> 'A' <= CharOf(v) <= 'Z';
    assert 26 <= v < 52 ==> 'a' <= CharOf(v) <= 'z';
    assert 52 <= v < 62 ==> '0' <= CharOf(v) <= '9';
  }

  /** Three octets as four characters. */
  function Quantum(x: Octet, y: Octet, z: Octet): string {
    [CharOf(x / 4), CharOf(x % 4 * 16 + y / 16), CharOf(y % 16 * 4 + z / 64), CharOf(z % 64)]
  }

  /** Four sextets as three octets. */
  function Triple(p: Sextet, q: Sextet, r: Sextet, t: Sextet): seq<Octet> {
    [p * 4 + q / 16, q % 16 * 16 + r / 4, r % 4 * 64 + t]
  }

  lemma SextetsRoundTrip(x: Octet, y: Octet, z: Octet)
    ensures Triple(x / 4, x % 4 * 16 + y / 16, y % 16 * 4 + z / 64, z % 64) == [x, y, z]
  {
    var q, r := x % 4 * 16 + y / 16, y % 16 * 4 + z / 64;
    assert q / 16 == x % 4 && q % 16 == y / 16;
    assert r / 4 == y % 16 && r % 4 == z / 64;
  }

  lemma QuantumRoundTrip(x: Octet, y: Octet, z: Octet)
    ensures AllInAlphabet(Quantum(x, y, z))
    ensures var s := Quantum(x, y, z);
            Triple(ValueOf(s[0]), ValueOf(s[1]), ValueOf(s[2]), ValueOf(s[3])) == [x, y, z]
  {
    var p: Sextet, q: Sextet, r: Sextet, t: Sextet := x / 4, x % 4 * 16 + y / 16, y % 16 * 4 + z / 64, z % 64;
    CharsRoundTrip(p, q, r, t);
    SextetsRoundTrip(x, y, z);
  }

  lemma CharsRoundTrip(p: Sextet, q: Sextet, r: Sextet, t: Sextet)
    ensures var s := [CharOf(p), CharOf(q), CharOf(r), CharOf(t)];
            AllInAlphabet(s) &&
            ValueOf(s[0]) == p && ValueOf(s[1]) == q && ValueOf(s[2]) == r && ValueOf(s[3]) == t
  {
    CharRoundTrip(p);
    CharRoundTrip(q);
    CharRoundTrip(r);
    CharRoundTrip(t);
  }

  /** Encoding without padding (Go's RawURLEncoding). */
  function EncodeRaw(b: seq<Octet>): string {
    if |b| == 0 then ""
    else if |b| == 1 then Quantum(b[0], 0, 0)[..2]
    else if |b| == 2 then Quantum(b[0], b[1], 0)[..3]
    else Quantum(b[0], b[1], b[2]) + EncodeRaw(b[3..])
  }

  function Padding(n: nat): string {
    if n % 3 == 1 then "==" else if n % 3 == 2 then "=" else ""
  }

  /** Encoding with padding (Go's URLEncoding). */
  function EncodePadded(b: seq<Octet>): string {
    EncodeRaw(b) + Padding(|b|)
  }

  /** One decoder pass over text that no longer holds line breaks. A quantum is
      four characters; only the last one may end in padding. The unused low bits
      of a short quantum are ignored. */
  function DecodeQuanta(s: string): Option<seq<Octet>> {
    if s == "" then Some([])
    else if |s| < 4 || !InAlphabet(s[0]) || !InAlphabet(s[1]) then None
    else if InAlphabet(s[2]) && InAlphabet(s[3]) then
      var rest := DecodeQuanta(s[4..]);
      if rest.None? then None
      else Some(Triple(ValueOf(s[0]), ValueOf(s[1]), ValueOf(s[2]), ValueOf(s[3])) + rest.value)
    else if |s| == 4 && InAlphabet(s[2]) && s[3] == '=' then
      Some(Triple(ValueOf(s[0]), ValueOf(s[1]), ValueOf(s[2]), 0)[..2])
    else if |s| == 4 && s[2] == '=' && s[3] == '=' then
      Some(Triple(ValueOf(s[0]), ValueOf(s[1]), 0, 0)[..1])
    else None
  }

  /** Go's decoder skips CR and LF wherever they stand. */
  function StripNewlines(s: string): string {
    if s == "" then ""
    else if s[0] == '\n' || s[0] == '\r' then StripNewlines(s[1..])
    else [s[0]] + StripNewlines(s[1..])
  }

  function PadToFour(s: string): string {
    if |s| % 4 == 1 then s + "==="
    else if |s| % 4 == 2 then s + "=="
    else if |s| % 4 == 3 then s + "="
    else s
  }

  /** The lenient decoder: pad to a multiple of four, then decode. */
  function Decode(s: string): Option<seq<Octet>> {
    DecodeQuanta(StripNewlines(PadToFour(s)))
  }

  predicate AllInAlphabet(s: string) {
    forall i :: 0 <= i < |s| ==> InAlphabet(s[i])
  }

  /** How each encoding step looks to a decoder: a block `q` of characters
      that stands for the octets it was made from. */
  lemma FullBlock(b: seq<Octet>) returns (q: string)
    requires |b| > 2
    ensures |q| == 4 && AllInAlphabet(q)
    ensures Triple(ValueOf(q[0]), ValueOf(q[1]), ValueOf(q[2]), ValueOf(q[3])) == b[..3]
    ensures EncodeRaw(b) == q + EncodeRaw(b[3..])
  {
    q := Quantum(b[0], b[1], b[2]);
    QuantumRoundTrip(b[0], b[1], b[2]);
  }

  lemma LastBlock(b: seq<Octet>) returns (q: string)
    requires 1 <= |b| <= 2
    ensures |q| == |b| + 1 && AllInAlphabet(q)
    ensures Triple(ValueOf(q[0]), ValueOf(q[1]), if |b| == 2 then ValueOf(q[2]) else 0, 0)[..|b|] == b
    ensures EncodeRaw(b) == q
  {
    var y := if |b| == 2 then b[1] else 0;
    q := Quantum(b[0], y, 0)[..|b| + 1];
    QuantumRoundTrip(b[0], y, 0);
  }

  lemma {:induction false} EncodeRawShape(b: seq<Octet>)
    ensures AllInAlphabet(EncodeRaw(b))
    ensures |EncodeRaw(b)| == (4 * |b| + 2) / 3
  {
    if |b| > 2 {
      var q := FullBlock(b);
      EncodeRawShape(b[3..]);
    } else if |b| > 0 {
      var q := LastBlock(b);
    }
  }

  lemma {:induction false} StripNewlinesIdle(s: string)
    requires forall i :: 0 <= i < |s| ==> s[i] != '\n' && s[i] != '\r'
    ensures StripNewlines(s) == s
  {
    if s != "" {
      StripNewlinesIdle(s[1..]);
      assert s == [s[0]] + s[1..];
    }
  }

  lemma DecodeFullBlock(q: string, rest: string)
    requires |q| == 4 && AllInAlphabet(q)
    requires DecodeQuanta(rest).Some?
    ensures DecodeQuanta(q + rest) ==
            Some(Triple(ValueOf(q[0]), ValueOf(q[1]), ValueOf(q[2]), ValueOf(q[3])) + DecodeQuanta(rest).value)
  {
    assert (q + rest)[4..] == rest;
  }

  lemma {:induction false} QuantaRoundTrip(b: seq<Octet>)
    ensures DecodeQuanta(EncodeRaw(b) + Padding(|b|)) == Some(b)
  {
    if |b| > 2 {
      var q := FullBlock(b);
      QuantaRoundTrip(b[3..]);
      DecodeFullBlock(q, EncodeRaw(b[3..]) + Padding(|b| - 3));
      assert EncodeRaw(b) + Padding(|b|) == q + (EncodeRaw(b[3..]) + Padding(|b| - 3));
      assert b == b[..3] + b[3..];
    } else if |b| > 0 {
      var q := LastBlock(b);
      DecodeLastBlock(q, Padding(|b|));
    }
  }

  lemma DecodeLastBlock(q: string, pad: string)
    requires AllInAlphabet(q)
    requires (|q| == 2 && pad == "==") || (|q| == 3 && pad == "=")
    ensures DecodeQuanta(q + pad) ==
            Some(Triple(ValueOf(q[0]), ValueOf(q[1]), if |q| == 3 then ValueOf(q[2]) else 0, 0)[..|q| - 1])
  {
    assert !InAlphabet('=');
  }

  lemma EncodedSize(n: nat)
    ensures (4 * n + 2) / 3 % 4 == (if n % 3 == 0 then 0 else n % 3 + 1)
  {
    var m, k := n / 3, n % 3;
    assert (4 * n + 2) / 3 == 4 * m + (4 * k + 2) / 3;
  }

  lemma PadText(s: string, n: nat)
    requires AllInAlphabet(s) && |s| == (4 * n + 2) / 3
    ensures PadToFour(s) == s + Padding(n) == PadToFour(s + Padding(n))
    ensures StripNewlines(s + Padding(n)) == s + Padding(n)
  {
    EncodedSize(n);
    var pad := Padding(n);
    assert |s + pad| % 4 == (|s| % 4 + |pad|) % 4 == 0;
    StripNewlinesIdle(s + pad);
  }

  lemma PaddingShape(b: seq<Octet>)
    ensures PadToFour(EncodeRaw(b)) == EncodePadded(b) == PadToFour(EncodePadded(b))
    ensures StripNewlines(EncodePadded(b)) == EncodePadded(b)
  {
    EncodeRawShape(b);
    PadText(EncodeRaw(b), |b|);
  }

  /** Section 5 of RFC 4648: the lenient decoder inverts both encodings. */
  lemma RoundTrip(b: seq<Octet>)
    ensures Decode(EncodeRaw(b)) == Some(b)
    ensures Decode(EncodePadded(b)) == Some(b)
  {
    var p := EncodePadded(b);
    assert PadToFour(EncodeRaw(b)) == p && PadToFour(p) == p && StripNewlines(p) == p by {
      PaddingShape(b);
    }
    QuantaRoundTrip(b);
  }

  /** Text over the alphabet alone decodes exactly when its length is not one
      more than a multiple of four. */
  lemma {:induction false} UnpaddedDecodes(s: string)
    requires AllInAlphabet(s)
    ensures Decode(s).Some? <==> |s| % 4 != 1
  {
    var p := PadToFour(s);
    StripNewlinesIdle(p);
    UnpaddedQuanta(s, p[|s|..]);
    assert p == s + p[|s|..];
  }

  lemma {:induction false} UnpaddedQuanta(s: string, pad: string)
    requires AllInAlphabet(s)
    requires pad == ["", "===", "==", "="][|s| % 4]
    ensures DecodeQuanta(s + pad).Some? <==> |s| % 4 != 1
  {
    if |s| >= 4 {
      assert (s + pad)[4..] == s[4..] + pad;
      UnpaddedQuanta(s[4..], pad);
    } else {
      assert !InAlphabet('=');
      assert forall i :: 0 <= i < |s| ==> (s + pad)[i] == s[i];
      assert forall i :: |s| <= i < |s + pad| ==> (s + pad)[i] == '=';
    }
  }

  /** The unpadded decoder (Go's RawURLEncoding) with its error dropped: it
      yields the bytes of the quanta before the first bad one. */
  function RawDecodePrefix(s: string): seq<Octet> {
    RawPrefix(StripNewlines(s))
  }

  function RawPrefix(s: string): seq<Octet> {
    if |s| < 2 || !InAlphabet(s[0]) || !InAlphabet(s[1]) then []
    else if |s| == 2 then Triple(ValueOf(s[0]), ValueOf(s[1]), 0, 0)[..1]
    else if !InAlphabet(s[2]) then []
    else if |s| == 3 then Triple(ValueOf(s[0]), ValueOf(s[1]), ValueOf(s[2]), 0)[..2]
    else if !InAlphabet(s[3]) then []
    else Triple(ValueOf(s[0]), ValueOf(s[1]), ValueOf(s[2]), ValueOf(s[3])) + RawPrefix(s[4..])
  }

  lemma RawPrefixBlock(q: string, rest: string)
    requires |q| == 4 && AllInAlphabet(q)
    ensures RawPrefix(q + rest) ==
            Triple(ValueOf(q[0]), ValueOf(q[1]), ValueOf(q[2]), ValueOf(q[3])) + RawPrefix(rest)
  {
    assert (q + rest)[4..] == rest;
  }

  lemma {:induction false} RawPrefixRoundTrip(b: seq<Octet>)
    ensures RawPrefix(EncodeRaw(b)) == b
  {
    if |b| > 2 {
      var q := FullBlock(b);
      RawPrefixRoundTrip(b[3..]);
      RawPrefixBlock(q, EncodeRaw(b[3..]));
      assert b == b[..3] + b[3..];
    } else if |b| > 0 {
      var q := LastBlock(b);
      assert RawPrefix(q) == b;
    }
  }

  lemma RawDecodeRoundTrip(b: seq<Octet>)
    ensures RawDecodePrefix(EncodeRaw(b)) == b
  {
    EncodeRawShape(b);
    StripNewlinesIdle(EncodeRaw(b));
    RawPrefixRoundTrip(b);
  }

  lemma {:induction false} StripAppendPadding(s: string, pad: string)
    requires forall i :: 0 <= i < |pad| ==> pad[i] == '='
    ensures StripNewlines(s + pad) == StripNewlines(s) + pad
    ensures '=' in s <==> '=' in StripNewlines(s)
  {
    if s == "" {
      StripNewlinesIdle(pad);
      assert s + pad == pad;
    } else {
      StripAppendPadding(s[1..], pad);
      assert s == [s[0]] + s[1..];
      assert s + pad == [s[0]] + (s[1..] + pad);
    }
  }

  lemma {:induction false} PrefixAgreesExactly(t: string, pad: string)
    requires forall i :: 0 <= i < |pad| ==> pad[i] == '='
    requires DecodeQuanta(t + pad).Some?
    ensures RawPrefix(t) == DecodeQuanta(t + pad).value <==> '=' !in t
    ensures '=' in t ==> |RawPrefix(t)| < |DecodeQuanta(t + pad).value|
  {
    var s := t + pad;
    assert !InAlphabet('=');
    assert forall i :: |t| <= i < |s| ==> s[i] == '=';
    if |t| >= 4 && InAlphabet(t[2]) && InAlphabet(t[3]) {
      assert s[4..] == t[4..] + pad;
      PrefixAgreesExactly(t[4..], pad);
      assert t == t[..4] + t[4..] && '=' !in t[..4];
      assert RawPrefix(t)[3..] == RawPrefix(t[4..]);
      assert DecodeQuanta(s).value[3..] == DecodeQuanta(s[4..]).value;
    } else if |t| >= 4 {
      assert t[3] == '=';
    } else if |t| == 3 {
      assert t == [t[0], t[1], t[2]];
    } else if |t| == 2 {
      assert t == [t[0], t[1]];
    }
  }

  /** On text that the lenient decoder accepts, the unpadded decoder finds the
      same bytes exactly when the text carries no padding of its own; else it
      finds fewer. */
  lemma DecodersAgreeExactly(s: string)
    requires Decode(s).Some?
    ensures RawDecodePrefix(s) == Decode(s).value <==> '=' !in s
    ensures '=' in s ==> |RawDecodePrefix(s)| < |Decode(s).value|
  {
    var pad := PadToFour(s)[|s|..];
    assert PadToFour(s) == s + pad;
    StripAppendPadding(s, pad);
    PrefixAgreesExactly(StripNewlines(s), pad);
  }
}
