/** Path ids: the mailbox address that both halves of a pair derive from their
    raw public keys, in the pair flow and again in the discovery examples. */
module PathId {
  import opened Lex
  import opened Base64Url

  /** The one fact about the hash that addresses rely on: its output size. */
  ghost predicate Digests32(sha256: seq<Octet> -> seq<Octet>) {
    forall m :: |sha256(m)| == 32
  }

  /** The scan of the pair flow: the first differing byte decides, then length. */
  method BytesLess(a: seq<Octet>, b: seq<Octet>) returns (less: bool)
    ensures less == Less(a, b)
  {
    var n := if |b| < |a| then |b| else |a|;
    for i := 0 to n
      invariant a[..i] == b[..i]
    {
      if a[i] != b[i] {
        LessAfterPrefix(a, b, i);
        assert a[i..][0] == a[i] && b[i..][0] == b[i];
        return a[i] < b[i];
      }
      assert a[..i + 1] == a[..i] + [a[i]] && b[..i + 1] == b[..i] + [b[i]];
    }
    LessAfterPrefix(a, b, n);
    return |a| < |b|;
  }

  /** The three-way scan of the discovery examples. */
  method Compare(a: seq<Octet>, b: seq<Octet>) returns (sign: int)
    ensures sign < 0 <==> Less(a, b)
    ensures sign > 0 <==> Less(b, a)
    ensures -1 <= sign <= 1
  {
    Trichotomy(a, b);
    var i := 0;
    while i < |a| && i < |b|
      invariant 0 <= i <= |a| && i <= |b|
      invariant a[..i] == b[..i]
    {
      if a[i] != b[i] {
        LessAfterPrefix(a, b, i);
        LessAfterPrefix(b, a, i);
        assert a[i..][0] == a[i] && b[i..][0] == b[i];
        return if a[i] < b[i] then -1 else 1;
      }
      assert a[..i + 1] == a[..i] + [a[i]] && b[..i + 1] == b[..i] + [b[i]];
      i := i + 1;
    }
    LessAfterPrefix(a, b, i);
    LessAfterPrefix(b, a, i);
    return if |a| < |b| then -1 else if |a| > |b| then 1 else 0;
  }

  /** The bytes under the hash: the smaller key, then the other. */
  function Preimage(a: seq<Octet>, b: seq<Octet>): seq<Octet> {
    if Less(b, a) then b + a else a + b
  }

  function ComputePathId(sha256: seq<Octet> -> seq<Octet>, a: seq<Octet>, b: seq<Octet>): string {
    "nxc_" + EncodeRaw(sha256(Preimage(a, b)))
  }

  /** The discovery derivation, which starts from encoded keys and drops
      decoding errors. */
  function DerivePathId(sha256: seq<Octet> -> seq<Octet>, a64: string, b64: string): string {
    "nxc_" + EncodeRaw(sha256(DerivedPreimage(a64, b64)))
  }

  /** "nxc_" and 43 characters of the URL-safe alphabet. */
  predicate PathIdShape(s: string) {
    |s| == 47 && s[..4] == "nxc_" && AllInAlphabet(s[4..])
  }

  /** Every computed path id is a mailbox address that the relay accepts. */
  lemma ComputedShape(sha256: seq<Octet> -> seq<Octet>, a: seq<Octet>, b: seq<Octet>)
    requires Digests32(sha256)
    ensures PathIdShape(ComputePathId(sha256, a, b))
  {
    var digest := sha256(Preimage(a, b));
    assert |digest| == 32;
    EncodeRawShape(digest);
    assert ComputePathId(sha256, a, b)[4..] == EncodeRaw(digest);
  }

  lemma PreimageSymmetric(a: seq<Octet>, b: seq<Octet>)
    ensures Preimage(a, b) == Preimage(b, a)
  {
    Trichotomy(a, b);
  }

  /** Neither side has to know whether it is the requester or the owner. */
  lemma Symmetric(sha256: seq<Octet> -> seq<Octet>, a: seq<Octet>, b: seq<Octet>)
    ensures ComputePathId(sha256, a, b) == ComputePathId(sha256, b, a)
  {
    PreimageSymmetric(a, b);
  }

  lemma EncodeRawInjective(x: seq<Octet>, y: seq<Octet>)
    requires EncodeRaw(x) == EncodeRaw(y)
    ensures x == y
  {
    RoundTrip(x);
    RoundTrip(y);
  }

  /** For keys of equal length the preimage determines the unordered pair. */
  lemma PreimageDeterminesKeys(a: seq<Octet>, b: seq<Octet>, c: seq<Octet>, d: seq<Octet>)
    requires |a| == |b| == |c| == |d|
    ensures Preimage(a, b) == Preimage(c, d) <==> {a, b} == {c, d}
  {
    var n := |a|;
    PreimageSymmetric(a, b);
    var p, q := Preimage(a, b), Preimage(c, d);
    assert {p[..n], p[n..]} == {a, b} by {
      assert (a + b)[..n] == a && (a + b)[n..] == b && (b + a)[..n] == b && (b + a)[n..] == a;
    }
    assert {q[..n], q[n..]} == {c, d} by {
      assert (c + d)[..n] == c && (c + d)[n..] == d && (d + c)[..n] == d && (d + c)[n..] == c;
    }
    if {a, b} == {c, d} {
      assert a in {c, d} && b in {c, d} && c in {a, b} && d in {a, b};
    }
  }

  /** Two pairs of 32-byte keys share an address exactly when they are the same
      two keys, unless the hash collides on their two distinct preimages. */
  lemma AddressesKeys(sha256: seq<Octet> -> seq<Octet>,
                      a: seq<Octet>, b: seq<Octet>, c: seq<Octet>, d: seq<Octet>)
    requires |a| == |b| == |c| == |d| == 32
    ensures ComputePathId(sha256, a, b) == ComputePathId(sha256, c, d) <==>
            {a, b} == {c, d} ||
            (Preimage(a, b) != Preimage(c, d) && sha256(Preimage(a, b)) == sha256(Preimage(c, d)))
  {
    PreimageDeterminesKeys(a, b, c, d);
    var x, y := sha256(Preimage(a, b)), sha256(Preimage(c, d));
    var s, t := ComputePathId(sha256, a, b), ComputePathId(sha256, c, d);
    assert s[4..] == EncodeRaw(x) && t[4..] == EncodeRaw(y);
    if s == t {
      EncodeRawInjective(x, y);
    }
  }

  /** The bytes that the discovery derivation hashes. */
  function DerivedPreimage(a64: string, b64: string): seq<Octet> {
    var a, b := RawDecodePrefix(a64), RawDecodePrefix(b64);
    if Less(a, b) then a + b else b + a
  }

  /** On keys that decode, both implementations hash the same bytes exactly when
      neither key is written with padding. */
  lemma PreimagesAgreeExactly(a64: string, b64: string)
    requires Decode(a64).Some? && Decode(b64).Some?
    ensures DerivedPreimage(a64, b64) == Preimage(Decode(a64).value, Decode(b64).value) <==> '=' !in a64 && '=' !in b64
  {
    DecodersAgreeExactly(a64);
    DecodersAgreeExactly(b64);
    Trichotomy(Decode(a64).value, Decode(b64).value);
    assert |DerivedPreimage(a64, b64)| == |RawDecodePrefix(a64)| + |RawDecodePrefix(b64)|;
  }

  lemma SameAddressSameDigest(x: seq<Octet>, y: seq<Octet>)
    ensures "nxc_" + EncodeRaw(x) == "nxc_" + EncodeRaw(y) <==> x == y
  {
    assert ("nxc_" + EncodeRaw(x))[4..] == EncodeRaw(x) && ("nxc_" + EncodeRaw(y))[4..] == EncodeRaw(y);
    if EncodeRaw(x) == EncodeRaw(y) {
      EncodeRawInjective(x, y);
    }
  }

  /** For keys that the pair flow accepts, both implementations give one address
      exactly when neither key is written with padding, or the hash collides on
      the two different texts that they hash. */
  lemma ImplementationsAgreeExactly(sha256: seq<Octet> -> seq<Octet>, a64: string, b64: string)
    requires Decode(a64).Some? && Decode(b64).Some?
    ensures var p, q := Preimage(Decode(a64).value, Decode(b64).value), DerivedPreimage(a64, b64);
            DerivePathId(sha256, a64, b64) == ComputePathId(sha256, Decode(a64).value, Decode(b64).value) <==>
            ('=' !in a64 && '=' !in b64) || (p != q && sha256(p) == sha256(q))
  {
    PreimagesAgreeExactly(a64, b64);
    SameAddressSameDigest(sha256(Preimage(Decode(a64).value, Decode(b64).value)), sha256(DerivedPreimage(a64, b64)));
  }

  /** Two 32-byte keys, not both written without padding: the pair flow hashes 64
      bytes, the discovery derivation fewer, so any hash that tells these apart
      gives two addresses for one pair. */
  lemma PaddedKeysSplit(sha256: seq<Octet> -> seq<Octet>, a64: string, b64: string)
    requires Decode(a64).Some? && Decode(b64).Some? && |Decode(a64).value| == |Decode(b64).value| == 32
    requires '=' in a64 || '=' in b64
    ensures var p, q := Preimage(Decode(a64).value, Decode(b64).value), DerivedPreimage(a64, b64);
            |p| == 64 && |q| < 64 &&
            (DerivePathId(sha256, a64, b64) != ComputePathId(sha256, Decode(a64).value, Decode(b64).value) <==>
             sha256(p) != sha256(q))
  {
    DecodersAgreeExactly(a64);
    DecodersAgreeExactly(b64);
    ImplementationsAgreeExactly(sha256, a64, b64);
  }

  lemma PaddedForm(key: seq<Octet>)
    requires |key| % 3 == 2
    ensures '=' in EncodePadded(key) && EncodePadded(key) != EncodeRaw(key) && EncodePadded(key) != ""
  {
    PaddedAtEnd(EncodeRaw(key));
  }

  lemma PaddedAtEnd(raw: string)
    ensures '=' in raw + "=" && raw + "=" != raw
  {
    assert (raw + "=")[|raw|] == '=';
    assert |raw + "="| == |raw| + 1;
  }

  lemma PaddedText(key: seq<Octet>) returns (text: string)
    requires |key| == 32
    ensures text == EncodePadded(key) && '=' in text && text != EncodeRaw(key) && text != "" && Decode(text) == Some(key)
  {
    PaddedForm(key);
    RoundTrip(key);
    text := EncodePadded(key);
  }

  /** Two 32-byte keys, one written with padding, and a hash of 32 bytes. */
  ghost predicate AddressesSplit(sha256: seq<Octet> -> seq<Octet>, a64: string, b64: string) {
    Digests32(sha256) && Decode(a64).Some? && Decode(b64).Some? &&
    |Decode(a64).value| == |Decode(b64).value| == 32 &&
    DerivePathId(sha256, a64, b64) != ComputePathId(sha256, Decode(a64).value, Decode(b64).value)
  }

  /** A hash that only looks at the size of its text. */
  function BySize(m: seq<Octet>): (digest: seq<Octet>)
    ensures |digest| == 32 && digest[0] == if |m| == 64 then 1 else 0
  {
    seq(32, i => if |m| == 64 then 1 else 0)
  }

  /** For every two keys there are a hash and a spelling under which the two
      implementations address one pair differently. */
  lemma AddressesCanSplit(a: seq<Octet>, b: seq<Octet>)
    requires |a| == |b| == 32
    ensures AddressesSplit(BySize, EncodePadded(a), EncodeRaw(b))
  {
    var text := PaddedText(a);
    RoundTrip(b);
    SplitBySize(text, EncodeRaw(b));
  }

  lemma SplitBySize(a64: string, b64: string)
    requires Decode(a64).Some? && Decode(b64).Some? && |Decode(a64).value| == |Decode(b64).value| == 32 && '=' in a64
    ensures AddressesSplit(BySize, a64, b64)
  {
    PaddedKeysSplit(BySize, a64, b64);
  }

  /** What is hashed: one key right after the other, and the second one is not
      before the first in byte order. */
  lemma PreimageInOrder(a: seq<Octet>, b: seq<Octet>)
    ensures exists x: seq<Octet>, y: seq<Octet> ::
              ((x == a && y == b) || (x == b && y == a)) && Preimage(a, b) == x + y && !Less(y, x)
  {
    Trichotomy(a, b);
    if Less(b, a) {
      assert Preimage(a, b) == b + a && !Less(a, b);
    } else {
      assert Preimage(a, b) == a + b;
    }
  }

  /** An address, read back: four fixed characters, then text that decodes to the
      digest of the ordered keys and has no padding. */
  lemma AddressReads(sha256: seq<Octet> -> seq<Octet>, a: seq<Octet>, b: seq<Octet>)
    ensures var id := ComputePathId(sha256, a, b);
            |id| >= 4 && id[..4] == "nxc_" && Decode(id[4..]) == Some(sha256(Preimage(a, b))) && '=' !in id[4..]
  {
    var digest := sha256(Preimage(a, b));
    var id := ComputePathId(sha256, a, b);
    assert id[..4] == "nxc_" && id[4..] == EncodeRaw(digest);
    RoundTrip(digest);
    EncodeRawShape(digest);
    assert !InAlphabet('=');
  }

  /** The address check, said by parts. */
  lemma ShapeExactly(s: string)
    ensures PathIdShape(s) <==> exists t: string :: s == "nxc_" + t && |t| == 43 && AllInAlphabet(t)
  {
    if PathIdShape(s) {
      assert s == "nxc_" + s[4..];
    }
    if exists t: string :: s == "nxc_" + t && |t| == 43 && AllInAlphabet(t) {
      var t: string :| s == "nxc_" + t && |t| == 43 && AllInAlphabet(t);
      assert s[4..] == t && s[..4] == "nxc_";
    }
  }
}
