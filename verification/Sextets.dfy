/** What base64url text stands for, by the table and the 24-bit groups of section
    4 of RFC 4648: the codec of `Base64Url` computes exactly that. */
module Sextets {
  import opened Lex
  import opened Base64Url

  const CAPITALS: string := "ABCDEFGHIJKLMNOPQRSTUVWXYZ"
  const SMALL: string := "abcdefghijklmnopqrstuvwxyz"
  const NUMERALS: string := "0123456789"

  /** Table 2 of RFC 4648. */
  function TableChar(v: Sextet): char {
    if v < 26 then CAPITALS[v] else if v < 52 then SMALL[v - 26] else if v < 62 then NUMERALS[v - 52]
    else if v == 62 then '-' else '_'
  }

  lemma Capital(v: nat)
    requires v < 26
    ensures CAPITALS[v] == 'A' + v as char
  {
  }

  lemma Small(v: nat)
    requires v < 26
    ensures SMALL[v] == 'a' + v as char
  {
  }

  /** The codec's alphabet is that table. */
  lemma AlphabetIsTable(v: Sextet)
    ensures CharOf(v) == TableChar(v) && InAlphabet(TableChar(v)) && ValueOf(TableChar(v)) == v
  {
    CharRoundTrip(v);
    if v < 26 {
      Capital(v);
    } else if v < 52 {
      Small(v - 26);
    }
  }

  lemma TableIsWhole(c: char)
    requires InAlphabet(c)
    ensures TableChar(ValueOf(c)) == c
  {
    AlphabetIsTable(ValueOf(c));
  }

  // ---- Encoding ----

  /** Octet `i`, or zero past the end. */
  function OctetAt(b: seq<Octet>, i: nat): Octet {
    if i < |b| then b[i] else 0
  }

  /** Three octets from the `k`-th group as one number of 24 bits. */
  function GroupOf(b: seq<Octet>, k: nat): nat {
    OctetAt(b, 3 * k) * 0x1_0000 + OctetAt(b, 3 * k + 1) * 0x100 + OctetAt(b, 3 * k + 2)
  }

  /** The `j`-th six bits of a group, from the top. */
  function SixBits(group: nat, j: nat): Sextet
    requires j < 4
  {
    if j == 0 then group / 0x4_0000 % 64 else if j == 1 then group / 0x1000 % 64 else if j == 2 then group / 64 % 64 else group % 64
  }

  lemma GroupBits(x: Octet, y: Octet, z: Octet)
    ensures var n := x * 0x1_0000 + y * 0x100 + z;
            SixBits(n, 0) == x / 4 && SixBits(n, 1) == x % 4 * 16 + y / 16 &&
            SixBits(n, 2) == y % 16 * 4 + z / 64 && SixBits(n, 3) == z % 64
  {
    var n := x * 0x1_0000 + y * 0x100 + z;
    assert n / 0x4_0000 == x / 4;
    assert n / 0x1000 == x * 16 + y / 16;
    assert n / 64 == (x * 16 + y / 16) * 64 + (y % 16 * 4 + z / 64);
  }

  lemma EncodedHead(b: seq<Octet>, i: nat)
    requires i < |EncodeRaw(b)| && i < 4
    ensures EncodeRaw(b)[i] == Quantum(OctetAt(b, 0), OctetAt(b, 1), OctetAt(b, 2))[i]
  {
    if |b| == 1 {
      Prefix(Quantum(b[0], 0, 0), 2, i);
    } else if |b| == 2 {
      Prefix(Quantum(b[0], b[1], 0), 3, i);
    }
  }

  lemma Prefix(s: string, n: nat, i: nat)
    requires i < n <= |s|
    ensures s[..n][i] == s[i]
  {
  }

  lemma QuantumAt(x: Octet, y: Octet, z: Octet, i: nat)
    requires i < 4
    ensures Quantum(x, y, z)[i] == TableChar(SixBits(x * 0x1_0000 + y * 0x100 + z, i))
  {
    GroupBits(x, y, z);
    AlphabetIsTable(SixBits(x * 0x1_0000 + y * 0x100 + z, i));
  }

  lemma EncodedRest(b: seq<Octet>, i: nat)
    requires 4 <= i < |EncodeRaw(b)|
    ensures |b| > 2 && i - 4 < |EncodeRaw(b[3..])| && EncodeRaw(b)[i] == EncodeRaw(b[3..])[i - 4]
  {
  }

  lemma GroupLater(b: seq<Octet>, k: nat)
    requires |b| > 2
    ensures GroupOf(b[3..], k) == GroupOf(b, k + 1)
  {
    assert forall j: nat :: OctetAt(b[3..], j) == OctetAt(b, j + 3);
  }

  /** A way to read the `j`-th character of a quantum off its 24 bits. */
  type Reading = (nat, nat) -> char

  ghost predicate ReadsQuanta(code: Reading) {
    forall x: Octet, y: Octet, z: Octet, i: nat :: i < 4 ==> Quantum(x, y, z)[i] == code(x * 0x1_0000 + y * 0x100 + z, i)
  }

  lemma {:induction false} EncodedBy(code: Reading, b: seq<Octet>, i: nat)
    requires ReadsQuanta(code) && i < |EncodeRaw(b)|
    ensures EncodeRaw(b)[i] == code(GroupOf(b, i / 4), i % 4)
  {
    if i >= 4 {
      EncodedRest(b, i);
      EncodedBy(code, b[3..], i - 4);
      GroupLater(b, i / 4 - 1);
      assert (i - 4) / 4 == i / 4 - 1 && (i - 4) % 4 == i % 4;
    } else {
      EncodedHead(b, i);
    }
  }

  function FromTable(group: nat, j: nat): char {
    if j < 4 then TableChar(SixBits(group, j)) else ' '
  }

  lemma TableReads()
    ensures ReadsQuanta(FromTable)
  {
    forall x: Octet, y: Octet, z: Octet, i: nat | i < 4
      ensures Quantum(x, y, z)[i] == FromTable(x * 0x1_0000 + y * 0x100 + z, i)
    {
      QuantumAt(x, y, z, i);
    }
  }

  /** Each character of an encoding stands in the table at its six bits. */
  lemma EncodedAt(b: seq<Octet>, i: nat)
    requires i < |EncodeRaw(b)|
    ensures EncodeRaw(b)[i] == TableChar(SixBits(GroupOf(b, i / 4), i % 4))
  {
    TableReads();
    EncodedBy(FromTable, b, i);
  }

  // ---- Decoding ----

  function SextetAt(x: string, i: nat): Sextet
    requires AllInAlphabet(x)
  {
    if i < |x| then ValueOf(x[i]) else 0
  }

  /** Four characters from the `k`-th quantum as one number of 24 bits. */
  function QuantumOf(x: string, k: nat): nat
    requires AllInAlphabet(x)
  {
    SextetAt(x, 4 * k) * 0x4_0000 + SextetAt(x, 4 * k + 1) * 0x1000 + SextetAt(x, 4 * k + 2) * 64 + SextetAt(x, 4 * k + 3)
  }

  /** The `j`-th octet of a quantum, from the top. */
  function EightBits(quantum: nat, j: nat): Octet
    requires j < 3
  {
    if j == 0 then quantum / 0x1_0000 % 256 else if j == 1 then quantum / 0x100 % 256 else quantum % 256
  }

  /** A way to read the `j`-th octet off the 24 bits of a quantum. */
  type OctetReading = (nat, nat) -> Octet

  ghost predicate ReadsTriples(read: OctetReading) {
    forall p: Sextet, q: Sextet, r: Sextet, t: Sextet, j: nat ::
      j < 3 ==> Triple(p, q, r, t)[j] == read(p * 0x4_0000 + q * 0x1000 + r * 64 + t, j)
  }

  /** Alphabet text stands, quantum by quantum, for these octets. */
  ghost predicate StandsFor(read: OctetReading, x: string, b: seq<Octet>) {
    AllInAlphabet(x) && 4 * |b| <= 3 * |x| < 4 * |b| + 4 &&
    forall k: nat, j: nat :: j < 3 && 3 * k + j < |b| ==> b[3 * k + j] == read(QuantumOf(x, k), j)
  }

  predicate OnlyPadding(pad: string) {
    forall i :: 0 <= i < |pad| ==> pad[i] == '='
  }

  lemma {:induction false} ShortBlock(read: OctetReading, x: string, b: seq<Octet>)
    requires ReadsTriples(read) && AllInAlphabet(x) && 2 <= |x| <= 4
    ensures StandsFor(read, x, b) <==>
            b == Triple(ValueOf(x[0]), ValueOf(x[1]), SextetAt(x, 2), SextetAt(x, 3))[..|x| - 1]
  {
    var c := Triple(ValueOf(x[0]), ValueOf(x[1]), SextetAt(x, 2), SextetAt(x, 3));
    assert forall j: nat :: j < 3 ==> c[j] == read(QuantumOf(x, 0), j);
    if StandsFor(read, x, b) {
      assert |b| == |x| - 1;
      forall j: nat | j < |b|
        ensures b[j] == c[j]
      {
        assert b[3 * 0 + j] == read(QuantumOf(x, 0), j);
      }
    }
  }

  lemma QuantumShifts(q: string, x: string)
    requires AllInAlphabet(q) && |q| == 4 && AllInAlphabet(x)
    ensures AllInAlphabet(q + x) && QuantumOf(q + x, 0) == QuantumOf(q, 0)
    ensures forall k: nat :: QuantumOf(q + x, k + 1) == QuantumOf(x, k)
  {
    var y := q + x;
    assert forall j: nat :: SextetAt(y, j + 4) == SextetAt(x, j);
    assert forall j: nat :: j < 4 ==> SextetAt(y, j) == SextetAt(q, j);
  }

  lemma StandsForMore(read: OctetReading, q: string, x: string, c: seq<Octet>, b: seq<Octet>)
    requires AllInAlphabet(q) && |q| == 4 && |c| == 3 && StandsFor(read, q, c) && StandsFor(read, x, b)
    ensures StandsFor(read, q + x, c + b)
  {
    QuantumShifts(q, x);
    var y, d := q + x, c + b;
    forall k: nat, j: nat | j < 3 && 3 * k + j < |d|
      ensures d[3 * k + j] == read(QuantumOf(y, k), j)
    {
      if k == 0 {
        assert c[3 * 0 + j] == read(QuantumOf(q, 0), j);
      } else {
        assert QuantumOf(y, (k - 1) + 1) == QuantumOf(x, k - 1);
        assert d[3 * k + j] == b[3 * (k - 1) + j];
      }
    }
  }

  lemma StandsForParts(read: OctetReading, q: string, x: string, b: seq<Octet>)
    requires |q| == 4 && AllInAlphabet(q) && AllInAlphabet(x) && StandsFor(read, q + x, b)
    ensures |b| >= 3 && StandsFor(read, q, b[..3]) && StandsFor(read, x, b[3..])
  {
    QuantumShifts(q, x);
    var y := q + x;
    forall k: nat, j: nat | j < 3 && 3 * k + j < 3
      ensures b[..3][3 * k + j] == read(QuantumOf(q, k), j)
    {
      assert k == 0 && b[3 * 0 + j] == read(QuantumOf(y, 0), j);
    }
    forall k: nat, j: nat | j < 3 && 3 * k + j < |b[3..]|
      ensures b[3..][3 * k + j] == read(QuantumOf(x, k), j)
    {
      assert b[3 * (k + 1) + j] == read(QuantumOf(y, k + 1), j);
      assert b[3..][3 * k + j] == b[3 * (k + 1) + j];
    }
  }

  /** Whole quanta over the alphabet, the last of which may end in `k` signs of padding. */
  ghost predicate PaddedBy(read: OctetReading, t: string, b: seq<Octet>, k: nat) {
    |t| % 4 == 0 && k <= 2 && k <= |t| && OnlyPadding(t[|t| - k..]) && StandsFor(read, t[..|t| - k], b)
  }

  /** A last quantum decodes to what it stands for. */
  lemma LastQuantum(t: string, k: nat)
    requires |t| == 4 && k <= 2 && OnlyPadding(t[4 - k..]) && AllInAlphabet(t[..4 - k])
    ensures DecodeQuanta(t) ==
            Some(Triple(ValueOf(t[0]), ValueOf(t[1]), SextetAt(t[..4 - k], 2), SextetAt(t[..4 - k], 3))[..3 - k])
  {
    var x, pad := t[..4 - k], t[4 - k..];
    assert !InAlphabet('=') && t[4..] == "";
    assert x[0] == t[0] && x[1] == t[1];
    if k == 0 {
      assert x[2] == t[2] && x[3] == t[3];
      var c := Triple(ValueOf(t[0]), ValueOf(t[1]), ValueOf(t[2]), ValueOf(t[3]));
      assert DecodeQuanta(t[4..]) == Some([]) && c + [] == c == c[..3];
    } else if k == 1 {
      assert x[2] == t[2] && t[3] == pad[0];
    } else {
      assert t[2] == pad[0] && t[3] == pad[1];
    }
  }

  lemma PaddedParts(read: OctetReading, t: string, b: seq<Octet>, k: nat)
    requires PaddedBy(read, t, b, k) && |t| > 4
    ensures AllInAlphabet(t[..4]) && |b| >= 3 && StandsFor(read, t[..4], b[..3]) && PaddedBy(read, t[4..], b[3..], k)
  {
    var q, rest := t[..4], t[4..];
    var x := rest[..|rest| - k];
    assert t[..|t| - k] == q + x && t[|t| - k..] == rest[|rest| - k..];
    assert forall i :: 0 <= i < 4 ==> q[i] == (q + x)[i];
    assert forall i :: 0 <= i < |x| ==> x[i] == (q + x)[i + 4];
    StandsForParts(read, q, x, b);
  }

  lemma FullDecodes(read: OctetReading, q: string, rest: string, b: seq<Octet>)
    requires ReadsTriples(read) && |q| == 4 && AllInAlphabet(q) && |b| >= 3 && StandsFor(read, q, b[..3])
    requires DecodeQuanta(rest) == Some(b[3..])
    ensures DecodeQuanta(q + rest) == Some(b)
  {
    var c := Triple(ValueOf(q[0]), ValueOf(q[1]), ValueOf(q[2]), ValueOf(q[3]));
    ShortBlock(read, q, b[..3]);
    assert c[..3] == c;
    DecodeFullBlock(q, rest);
    assert b == b[..3] + b[3..];
  }

  lemma {:induction false} PaddedDecodes(read: OctetReading, t: string, b: seq<Octet>, k: nat)
    requires ReadsTriples(read) && PaddedBy(read, t, b, k)
    ensures DecodeQuanta(t) == Some(b)
  {
    if |t| == 4 {
      LastQuantum(t, k);
      ShortBlock(read, t[..4 - k], b);
    } else if |t| > 4 {
      PaddedParts(read, t, b, k);
      PaddedDecodes(read, t[4..], b[3..], k);
      FullDecodes(read, t[..4], t[4..], b);
      assert t == t[..4] + t[4..];
    } else {
      assert b == [];
    }
  }

  lemma MorePadded(read: OctetReading, q: string, rest: string, c: seq<Octet>, b: seq<Octet>, k: nat)
    requires |q| == 4 && AllInAlphabet(q) && |c| == 3 && StandsFor(read, q, c) && PaddedBy(read, rest, b, k)
    ensures PaddedBy(read, q + rest, c + b, k)
  {
    var t, x := q + rest, rest[..|rest| - k];
    StandsForMore(read, q, x, c, b);
    assert t[..|t| - k] == q + x && t[|t| - k..] == rest[|rest| - k..];
  }

  /** What a decodable text looks like at its first quantum. */
  lemma FirstQuantum(t: string)
    requires DecodeQuanta(t).Some? && t != ""
    ensures |t| >= 4 && InAlphabet(t[0]) && InAlphabet(t[1])
    ensures if InAlphabet(t[2]) && InAlphabet(t[3]) then DecodeQuanta(t[4..]).Some?
            else |t| == 4 && t[3] == '=' && (InAlphabet(t[2]) || t[2] == '=')
  {
  }

  lemma ShortQuantum(read: OctetReading, t: string) returns (k: nat)
    requires ReadsTriples(read)
    requires |t| == 4 && InAlphabet(t[0]) && InAlphabet(t[1]) && t[3] == '=' && (InAlphabet(t[2]) || t[2] == '=')
    ensures DecodeQuanta(t).Some? && PaddedBy(read, t, DecodeQuanta(t).value, k)
  {
    k := if InAlphabet(t[2]) then 1 else 2;
    LastQuantum(t, k);
    ShortBlock(read, t[..4 - k], DecodeQuanta(t).value);
  }

  lemma FullThenPadded(read: OctetReading, t: string, b: seq<Octet>, k: nat)
    requires ReadsTriples(read) && |t| >= 4 && AllInAlphabet(t[..4])
    requires DecodeQuanta(t[4..]) == Some(b) && PaddedBy(read, t[4..], b, k)
    ensures DecodeQuanta(t).Some? && PaddedBy(read, t, DecodeQuanta(t).value, k)
  {
    var q, rest := t[..4], t[4..];
    var c := Triple(ValueOf(q[0]), ValueOf(q[1]), ValueOf(q[2]), ValueOf(q[3]));
    assert t == q + rest;
    DecodeFullBlock(q, rest);
    ShortBlock(read, q, c);
    MorePadded(read, q, rest, c, b, k);
  }

  lemma {:induction false} DecodedIsPadded(read: OctetReading, t: string) returns (k: nat)
    requires ReadsTriples(read) && DecodeQuanta(t).Some?
    ensures PaddedBy(read, t, DecodeQuanta(t).value, k)
  {
    if t == "" {
      k := 0;
    } else {
      FirstQuantum(t);
      if InAlphabet(t[2]) && InAlphabet(t[3]) {
        k := DecodedIsPadded(read, t[4..]);
        FullThenPadded(read, t, DecodeQuanta(t[4..]).value, k);
      } else {
        k := ShortQuantum(read, t);
      }
    }
  }

  lemma TopOctets(x: Octet, y: Octet, z: Octet)
    ensures var n := x * 0x1_0000 + y * 0x100 + z;
            EightBits(n, 0) == x && EightBits(n, 1) == y && EightBits(n, 2) == z
  {
    var n := x * 0x1_0000 + y * 0x100 + z;
    assert n / 0x1_0000 == x;
    assert n / 0x100 == x * 0x100 + y;
  }

  lemma QuantumBits(p: Sextet, q: Sextet, r: Sextet, t: Sextet)
    ensures var n := p * 0x4_0000 + q * 0x1000 + r * 64 + t;
            [EightBits(n, 0), EightBits(n, 1), EightBits(n, 2)] == Triple(p, q, r, t)
  {
    var qa, qb, ra, rb := q / 16, q % 16, r / 4, r % 4;
    TopOctets(p * 4 + qa, qb * 16 + ra, rb * 64 + t);
    assert p * 0x4_0000 + q * 0x1000 + r * 64 + t == (p * 4 + qa) * 0x1_0000 + (qb * 16 + ra) * 0x100 + (rb * 64 + t);
  }

  function OctetOf(quantum: nat, j: nat): Octet {
    if j < 3 then EightBits(quantum, j) else 0
  }

  lemma BitsRead()
    ensures ReadsTriples(OctetOf)
  {
    forall p: Sextet, q: Sextet, r: Sextet, t: Sextet, j: nat | j < 3
      ensures Triple(p, q, r, t)[j] == OctetOf(p * 0x4_0000 + q * 0x1000 + r * 64 + t, j)
    {
      QuantumBits(p, q, r, t);
    }
  }

  /** Whole quanta over the alphabet, the last of which may end in `k` signs of padding,
      and the octets of their 24 bits. */
  ghost predicate Padded(t: string, b: seq<Octet>, k: nat) {
    PaddedBy(OctetOf, t, b, k)
  }

  /** The strict decoder yields these octets exactly when the text is that. */
  lemma DecodesExactly(t: string, b: seq<Octet>)
    ensures DecodeQuanta(t) == Some(b) <==> exists k: nat :: Padded(t, b, k)
  {
    BitsRead();
    if DecodeQuanta(t) == Some(b) {
      var k := DecodedIsPadded(OctetOf, t);
      assert Padded(t, b, k);
    }
    if exists k: nat :: Padded(t, b, k) {
      var k: nat :| Padded(t, b, k);
      PaddedDecodes(OctetOf, t, b, k);
    }
  }

  // ---- The lenient decoder ----

  lemma {:induction false} StripsApart(a: string, z: string)
    ensures StripNewlines(a + z) == StripNewlines(a) + StripNewlines(z)
  {
    if a == "" {
      assert a + z == z;
    } else {
      StripsApart(a[1..], z);
      assert (a + z)[1..] == a[1..] + z;
    }
  }

  /** Line breaks go wherever they stand, and nothing else does. */
  lemma StripsLineBreaks(a: string, c: char, z: string)
    ensures StripNewlines(a + [c] + z) ==
            StripNewlines(a) + (if c == '\n' || c == '\r' then "" else [c]) + StripNewlines(z)
  {
    StripsApart(a + [c], z);
    StripsApart(a, [c]);
    OneStripped(c);
  }

  lemma OneStripped(c: char)
    ensures StripNewlines([c]) == if c == '\n' || c == '\r' then "" else [c]
  {
    assert [c][1..] == "";
  }

  lemma PaddingToFour(s: string, pad: string)
    requires OnlyPadding(pad) && |pad| < 4 && |s + pad| % 4 == 0
    ensures PadToFour(s) == s + pad
  {
    assert |s + pad| == |s| + |pad|;
    if |pad| == 1 {
      assert |s| % 4 == 3 && s + pad == s + "=";
    } else if |pad| == 2 {
      assert |s| % 4 == 2 && s + pad == s + "==";
    } else if |pad| == 3 {
      assert |s| % 4 == 1 && s + pad == s + "===";
    } else {
      assert |s| % 4 == 0 && s + pad == s;
    }
  }

  /** Fewer than four signs of padding, up to the next multiple of four; then line
      breaks go, and what is left is decoded. */
  lemma LenientExactly(s: string, pad: string, b: seq<Octet>)
    requires OnlyPadding(pad) && |pad| < 4 && |s + pad| % 4 == 0
    ensures Decode(s) == Some(b) <==> exists k: nat :: Padded(StripNewlines(s + pad), b, k)
  {
    PaddingToFour(s, pad);
    assert Decode(s) == DecodeQuanta(StripNewlines(s + pad));
    DecodesExactly(StripNewlines(s + pad), b);
  }
}
