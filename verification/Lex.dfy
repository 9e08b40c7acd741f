/** Values shared by every component: results of partial operations, octets,
    and the one byte-wise order behind SQLite's text comparison, the sorting of
    public keys and the message cursor. */
module Lex {

  datatype Option<+T> = None | Some(value: T)

  type Octet = x: int | 0 <= x < 256

  /** The length of a text in UTF-8, which is what the length caps count. */
  function Utf8Size(s: string): nat {
    if s == "" then 0
    else Utf8Size(s[1..]) +
         (if s[0] as int < 0x80 then 1 else if s[0] as int < 0x800 then 2 else if s[0] as int < 0x10000 then 3 else 4)
  }

  /** Lexicographic "strictly before": the first difference decides, and a
      proper prefix comes before its extensions. */
  predicate Less(a: seq<int>, b: seq<int>) {
    if a == [] then b != []
    else if b == [] then false
    else if a[0] != b[0] then a[0] < b[0]
    else Less(a[1..], b[1..])
  }

  /** A common prefix never matters, so an index scan may decide the order at
      the first difference. */
  lemma {:induction false} LessAfterPrefix(a: seq<int>, b: seq<int>, k: nat)
    requires k <= |a| && k <= |b| && a[..k] == b[..k]
    ensures Less(a, b) == Less(a[k..], b[k..])
  {
    if k == 0 {
      assert a[0..] == a && b[0..] == b;
    } else {
      assert a[0] == a[..k][0] == b[..k][0] == b[0];
      assert a[1..][..k - 1] == a[..k][1..] && b[1..][..k - 1] == b[..k][1..];
      LessAfterPrefix(a[1..], b[1..], k - 1);
      assert a[1..][k - 1..] == a[k..] && b[1..][k - 1..] == b[k..];
    }
  }

  lemma {:induction false} Transitive(a: seq<int>, b: seq<int>, c: seq<int>)
    requires Less(a, b) && Less(b, c)
    ensures Less(a, c)
  {
    if a != [] && b != [] && c != [] && a[0] == b[0] && b[0] == c[0] {
      Transitive(a[1..], b[1..], c[1..]);
    }
  }

  lemma {:induction false} Irreflexive(a: seq<int>)
    ensures !Less(a, a)
  {
    if a != [] {
      Irreflexive(a[1..]);
    }
  }

  /** Exactly one of "before", "equal" and "after" holds. */
  lemma {:induction false} Trichotomy(a: seq<int>, b: seq<int>)
    ensures Less(a, b) || a == b || Less(b, a)
    ensures !(Less(a, b) && Less(b, a))
    ensures !Less(a, a)
  {
    Irreflexive(a);
    if a != [] && b != [] && a[0] == b[0] {
      Trichotomy(a[1..], b[1..]);
      assert a == [a[0]] + a[1..] && b == [b[0]] + b[1..];
    }
  }

  /** The character codes of a string; for the ASCII text the relay stores
      these are its bytes. */
  function Codes(s: string): (c: seq<int>)
    ensures |c| == |s| && forall i :: 0 <= i < |s| ==> c[i] == s[i] as int
  {
    seq(|s|, i requires 0 <= i < |s| => s[i] as int)
  }

  /** Text order as SQLite's BINARY collation compares it. */
  predicate StrLess(a: string, b: string) {
    Less(Codes(a), Codes(b))
  }

  /** How text order unfolds on the first characters. */
  lemma StrLessCons(a: string, b: string)
    requires a != "" && b != ""
    ensures StrLess(a, b) == if a[0] != b[0] then a[0] < b[0] else StrLess(a[1..], b[1..])
  {
    assert Codes(a)[1..] == Codes(a[1..]) && Codes(b)[1..] == Codes(b[1..]);
  }

  lemma StrTransitive(a: string, b: string, c: string)
    requires StrLess(a, b) && StrLess(b, c)
    ensures StrLess(a, c)
  {
    Transitive(Codes(a), Codes(b), Codes(c));
  }

  lemma StrTrichotomy(a: string, b: string)
    ensures StrLess(a, b) || a == b || StrLess(b, a)
    ensures !(StrLess(a, b) && StrLess(b, a))
    ensures !StrLess(a, a)
  {
    Trichotomy(Codes(a), Codes(b));
    if Codes(a) == Codes(b) {
      assert forall i :: 0 <= i < |a| ==> Codes(a)[i] == a[i] as int && Codes(b)[i] == b[i] as int;
    }
  }

  /** Equal-length strings are ordered at their first difference. */
  lemma StrLessAt(a: string, b: string, k: nat)
    requires k < |a| && k < |b| && a[..k] == b[..k] && a[k] != b[k]
    ensures StrLess(a, b) == (a[k] < b[k])
  {
    assert forall i :: 0 <= i < k ==> a[i] == a[..k][i] == b[..k][i] == b[i];
    assert Codes(a)[..k] == Codes(b)[..k];
    LessAfterPrefix(Codes(a), Codes(b), k);
  }

  /** Lexicographic order said at once: the sequences part at some place, where the
      first has ended or has the smaller element. */
  ghost predicate PartsAt(a: seq<int>, b: seq<int>, k: nat) {
    k <= |a| && k < |b| && a[..k] == b[..k] && (k == |a| || a[k] < b[k])
  }

  lemma LessExactly(a: seq<int>, b: seq<int>)
    ensures Less(a, b) <==> exists k: nat :: PartsAt(a, b, k)
  {
    if Less(a, b) {
      var k := PartsSomewhere(a, b);
    }
    if exists k: nat :: PartsAt(a, b, k) {
      var k: nat :| PartsAt(a, b, k);
      LessAfterPrefix(a, b, k);
    }
  }

  lemma {:induction false} PartsSomewhere(a: seq<int>, b: seq<int>) returns (k: nat)
    requires Less(a, b)
    ensures PartsAt(a, b, k)
  {
    k := 0;
    if a != [] && a[0] == b[0] {
      var j := PartsSomewhere(a[1..], b[1..]);
      k := j + 1;
      assert a[..k] == [a[0]] + a[1..][..j] && b[..k] == [b[0]] + b[1..][..j];
    }
  }

  /** The octets of one character in UTF-8, section 3 of RFC 3629. */
  function Utf8(c: char): seq<Octet> {
    var n := c as int;
    if n < 0x80 then [n]
    else if n < 0x800 then [0xC0 + n / 64, 0x80 + n % 64]
    else if n < 0x10000 then [0xE0 + n / 4096, 0x80 + n / 64 % 64, 0x80 + n % 64]
    else [0xF0 + n / 0x40000, 0x80 + n / 4096 % 64, 0x80 + n / 64 % 64, 0x80 + n % 64]
  }

  /** The number that an encoded character spells: the bits its octets have left. */
  function CodePoint(u: seq<int>): int {
    if |u| == 1 then u[0]
    else if |u| == 2 then u[0] % 32 * 64 + u[1] % 64
    else if |u| == 3 then u[0] % 16 * 4096 + u[1] % 64 * 64 + u[2] % 64
    else if |u| == 4 then u[0] % 8 * 0x40000 + u[1] % 64 * 4096 + u[2] % 64 * 64 + u[3] % 64
    else -1
  }

  lemma Utf8Reads(c: char)
    ensures CodePoint(Utf8(c)) == c as int
  {
    var n := c as int;
    Low(n);
    if n >= 0x800 {
      ManyOctets(n);
    }
  }

  lemma ManyOctets(n: nat)
    requires 0x800 <= n < 0x11_0000
    ensures n < 0x10000 ==> CodePoint([0xE0 + n / 4096, 0x80 + n / 64 % 64, 0x80 + n % 64]) == n
    ensures CodePoint([0xF0 + n / 0x40000, 0x80 + n / 4096 % 64, 0x80 + n / 64 % 64, 0x80 + n % 64]) == n
  {
    Low(n);
    Low(n / 64);
    Low(n / 4096);
    assert n / 64 / 64 == n / 4096 && n / 4096 / 64 == n / 0x40000;
  }

  lemma Low(n: nat)
    ensures (0x80 + n % 64) % 64 == n % 64 && n == n / 64 * 64 + n % 64
  {
  }

  function Utf8Text(s: string): seq<Octet> {
    if s == "" then [] else Utf8(s[0]) + Utf8Text(s[1..])
  }

  /** The length caps count the octets of the text. */
  lemma {:induction false} SizeIsOctets(s: string)
    ensures Utf8Size(s) == |Utf8Text(s)|
  {
    if s != "" {
      SizeIsOctets(s[1..]);
    }
  }
}
