/** Message ids and request ids. The mailbox cursor compares message ids as
    text; UUIDv7 text order is the order of the 128-bit values. */
module Uuid {
  import opened Lex

  predicate IsHex(c: char) {
    '0' <= c <= '9' || 'a' <= c <= 'f'
  }

  /** The 8-4-4-4-12 layout over lower-case hexadecimal digits. */
  predicate UuidShape(s: string) {
    |s| == 36 &&
    forall i :: 0 <= i < 36 ==>
      if i == 8 || i == 13 || i == 18 || i == 23 then s[i] == '-' else IsHex(s[i])
  }

  /** Version nibble 7 and variant bits 10. */
  predicate Uuidv7(s: string) {
    UuidShape(s) && s[14] == '7' && (s[19] == '8' || s[19] == '9' || s[19] == 'a' || s[19] == 'b')
  }

  function Digit(c: char): (d: nat)
    requires IsHex(c)
    ensures d < 16
  {
    if c <= '9' then c as int - '0' as int else c as int - 'a' as int + 10
  }

  function Pow16(n: nat): (p: nat)
    ensures p > 0
  {
    if n == 0 then 1 else 16 * Pow16(n - 1)
  }

  predicate HexText(s: string) {
    forall i :: 0 <= i < |s| ==> s[i] == '-' || IsHex(s[i])
  }

  function DigitCount(s: string): nat {
    if s == "" then 0 else (if s[0] == '-' then 0 else 1) + DigitCount(s[1..])
  }

  /** The number that the digits spell, dashes skipped. */
  function Number(s: string): nat
    requires HexText(s)
  {
    if s == "" then 0
    else if s[0] == '-' then Number(s[1..])
    else Digit(s[0]) * Pow16(DigitCount(s[1..])) + Number(s[1..])
  }

  /** The 48-bit timestamp of section 5.7 of RFC 9562: the first twelve digits. */
  function Timestamp(s: string): nat
    requires Uuidv7(s)
  {
    Number(s[..13])
  }

  /** Dashes stand at the same places. */
  predicate Aligned(a: string, b: string) {
    |a| == |b| && forall i :: 0 <= i < |a| ==> (a[i] == '-' <==> b[i] == '-')
  }

  lemma {:induction false} NumberBound(s: string)
    requires HexText(s)
    ensures Number(s) < Pow16(DigitCount(s))
  {
    if s != "" {
      NumberBound(s[1..]);
      if s[0] != '-' {
        Scale(Digit(s[0]), 15, Pow16(DigitCount(s[1..])));
      }
    }
  }

  lemma Scale(d: nat, e: nat, p: nat)
    requires d <= e
    ensures d * p <= e * p
  {
  }

  lemma {:induction false} AlignedCounts(a: string, b: string)
    requires Aligned(a, b)
    ensures DigitCount(a) == DigitCount(b)
  {
    if a != "" {
      AlignedCounts(a[1..], b[1..]);
    }
  }

  /** Aligned hexadecimal texts compare as text exactly as they do as numbers. */
  lemma {:induction false} TextOrderIsNumberOrder(a: string, b: string)
    requires HexText(a) && HexText(b) && Aligned(a, b)
    ensures StrLess(a, b) <==> Number(a) < Number(b)
    ensures a == b <==> Number(a) == Number(b)
  {
    if a != "" {
      StrLessCons(a, b);
      TextOrderIsNumberOrder(a[1..], b[1..]);
      AlignedCounts(a[1..], b[1..]);
      assert a == [a[0]] + a[1..] && b == [b[0]] + b[1..];
      if a[0] != b[0] {
        NumberBound(a[1..]);
        NumberBound(b[1..]);
        var d, e := Digit(a[0]), Digit(b[0]);
        if a[0] < b[0] {
          LeadingDigitDecides(d, e, Pow16(DigitCount(a[1..])), Number(a[1..]), Number(b[1..]));
        } else {
          LeadingDigitDecides(e, d, Pow16(DigitCount(a[1..])), Number(b[1..]), Number(a[1..]));
        }
      }
    }
  }

  lemma LeadingDigitDecides(d: nat, e: nat, p: nat, x: nat, y: nat)
    requires d < e && x < p && y < p
    ensures d * p + x < e * p + y
  {
    Scale(d + 1, e, p);
    assert (d + 1) * p == d * p + p;
  }

  /** Cursor order is id order. */
  lemma CursorOrder(a: string, b: string)
    requires Uuidv7(a) && Uuidv7(b)
    ensures HexText(a) && HexText(b)
    ensures StrLess(a, b) <==> Number(a) < Number(b)
    ensures Timestamp(a) < Timestamp(b) ==> StrLess(a, b)
  {
    TextOrderIsNumberOrder(a, b);
    TextOrderIsNumberOrder(a[..13], b[..13]);
    if Timestamp(a) < Timestamp(b) {
      assert Codes(a) == Codes(a[..13]) + Codes(a[13..]) && Codes(b) == Codes(b[..13]) + Codes(b[13..]);
      LessExtends(Codes(a[..13]), Codes(b[..13]), Codes(a[13..]), Codes(b[13..]));
    }
  }

  lemma {:induction false} LessExtends(a: seq<int>, b: seq<int>, c: seq<int>, d: seq<int>)
    requires |a| == |b| && Less(a, b)
    ensures Less(a + c, b + d)
  {
    if a[0] == b[0] {
      LessExtends(a[1..], b[1..], c, d);
      assert (a + c)[1..] == a[1..] + c && (b + d)[1..] == b[1..] + d;
    }
  }

  // ---- The layout of section 4 of RFC 9562 ----

  predicate HexDigits(s: string) {
    forall i :: 0 <= i < |s| ==> IsHex(s[i])
  }

  /** Five groups of digits with dashes between them. */
  ghost predicate FiveGroups(s: string, a: string, b: string, c: string, d: string, e: string) {
    |a| == 8 && |b| == |c| == |d| == 4 && |e| == 12 && HexDigits(a) && HexDigits(b) && HexDigits(c) && HexDigits(d) && HexDigits(e) &&
    s == a + "-" + b + "-" + c + "-" + d + "-" + e
  }

  lemma ShapeExactly(s: string)
    ensures UuidShape(s) <==> exists a, b, c, d, e :: FiveGroups(s, a, b, c, d, e)
  {
    if UuidShape(s) {
      assert s == s[..8] + "-" + s[9..13] + "-" + s[14..18] + "-" + s[19..23] + "-" + s[24..];
      assert FiveGroups(s, s[..8], s[9..13], s[14..18], s[19..23], s[24..]);
    }
  }

  lemma {:induction false} NumberSplit(s: string, t: string)
    requires HexText(s) && HexText(t)
    ensures HexText(s + t) && DigitCount(s + t) == DigitCount(s) + DigitCount(t)
    ensures Number(s + t) == Number(s) * Pow16(DigitCount(t)) + Number(t)
  {
    if s == "" {
      assert s + t == t;
    } else {
      assert (s + t)[1..] == s[1..] + t;
      NumberSplit(s[1..], t);
      if s[0] != '-' {
        PowSum(DigitCount(s[1..]), DigitCount(t));
        Distribute(Digit(s[0]), Pow16(DigitCount(s[1..])), Number(s[1..]), Pow16(DigitCount(t)));
      }
    }
  }

  lemma Distribute(d: nat, p: nat, n: nat, q: nat)
    ensures (d * p + n) * q == d * (p * q) + n * q
  {
  }

  lemma {:induction false} PowSum(m: nat, n: nat)
    ensures Pow16(m + n) == Pow16(m) * Pow16(n)
  {
    if m > 0 {
      PowSum(m - 1, n);
    }
  }

  lemma {:induction false} AllDigits(s: string)
    requires HexDigits(s)
    ensures HexText(s) && DigitCount(s) == |s|
  {
    if s != "" {
      AllDigits(s[1..]);
    }
  }

  lemma DivideOut(m: nat, p: nat, y: nat)
    requires y < p
    ensures (m * p + y) / p == m
  {
    var q, r := (m * p + y) / p, (m * p + y) % p;
    assert q * p + r == m * p + y;
    assert (q - m) * p == y - r;
    NoMultiple(q - m, p, y - r);
  }

  lemma NoMultiple(a: int, p: int, z: int)
    requires a * p == z && -p < z < p
    ensures a == 0
  {
  }

  /** Dividing by the weight of the back leaves the number of the front. */
  lemma TopDigits(front: string, back: string)
    requires HexText(front) && HexText(back)
    ensures HexText(front + back) && Number(front + back) / Pow16(DigitCount(back)) == Number(front)
  {
    NumberSplit(front, back);
    NumberBound(back);
    DivideOut(Number(front), Pow16(DigitCount(back)), Number(back));
  }

  lemma LastDigit(front: string, c: char)
    requires HexText(front) && IsHex(c)
    ensures HexText(front + [c]) && Number(front + [c]) % 16 == Digit(c)
  {
    OneDigit(c);
    NumberSplit(front, [c]);
  }

  /** A digit of the text is that digit of the number. */
  lemma DigitInNumber(front: string, c: char, back: string)
    requires HexText(front) && IsHex(c) && HexText(back)
    ensures HexText(front + [c] + back)
    ensures Number(front + [c] + back) / Pow16(DigitCount(back)) % 16 == Digit(c)
  {
    LastDigit(front, c);
    TopDigits(front + [c], back);
  }

  lemma OneDigit(c: char)
    requires IsHex(c)
    ensures HexText([c]) && DigitCount([c]) == 1 && Number([c]) == Digit(c) && Pow16(1) == 16
  {
    assert [c][1..] == "";
  }

  /** The 128 bits of a message id: the version field holds 7 and the two variant
      bits are 10, section 5.7 of RFC 9562. Digits 13 and 17 from the top carry
      them. */
  lemma Version7Exactly(s: string)
    requires UuidShape(s)
    ensures HexText(s) && DigitCount(s) == 32
    ensures Uuidv7(s) <==> Number(s) / Pow16(19) % 16 == 7 && Number(s) / Pow16(15) % 16 / 4 == 2
  {
    GroupCounts(s);
    assert s == s[..14] + [s[14]] + s[15..] && s == s[..19] + [s[19]] + s[20..];
    DigitInNumber(s[..14], s[14], s[15..]);
    DigitInNumber(s[..19], s[19], s[20..]);
  }

  lemma Dash(s: string, t: string)
    requires HexDigits(s) && HexText(t)
    ensures HexText(s + "-" + t) && DigitCount(s + "-" + t) == |s| + DigitCount(t)
  {
    AllDigits(s);
    assert "-"[1..] == "";
    NumberSplit(s, "-");
    NumberSplit(s + "-", t);
  }

  lemma GroupCounts(s: string)
    requires UuidShape(s)
    ensures HexText(s) && DigitCount(s) == 32 && DigitCount(s[14..]) == 20 && DigitCount(s[15..]) == 19 && DigitCount(s[20..]) == 15
  {
    AllDigits(s[24..]);
    Dash(s[20..23], s[24..]);
    assert s[20..] == s[20..23] + "-" + s[24..];
    Dash(s[19..23], s[24..]);
    assert s[19..] == s[19..23] + "-" + s[24..];
    Dash(s[15..18], s[19..]);
    assert s[15..] == s[15..18] + "-" + s[19..];
    Dash(s[14..18], s[19..]);
    assert s[14..] == s[14..18] + "-" + s[19..];
    Dash(s[9..13], s[14..]);
    assert s[9..] == s[9..13] + "-" + s[14..];
    Dash(s[..8], s[9..]);
    assert s == s[..8] + "-" + s[9..];
  }

  /** The timestamp is the number's top 48 bits. */
  lemma TimestampIsTop(s: string)
    requires Uuidv7(s)
    ensures HexText(s) && Timestamp(s) == Number(s) / Pow16(20)
  {
    GroupCounts(s);
    assert s == s[..13] + s[13..] && s[13..][1..] == s[14..];
    TopDigits(s[..13], s[13..]);
  }
}
