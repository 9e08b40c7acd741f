/** Lower-case hexadecimal, as digests and control characters are written. */
module Hex {
  import opened Lex

  const DIGITS: string := "0123456789abcdef"
  const CAPITALS: string := "0123456789ABCDEF"

  function HexChar(n: nat): char
    requires n < 16
  {
    if n < 10 then ('0' as int + n) as char else ('a' as int + n - 10) as char
  }

  /** Reading takes both cases. */
  function HexValue(c: char): Option<nat> {
    if '0' <= c <= '9' then Some(c as int - '0' as int)
    else if 'a' <= c <= 'f' then Some(c as int - 'a' as int + 10)
    else if 'A' <= c <= 'F' then Some(c as int - 'A' as int + 10)
    else None
  }

  /** Two digits for each octet. */
  function HexText(bytes: seq<Octet>): string {
    if bytes == [] then ""
    else [HexChar(bytes[0] / 16), HexChar(bytes[0] % 16)] + HexText(bytes[1..])
  }

  lemma DigitTable(n: nat)
    requires n < 16
    ensures HexChar(n) == DIGITS[n]
  {
  }

  /** A character reads as a digit exactly when it stands at that place of one of
      the two tables. */
  lemma ReadsExactly(c: char, n: nat)
    ensures HexValue(c) == Some(n) <==> n < 16 && (c == DIGITS[n] || c == CAPITALS[n])
  {
  }

  predicate LowerDigit(c: char) {
    '0' <= c <= '9' || 'a' <= c <= 'f'
  }

  /** Two lower-case digits that read as this octet. */
  predicate SpellsOctet(high: char, low: char, b: Octet) {
    LowerDigit(high) && LowerDigit(low) && HexValue(high).Some? && HexValue(low).Some? &&
    b == 16 * HexValue(high).value + HexValue(low).value
  }

  /** The text reads back, two lower-case digits at a time, as these octets. */
  predicate SpellsOctets(text: string, bytes: seq<Octet>) {
    |text| == 2 * |bytes| && forall i :: 0 <= i < |bytes| ==> SpellsOctet(text[2 * i], text[2 * i + 1], bytes[i])
  }

  lemma OctetExactly(high: char, low: char, b: Octet)
    ensures high == HexChar(b / 16) && low == HexChar(b % 16) <==> SpellsOctet(high, low, b)
  {
    DigitTable(b / 16);
    DigitTable(b % 16);
  }

  /** One text only spells these octets, and it is the one written. */
  lemma {:induction false} HexTextExactly(text: string, bytes: seq<Octet>)
    ensures text == HexText(bytes) <==> SpellsOctets(text, bytes)
  {
    if bytes != [] && |text| >= 2 {
      var front, rest := [HexChar(bytes[0] / 16), HexChar(bytes[0] % 16)], text[2..];
      OctetExactly(text[0], text[1], bytes[0]);
      HexTextExactly(rest, bytes[1..]);
      assert text == [text[0], text[1]] + rest;
      assert text == HexText(bytes) <==> [text[0], text[1]] == front && rest == HexText(bytes[1..]) by {
        if text == front + HexText(bytes[1..]) {
          assert text[..2] == front && text[2..] == HexText(bytes[1..]);
        }
      }
      RestSpells(text, bytes);
    }
  }

  lemma RestSpells(text: string, bytes: seq<Octet>)
    requires bytes != [] && |text| >= 2
    ensures SpellsOctets(text, bytes) <==> SpellsOctet(text[0], text[1], bytes[0]) && SpellsOctets(text[2..], bytes[1..])
  {
    var rest, tail := text[2..], bytes[1..];
    forall i | 1 <= i < |bytes| && |text| == 2 * |bytes|
      ensures text[2 * i] == rest[2 * (i - 1)] && text[2 * i + 1] == rest[2 * (i - 1) + 1] && bytes[i] == tail[i - 1]
    {
    }
    if SpellsOctets(text, bytes) {
      forall j | 0 <= j < |tail|
        ensures SpellsOctet(rest[2 * j], rest[2 * j + 1], tail[j])
      {
        assert SpellsOctet(text[2 * (j + 1)], text[2 * (j + 1) + 1], bytes[j + 1]);
      }
    }
    if SpellsOctet(text[0], text[1], bytes[0]) && SpellsOctets(rest, tail) {
      forall i | 0 <= i < |bytes|
        ensures SpellsOctet(text[2 * i], text[2 * i + 1], bytes[i])
      {
        if i > 0 {
          assert SpellsOctet(rest[2 * (i - 1)], rest[2 * (i - 1) + 1], tail[i - 1]);
        }
      }
    }
  }
}
