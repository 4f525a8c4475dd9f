/** Numbers as hexadecimal text of a fixed width, lower case. */
module HexText {

  function HexDigits(v: nat, n: nat): string {
    if n == 0 then "" else HexDigits(v / 16, n - 1) + [Digit(v % 16)]
  }

  function Digit(d: nat): char
    requires d < 16
  {
    "0123456789abcdef"[d]
  }

  /** The value of a hexadecimal digit. */
  function DigitValue(ch: char): int {
    if '0' <= ch <= '9' then ch as int - '0' as int else ch as int - 'a' as int + 10
  }

  /** The number that a hexadecimal text stands for. */
  function HexValue(s: string): int {
    if |s| == 0 then 0 else 16 * HexValue(s[..|s| - 1]) + DigitValue(s[|s| - 1])
  }

  function Pow16(n: nat): nat {
    if n == 0 then 1 else 16 * Pow16(n - 1)
  }

  /** A number that fits is read back from its n digits, so the text determines it. */
  lemma {:induction false} HexRoundTrip(v: nat, n: nat)
    requires v < Pow16(n)
    ensures |HexDigits(v, n)| == n && HexValue(HexDigits(v, n)) == v
    ensures forall i :: 0 <= i < n ==> HexDigits(v, n)[i] in "0123456789abcdef"
  {
    if n > 0 {
      var s, init := HexDigits(v, n), HexDigits(v / 16, n - 1);
      assert s == init + [Digit(v % 16)];
      hide HexDigits, Digit, DigitValue;
      HexRoundTrip(v / 16, n - 1);
      DigitRoundTrip(v % 16);
      assert s[..n - 1] == init;
    }
  }

  lemma DigitRoundTrip(d: nat)
    requires d < 16
    ensures DigitValue(Digit(d)) == d && Digit(d) in "0123456789abcdef"
  {
  }

  lemma Pow16Word()
    ensures Pow16(8) == 0x1_0000_0000
  {
  }
}
