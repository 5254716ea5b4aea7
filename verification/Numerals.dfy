/** Decimal numerals, as numbers are printed into keys and archives. */
module Numerals {
  import opened ByteStrings

  function Decimal(n: nat): (text: Bytes)
    ensures text != []
  {
    (if n < 10 then [] else Decimal(n / 10)) + [48 + n % 10]
  }

  predicate IsDigit(b: Byte) {
    48 <= b <= 57
  }

  /** The number a numeral stands for; None if the text is none. */
  function ReadDecimal(text: Bytes): Option<nat> {
    if text == [] then None else ReadDigits(text)
  }

  function ReadDigits(text: Bytes): Option<nat> {
    if text == [] then Some(0)
    else
      var last := text[|text| - 1];
      match ReadDigits(text[..|text| - 1])
      case None => None
      case Some(n) => if IsDigit(last) then Some(10 * n + (last - 48)) else None
  }

  /** It is all digits and begins with a zero only if it is zero. */
  lemma {:induction false} DecimalDigits(n: nat)
    ensures forall i :: 0 <= i < |Decimal(n)| ==> IsDigit(Decimal(n)[i])
    ensures n > 0 ==> Decimal(n)[0] != 48
  {
    if n >= 10 { DecimalDigits(n / 10); }
  }

  lemma OneMoreDigit(text: Bytes, d: nat)
    requires d < 10 && ReadDigits(text).Some?
    ensures ReadDigits(text + [48 + d]) == Some(10 * ReadDigits(text).value + d)
  {
    assert (text + [48 + d])[..|text|] == text;
  }

  /** A printed number is read back as itself. */
  lemma {:induction false} DecimalReads(n: nat)
    ensures ReadDecimal(Decimal(n)) == Some(n)
  {
    if n < 10 {
      assert ReadDigits([]) == Some(0);
      OneMoreDigit([], n);
      assert [] + [48 + n] == Decimal(n);
    } else {
      DecimalReads(n / 10);
      hide ReadDigits;
      OneMoreDigit(Decimal(n / 10), n % 10);
    }
  }

  lemma DecimalInjective(a: nat, b: nat)
    requires Decimal(a) == Decimal(b)
    ensures a == b
  {
    DecimalReads(a);
    DecimalReads(b);
  }
}
