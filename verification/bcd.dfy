/**
 Packed binary-coded decimal, the encoding of every calendar register of the
 DS1302: the high nibble holds the tens digit and the low nibble the ones digit.
 */
module Bcd {
  import opened Bits

  /** `DecToHex`: pack the two low decimal digits of `dat` into nibbles. */
  function DecToHex(dat: int): (r: int)
    ensures 0 <= dat <= 99 ==> IsBcd(r) && Tens(r) == dat / 10 && Ones(r) == dat % 10
  {
    DivModUnique((dat / 10) * 16 + dat % 10, 16, dat / 10, dat % 10);
    (dat / 10) * 16 + dat % 10
  }

  /** `HexToDec`: read the high nibble as tens and the low nibble as ones. */
  function HexToDec(dat: int): (r: int)
    ensures 0 <= dat < 256 ==> 0 <= r <= 165
    ensures IsBcd(dat) ==> r <= 99 && r / 10 == Tens(dat) && r % 10 == Ones(dat)
  {
    DecodedDigits(dat);
    (dat / 16) * 10 + dat % 16
  }

  lemma DecodedDigits(dat: int)
    ensures IsBcd(dat) ==> ((dat / 16) * 10 + dat % 16) / 10 == Tens(dat)
    ensures IsBcd(dat) ==> ((dat / 16) * 10 + dat % 16) % 10 == Ones(dat)
  {
    if IsBcd(dat) {
      DivModUnique((dat / 16) * 10 + dat % 16, 10, dat / 16, dat % 16);
    }
  }

  function Tens(b: int): int { b / 16 }

  function Ones(b: int): int { b % 16 }

  /** A byte both of whose nibbles are decimal digits. */
  predicate IsBcd(b: int)
  {
    0 <= b < 256 && Tens(b) <= 9 && Ones(b) <= 9
  }

  /** Every valid BCD byte lies below 0xA0, so bit 7 of a BCD byte that is set means a tens digit of 8 or 9. */
  lemma BcdBelowA0(b: int)
    requires IsBcd(b)
    ensures b < 0xA0
  {
  }

  /** Decoding an encoded two-digit number gives it back. */
  lemma DecodeEncode(n: int)
    requires 0 <= n <= 99
    ensures HexToDec(DecToHex(n)) == n
  {
    var b := DecToHex(n);
    assert Tens(b) == n / 10 && Ones(b) == n % 10;
  }

  /** Encoding the decoding of a valid BCD byte gives the byte back. */
  lemma EncodeDecode(b: int)
    requires IsBcd(b)
    ensures 0 <= HexToDec(b) <= 99 && DecToHex(HexToDec(b)) == b
  {
    var n := HexToDec(b);
    assert n / 10 == Tens(b) && n % 10 == Ones(b);
  }

  /** On two-digit numbers the encoding is injective: different numbers give different bytes. */
  lemma EncodeInjective(m: int, n: int)
    requires 0 <= m <= 99 && 0 <= n <= 99
    ensures DecToHex(m) == DecToHex(n) <==> m == n
  {
    if DecToHex(m) == DecToHex(n) {
      DecodeEncode(m);
      DecodeEncode(n);
    }
  }
}
