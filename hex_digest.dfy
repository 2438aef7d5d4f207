/// The digest text handling of dfu_gecko/dfu_gecko_lib.c: `sha_hex_to_bin`
/// turns the ASCII-hex SHA-1 digest read from the `.sha1` file into binary
/// (base16 as in section 8 of RFC 4648, either letter case). Characters that
/// are not hex digits are not rejected: they go through the same unchecked
/// `unsigned char` arithmetic. Plain `char` is taken as unsigned, as on the
/// ARM targets this file is built for.
module HexDigest {
  import opened Bytes

  /** `DFU_SHA1_LEN`: bytes in a SHA-1 digest (FIPS 180-4). */
  const DFU_SHA1_LEN: nat := 20

  type Digest = d: seq<Byte> | |d| == DFU_SHA1_LEN witness Zeros(DFU_SHA1_LEN)

  function Pow2(k: nat): (p: nat)
    ensures p >= 1
  {
    if k == 0 then 1 else 2 * Pow2(k - 1)
  }

  /** Bitwise OR of two naturals, bit by bit from the least significant. */
  function BitOr(a: nat, b: nat): nat
    decreases a + b
  {
    if a == 0 then b
    else if b == 0 then a
    else 2 * BitOr(a / 2, b / 2) + (if a % 2 == 1 || b % 2 == 1 then 1 else 0)
  }

  lemma {:induction false} BitOrBelow(a: nat, b: nat, k: nat)
    requires a < Pow2(k) && b < Pow2(k)
    ensures BitOr(a, b) < Pow2(k)
  {
    if a != 0 && b != 0 {
      BitOrBelow(a / 2, b / 2, k - 1);
    }
  }

  /** OR with a value whose bits lie below bit `k` of the other operand is addition. */
  lemma {:induction false} BitOrDisjoint(h: nat, l: nat, k: nat)
    requires l < Pow2(k)
    ensures BitOr(h * Pow2(k), l) == h * Pow2(k) + l
  {
    var a := h * Pow2(k);
    if a != 0 && l != 0 {
      assert a == 2 * (h * Pow2(k - 1));
      BitOrDisjoint(h, l / 2, k - 1);
    }
  }

  /** C's `|` on two bytes. */
  function Or8(a: Byte, b: Byte): Byte {
    BitOrBelow(a, b, 8);
    BitOr(a, b)
  }

  /**
   * `tempByte` of `sha_hex_to_bin` for one input character: the character
   * minus 'a' plus 10, minus 'A' plus 10, or minus '0', truncated to
   * `unsigned char`, whatever the character is.
   */
  function Nibble(c: Byte): Byte {
    if c >= 97 then (c as int - 97 + 10) % 0x100
    else if c >= 65 then (c as int - 65 + 10) % 0x100
    else (c as int - 48) % 0x100
  }

  /** `(char)(tempByte << 4)`: the value an even position stores. */
  function HighHalf(t: Byte): Byte {
    (t as int * 16) % 0x100
  }

  /** The byte `sha_hex_to_bin` leaves for the character pair (hi, lo). */
  function PairValue(hi: Byte, lo: Byte): Byte {
    Or8(HighHalf(Nibble(hi)), Nibble(lo))
  }

  /**
   * `sha_hex_to_bin(hexIn, out, len)`: character `i` updates `out[i / 2]`,
   * its high half when `i` is even, OR-ed into the low half when odd.
   */
  method ShaHexToBin(hexIn: seq<Byte>, out: array<Byte>, len: nat)
    requires len <= |hexIn| && (len + 1) / 2 <= out.Length
    modifies out
    ensures forall k :: 0 <= k < len / 2 ==> out[k] == PairValue(hexIn[2 * k], hexIn[2 * k + 1])
    ensures len % 2 == 1 ==> out[len / 2] == HighHalf(Nibble(hexIn[len - 1]))
    ensures forall k :: (len + 1) / 2 <= k < out.Length ==> out[k] == old(out[k])
  {
    var i := 0;
    while i < len
      invariant 0 <= i <= len
      invariant forall k :: 0 <= k < i / 2 ==> out[k] == PairValue(hexIn[2 * k], hexIn[2 * k + 1])
      invariant i % 2 == 1 ==> out[i / 2] == HighHalf(Nibble(hexIn[i - 1]))
      invariant forall k :: (i + 1) / 2 <= k < out.Length ==> out[k] == old(out[k])
    {
      var shaAscii := hexIn[i];
      var tempByte: Byte;
      if shaAscii >= 97 {
        tempByte := (shaAscii as int - 97 + 10) % 0x100;
      } else if shaAscii >= 65 {
        tempByte := (shaAscii as int - 65 + 10) % 0x100;
      } else {
        tempByte := (shaAscii as int - 48) % 0x100;
      }
      if i % 2 == 0 {
        out[i / 2] := HighHalf(tempByte);
      } else {
        out[i / 2] := Or8(out[i / 2], tempByte);
      }
      i := i + 1;
    }
  }

  /**
   * What `sha_hex_to_bin` produces from an even number of characters: one
   * byte per pair. Where the second character of a pair yields a nibble
   * below 16 (any hex digit does), the `|` adds it to the first character's
   * nibble shifted into the high half.
   */
  function DecodeHex(hex: seq<Byte>): (d: seq<Byte>)
    requires |hex| % 2 == 0
    ensures |d| == |hex| / 2
    ensures forall k :: 0 <= k < |d| && Nibble(hex[2 * k + 1]) < 16 ==>
      d[k] == 16 * (Nibble(hex[2 * k]) % 16) + Nibble(hex[2 * k + 1])
  {
    PairValuesAdd(hex);
    seq(|hex| / 2, k requires 0 <= k < |hex| / 2 => PairValue(hex[2 * k], hex[2 * k + 1]))
  }

  /** With a low nibble below 16, OR-ing it into the shifted high nibble is addition. */
  lemma PairValueAdds(hi: Byte, lo: Byte)
    requires Nibble(lo) < 16
    ensures PairValue(hi, lo) == 16 * (Nibble(hi) % 16) + Nibble(lo)
  {
    var t: int, h: int := Nibble(hi), Nibble(hi) % 16;
    DivMod256(t * 16, t / 16, h * 16);
    assert HighHalf(t) == h * Pow2(4);
    BitOrDisjoint(h, Nibble(lo), 4);
  }

  /** `PairValueAdds` for every pair of `hex`. */
  lemma PairValuesAdd(hex: seq<Byte>)
    ensures forall k :: 0 <= k < |hex| / 2 && Nibble(hex[2 * k + 1]) < 16 ==>
      PairValue(hex[2 * k], hex[2 * k + 1]) == 16 * (Nibble(hex[2 * k]) % 16) + Nibble(hex[2 * k + 1])
  {
    forall k | 0 <= k < |hex| / 2 && Nibble(hex[2 * k + 1]) < 16 {
      PairValueAdds(hex[2 * k], hex[2 * k + 1]);
    }
  }

  /** The base16 alphabets of RFC 4648 (upper case) and its lower-case twin. */
  const UPPER_ALPHABET: string := "0123456789ABCDEF"
  const LOWER_ALPHABET: string := "0123456789abcdef"

  /** The character that spells the nibble `v`. */
  function HexChar(v: nat, upper: bool): Byte
    requires v < 16
  {
    (if upper then UPPER_ALPHABET else LOWER_ALPHABET)[v] as int
  }

  /** Base16 encoding of a byte string, the inverse the decoder is checked against. */
  function HexEncode(d: seq<Byte>, upper: bool): (hex: seq<Byte>)
    ensures |hex| == 2 * |d|
  {
    if d == [] then []
    else [HexChar(d[0] / 16, upper), HexChar(d[0] % 16, upper)] + HexEncode(d[1..], upper)
  }

  lemma NibbleOfHexChar(v: nat, upper: bool)
    requires v < 16
    ensures Nibble(HexChar(v, upper)) == v
  {
  }

  /**
   * Any two hex digits, in either case, decode to 16 times the value of the
   * first plus the value of the second.
   */
  lemma PairValueOfDigits(vHi: nat, vLo: nat, upperHi: bool, upperLo: bool)
    requires vHi < 16 && vLo < 16
    ensures PairValue(HexChar(vHi, upperHi), HexChar(vLo, upperLo)) == 16 * vHi + vLo
  {
    NibbleOfHexChar(vHi, upperHi);
    NibbleOfHexChar(vLo, upperLo);
    assert HighHalf(vHi) == vHi * Pow2(4);
    BitOrDisjoint(vHi, vLo, 4);
  }

  lemma {:induction false} HexEncodeAt(d: seq<Byte>, upper: bool, k: nat)
    requires k < |d|
    ensures HexEncode(d, upper)[2 * k] == HexChar(d[k] / 16, upper)
    ensures HexEncode(d, upper)[2 * k + 1] == HexChar(d[k] % 16, upper)
  {
    if k > 0 {
      HexEncodeAt(d[1..], upper, k - 1);
    }
  }

  /** Round trip: decoding the base16 text of any byte string gives it back. */
  lemma DecodeHexEncode(d: seq<Byte>, upper: bool)
    ensures DecodeHex(HexEncode(d, upper)) == d
  {
    var hex := HexEncode(d, upper);
    forall k | 0 <= k < |d|
      ensures DecodeHex(hex)[k] == d[k]
    {
      HexEncodeAt(d, upper, k);
      var hi, lo := d[k] / 16, d[k] % 16;
      PairValueOfDigits(hi, lo, upper, upper);
      assert DecodeHex(hex)[k] == PairValue(hex[2 * k], hex[2 * k + 1]) == 16 * hi + lo;
    }
  }

  /** Letter case makes no difference: 'a'..'f' and 'A'..'F' give the same nibble. */
  lemma CaseInsensitive(c: Byte)
    requires 'a' as int <= c <= 'f' as int
    ensures Nibble(c) == Nibble(c - 32) == c - 'a' as int + 10
  {
  }

  /**
   * Bad hex is not rejected: "0g" decodes to the same byte as "10", and a
   * space turns into the nibble 0xF0 through the unsigned wrap-around.
   */
  lemma NonHexAccepted()
    ensures PairValue('0' as int, 'g' as int) == PairValue('1' as int, '0' as int) == 0x10
    ensures Nibble(' ' as int) == 0xF0
  {
    BitOrDisjoint(0, 16, 5);
    BitOrDisjoint(1, 0, 4);
  }
}
