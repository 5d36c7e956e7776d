/**
 * The lead-byte length function of namespace `accel::utf8::details`:
 * how many bytes a UTF-8 sequence starting with a given byte occupies,
 * as the string type decides it when it steps over its buffer.
 */
module Utf8Details {

  /** One byte of a `std::string`, read as `unsigned char`. */
  type Byte = b: int | 0 <= b < 0x100

  function Pow2(k: nat): (p: nat)
    ensures p >= 1
  {
    if k == 0 then 1 else 2 * Pow2(k - 1)
  }

  /** Bit `k` of `b` (bit 7 is the most significant). */
  predicate BitAt(b: Byte, k: nat)
    requires k < 8
  {
    (b / Pow2(k)) % 2 == 1
  }

  /** The number of consecutive one bits of `b` from bit `k` downwards. */
  function OnesFrom(b: Byte, k: int): (n: nat)
    requires -1 <= k < 8
    ensures n <= k + 1
    decreases k + 1
  {
    if k < 0 || !BitAt(b, k) then 0 else 1 + OnesFrom(b, k - 1)
  }

  /** The number of leading one bits of `b`. */
  function LeadingOnes(b: Byte): (n: nat)
    ensures n <= 8
    ensures n == 0 <==> b < 0x80
  {
    OnesFrom(b, 7)
  }

  /**
   * The clamp `get_utf_codepoint_size` applies to a count of leading ones:
   * none counts as 1 and more than four as 4.
   */
  function ClampSize(ones: nat): (n: nat)
    ensures 1 <= n <= 4
    ensures 1 <= ones <= 4 ==> n == ones
  {
    if ones == 0 then 1 else if ones > 4 then 4 else ones
  }

  /**
   * The sequence length the string type assigns to a lead byte, keyed by
   * the byte's range; `CodepointSizeByPattern` shows it to be the clamped
   * count of leading ones.
   */
  function CodepointSize(b: Byte): (n: nat)
    ensures 1 <= n <= 4
  {
    if b < 0xC0 then 1 else if b < 0xE0 then 2 else if b < 0xF0 then 3 else 4
  }

  /**
   * `first & mask` for a mask that is a single bit or zero, as the loop of
   * `get_utf_codepoint_size` tests it.
   */
  predicate AndMask(first: Byte, mask: nat)
  {
    mask > 0 && (first / mask) % 2 == 1
  }

  /**
   * `details::get_utf_codepoint_size`: shifts a one-bit mask down from
   * 0x80 while it hits a set bit, counting the steps, then clamps.
   */
  method GetCodepointSize(first: Byte) returns (size: nat)
    ensures size == ClampSize(LeadingOnes(first))
    ensures size == CodepointSize(first)
  {
    var mask: nat := 0x80;
    var result: nat := 0;
    assert Pow2(7) == 0x80;
    while AndMask(first, mask)
      invariant result <= 8
      invariant mask == if result < 8 then Pow2(7 - result) else 0
      invariant LeadingOnes(first) == result + OnesFrom(first, 7 - result)
      decreases 8 - result
    {
      result := result + 1;
      mask := mask / 2;
    }
    size := if result == 0 then 1 else if result > 4 then 4 else result;
    CodepointSizeByPattern(first);
  }

  /**
   * The clamped count of leading ones is the size keyed by the lead-byte
   * pattern: 1 below 0xC0 (ASCII and stray continuation bytes), 2 for
   * 0xC0..0xDF, 3 for 0xE0..0xEF and 4 from 0xF0 on, where the bytes from
   * 0xF8 on have five or more leading ones and are clamped.
   */
  lemma CodepointSizeByPattern(b: Byte)
    ensures CodepointSize(b) == ClampSize(LeadingOnes(b))
    ensures LeadingOnes(b) == 0 <==> b < 0x80
    ensures LeadingOnes(b) >= 5 <==> 0xF8 <= b
  {
    assert Pow2(7) == 128 && Pow2(6) == 64 && Pow2(5) == 32 && Pow2(4) == 16 && Pow2(3) == 8;
    assert BitAt(b, 7) <==> b >= 0x80;
    assert b >= 0x80 ==> (BitAt(b, 6) <==> b >= 0xC0);
    assert b >= 0xC0 ==> (BitAt(b, 5) <==> b >= 0xE0);
    assert b >= 0xE0 ==> (BitAt(b, 4) <==> b >= 0xF0);
    assert b >= 0xF0 ==> (BitAt(b, 3) <==> b >= 0xF8);
  }
}
