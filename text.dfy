/**
 * The byte buffer of `accel::utf8::string` as a value: how the string
 * steps from one sequence boundary to the next with the lead-byte length,
 * and what length(), index_to_offset, operator[], substr and operator+
 * compute from that stepping.
 */
module Utf8Text {
  import opened Utf8Details

  function Min(a: int, b: int): int
  {
    if a < b then a else b
  }

  /** The byte at `k`, or the NUL that `std::string` keeps at `size()`. */
  function ByteAt(s: seq<Byte>, k: nat): (b: Byte)
    requires k <= |s|
    ensures k < |s| ==> b == s[k]
    ensures k == |s| ==> b == 0
  {
    if k < |s| then s[k] else 0
  }

  /** The boundary one sequence after `off`; it may lie past the end. */
  function Next(s: seq<Byte>, off: nat): (r: nat)
    requires off < |s|
    ensures off < r <= off + 4
  {
    off + CodepointSize(s[off])
  }

  /** How many steps it takes from `off` until the offset is at or past the end. */
  function CountFrom(s: seq<Byte>, off: nat): (n: nat)
    ensures n == 0 <==> off >= |s|
    ensures off <= |s| ==> n <= |s| - off
    decreases |s| - off
  {
    if off >= |s| then 0 else 1 + CountFrom(s, Next(s, off))
  }

  /** The value `string::length()` computes. */
  function CodepointCount(s: seq<Byte>): (n: nat)
    ensures n <= |s|
    ensures n == 0 <==> |s| == 0
  {
    CountFrom(s, 0)
  }

  /** The offset reached from `off` after exactly `k` steps. */
  function OffsetFrom(s: seq<Byte>, off: nat, k: nat): (r: nat)
    requires k <= CountFrom(s, off)
    ensures off + k <= r
    decreases k
  {
    if k == 0 then off else OffsetFrom(s, Next(s, off), k - 1)
  }

  /** The byte offset of codepoint `index`, counted from the start. */
  function OffsetOf(s: seq<Byte>, index: nat): (r: nat)
    requires index <= CodepointCount(s)
    ensures index <= r
    ensures index < CodepointCount(s) ==> r < |s|
  {
    OffsetFromBounds(s, 0, index);
    OffsetFrom(s, 0, index)
  }

  /** Stepping from `off` lands exactly on the end: no sequence is cut short. */
  predicate AlignedFrom(s: seq<Byte>, off: nat)
    decreases |s| - off
  {
    if off >= |s| then off == |s| else AlignedFrom(s, Next(s, off))
  }

  /** The whole buffer steps exactly onto its end. */
  predicate Aligned(s: seq<Byte>)
  {
    AlignedFrom(s, 0)
  }

  /**
   * `m_str.substr(off, get_utf_codepoint_size(m_str[off]))`: the sequence
   * that starts at `off`, clipped to the buffer as `std::string::substr`
   * clips it.
   */
  function SequenceAt(s: seq<Byte>, off: nat): (r: seq<Byte>)
    requires off <= |s|
    ensures off + |r| <= |s| && r == s[off .. off + |r|]
    ensures |r| <= CodepointSize(ByteAt(s, off))
    ensures off < |s| ==> 1 <= |r|
    ensures off == |s| ==> r == []
  {
    s[off .. Min(off + CodepointSize(ByteAt(s, off)), |s|)]
  }

  /**
   * Where `string_iterator::advance` moves from `pos`: one lead-byte length
   * on, a step of one at `size()`, where the byte read is the NUL.
   */
  function Step(s: seq<Byte>, pos: nat): (r: nat)
    requires pos <= |s|
    ensures pos < r <= pos + 4
    ensures pos == |s| ==> r == pos + 1
  {
    pos + CodepointSize(ByteAt(s, pos))
  }

  /** The bytes `operator[](index)` copies into its new string. */
  function CharAt(s: seq<Byte>, index: nat): (r: seq<Byte>)
    requires index < CodepointCount(s)
    ensures 1 <= |r| <= 4
    ensures OffsetOf(s, index) + |r| <= |s| && r == s[OffsetOf(s, index) .. OffsetOf(s, index) + |r|]
  {
    OffsetFromBounds(s, 0, index);
    SequenceAt(s, OffsetOf(s, index))
  }

  /** `std::size_t` arithmetic wraps modulo 2^64. */
  const SIZE_T_MOD: int := 0x1_0000_0000_0000_0000

  /** `std::string::npos`, the default `length` of `substr`. */
  const NPOS: int := SIZE_T_MOD - 1

  type SizeT = n: int | 0 <= n < 0x1_0000_0000_0000_0000

  /** Unsigned addition modulo 2^64. */
  function SizeAdd(a: SizeT, b: SizeT): SizeT
  {
    if a + b < SIZE_T_MOD then a + b else a + b - SIZE_T_MOD
  }

  /** Unsigned subtraction modulo 2^64. */
  function SizeSub(a: SizeT, b: SizeT): SizeT
  {
    if b <= a then a - b else a - b + SIZE_T_MOD
  }

  /** The two `ACC_ASSERT`s of `substr`, with the sum taken in `std::size_t`. */
  predicate SubstrAllowed(s: seq<Byte>, start: SizeT, length: SizeT)
    ensures SubstrAllowed(s, start, length) ==>
              start < CodepointCount(s)
              && (start + length < CodepointCount(s) || SIZE_T_MOD <= start + length)
    ensures SubstrAllowed(s, start, length) && SIZE_T_MOD <= start + length ==>
              start + length - SIZE_T_MOD < start
  {
    start < CodepointCount(s) && SizeAdd(start, length) < CodepointCount(s)
  }

  /**
   * The bytes `substr(start, length)` copies: from the offset of `start`,
   * `end_offset - start_offset` bytes (in `std::size_t`), clipped to the
   * buffer by `std::string::substr`.
   */
  function Substring(s: seq<Byte>, start: SizeT, length: SizeT): (r: seq<Byte>)
    requires |s| < SIZE_T_MOD
    requires SubstrAllowed(s, start, length)
    ensures OffsetOf(s, start) + |r| <= |s|
    ensures r == s[OffsetOf(s, start) .. OffsetOf(s, start) + |r|]
  {
    var endIndex := SizeAdd(start, length);
    OffsetFromBounds(s, 0, start);
    OffsetFromBounds(s, 0, endIndex);
    var startOffset := OffsetOf(s, start);
    var endOffset := OffsetOf(s, endIndex);
    s[startOffset .. startOffset + Min(SizeSub(endOffset, startOffset), |s| - startOffset)]
  }

  // ---------------------------------------------------------------------
  // Stepping

  /** Every step is in range before the count is used up, and each moves forward. */
  lemma {:induction false} OffsetFromBounds(s: seq<Byte>, off: nat, k: nat)
    requires k <= CountFrom(s, off)
    ensures off + k <= OffsetFrom(s, off, k)
    ensures k < CountFrom(s, off) ==> OffsetFrom(s, off, k) < |s|
    ensures CountFrom(s, OffsetFrom(s, off, k)) == CountFrom(s, off) - k
    decreases k
  {
    if k > 0 {
      OffsetFromBounds(s, Next(s, off), k - 1);
    }
  }

  /** Taking `i` steps and then `j` more is taking `i + j` steps. */
  lemma {:induction false} OffsetFromAdd(s: seq<Byte>, off: nat, i: nat, j: nat)
    requires i + j <= CountFrom(s, off)
    ensures CountFrom(s, OffsetFrom(s, off, i)) == CountFrom(s, off) - i
    ensures OffsetFrom(s, off, i + j) == OffsetFrom(s, OffsetFrom(s, off, i), j)
    decreases i
  {
    OffsetFromBounds(s, off, i);
    if i > 0 {
      OffsetFromAdd(s, Next(s, off), i - 1, j);
    }
  }

  /** Offsets grow strictly with the number of steps. */
  lemma {:induction false} OffsetFromMonotone(s: seq<Byte>, off: nat, i: nat, j: nat)
    requires i < j <= CountFrom(s, off)
    ensures OffsetFrom(s, off, i) < OffsetFrom(s, off, j)
    decreases i
  {
    if i == 0 {
      OffsetFromBounds(s, off, j);
    } else {
      OffsetFromMonotone(s, Next(s, off), i - 1, j - 1);
    }
  }

  /**
   * `index_to_offset(i)` for `i < length()`: a boundary inside the buffer,
   * one step past the previous one, and strictly increasing in `i`.
   */
  lemma OffsetOfProperties(s: seq<Byte>, i: nat)
    requires i < CodepointCount(s)
    ensures i <= OffsetOf(s, i) < |s|
    ensures OffsetOf(s, i + 1) == OffsetOf(s, i) + CodepointSize(s[OffsetOf(s, i)])
    ensures forall j :: i < j <= CodepointCount(s) ==> OffsetOf(s, i) < OffsetOf(s, j)
  {
    OffsetFromBounds(s, 0, i);
    OffsetFromAdd(s, 0, i, 1);
    forall j | i < j <= CodepointCount(s)
      ensures OffsetOf(s, i) < OffsetOf(s, j)
    {
      OffsetFromMonotone(s, 0, i, j);
    }
  }

  /** `length()` is at most the byte size, and each codepoint is at most four bytes. */
  lemma {:induction false} CountFromBounds(s: seq<Byte>, off: nat)
    requires off <= |s|
    ensures CountFrom(s, off) <= |s| - off <= 4 * CountFrom(s, off)
    decreases |s| - off
  {
    if off < |s| && Next(s, off) <= |s| {
      CountFromBounds(s, Next(s, off));
    }
  }

  lemma CountBounds(s: seq<Byte>)
    ensures CodepointCount(s) <= |s| <= 4 * CodepointCount(s)
    ensures CodepointCount(s) == 0 <==> |s| == 0
  {
    CountFromBounds(s, 0);
  }

  lemma {:induction false} AsciiCountFrom(s: seq<Byte>, off: nat)
    requires off <= |s|
    requires forall k :: off <= k < |s| ==> s[k] < 0x80
    ensures CountFrom(s, off) == |s| - off && AlignedFrom(s, off)
    decreases |s| - off
  {
    if off < |s| {
      AsciiCountFrom(s, off + 1);
    }
  }

  /** On a buffer of bytes below 0x80 every byte is one codepoint. */
  lemma AsciiCount(s: seq<Byte>)
    requires forall k :: 0 <= k < |s| ==> s[k] < 0x80
    ensures CodepointCount(s) == |s| && Aligned(s)
  {
    AsciiCountFrom(s, 0);
  }

  /**
   * Stepping `k` times from `off` is the end iterator exactly when the
   * buffer is aligned from `off`; otherwise the last step overshoots it.
   */
  lemma {:induction false} EndAfterCountFrom(s: seq<Byte>, off: nat)
    ensures OffsetFrom(s, off, CountFrom(s, off)) >= |s|
    ensures OffsetFrom(s, off, CountFrom(s, off)) == |s| <==> AlignedFrom(s, off)
    decreases |s| - off
  {
    if off < |s| {
      EndAfterCountFrom(s, Next(s, off));
    }
  }

  lemma EndAfterCount(s: seq<Byte>)
    ensures OffsetOf(s, CodepointCount(s)) >= |s|
    ensures OffsetOf(s, CodepointCount(s)) == |s| <==> Aligned(s)
  {
    EndAfterCountFrom(s, 0);
  }

  /** Alignment holds at every boundary reached from an aligned one. */
  lemma {:induction false} AlignedAlong(s: seq<Byte>, off: nat, k: nat)
    requires k <= CountFrom(s, off) && AlignedFrom(s, off)
    ensures AlignedFrom(s, OffsetFrom(s, off, k))
    decreases k
  {
    if k > 0 {
      AlignedAlong(s, Next(s, off), k - 1);
    }
  }

  // ---------------------------------------------------------------------
  // Moving the stepping across a concatenation

  lemma {:induction false} CountFromShift(p: seq<Byte>, t: seq<Byte>, y: nat)
    ensures CountFrom(p + t, |p| + y) == CountFrom(t, y)
    ensures AlignedFrom(p + t, |p| + y) <==> AlignedFrom(t, y)
    decreases |t| - y
  {
    if y < |t| {
      assert (p + t)[|p| + y] == t[y];
      CountFromShift(p, t, Next(t, y));
    }
  }

  lemma {:induction false} OffsetFromShift(p: seq<Byte>, t: seq<Byte>, y: nat, k: nat)
    requires k <= CountFrom(t, y)
    ensures CountFrom(p + t, |p| + y) == CountFrom(t, y)
    ensures OffsetFrom(p + t, |p| + y, k) == |p| + OffsetFrom(t, y, k)
    decreases k
  {
    CountFromShift(p, t, y);
    if k > 0 {
      assert (p + t)[|p| + y] == t[y];
      OffsetFromShift(p, t, Next(t, y), k - 1);
    }
  }

  /** Stepping from boundary `n` of `s` is stepping through the suffix `s[n..]`. */
  lemma Suffix(s: seq<Byte>, n: nat)
    requires n <= |s|
    ensures CountFrom(s, n) == CodepointCount(s[n..])
    ensures AlignedFrom(s, n) <==> Aligned(s[n..])
  {
    assert s == s[..n] + s[n..];
    CountFromShift(s[..n], s[n..], 0);
  }

  /** What follows the first sequence of aligned bytes is aligned. */
  lemma AlignedRest(s: seq<Byte>)
    requires Aligned(s) && 0 < |s|
    ensures Next(s, 0) <= |s| && Aligned(s[Next(s, 0)..])
  {
    assert AlignedFrom(s, Next(s, 0));
    Suffix(s, Next(s, 0));
  }

  lemma {:induction false} ConcatCountFrom(a: seq<Byte>, b: seq<Byte>, x: nat)
    requires AlignedFrom(a, x)
    ensures CountFrom(a + b, x) == CountFrom(a, x) + CodepointCount(b)
    ensures AlignedFrom(a + b, x) <==> Aligned(b)
    decreases |a| - x
  {
    if x >= |a| {
      CountFromShift(a, b, 0);
    } else {
      assert (a + b)[x] == a[x];
      ConcatCountFrom(a, b, Next(a, x));
    }
  }

  /**
   * `operator+`: when the left operand is aligned, the codepoints of the
   * result are those of the left operand followed by those of the right.
   */
  lemma ConcatCount(a: seq<Byte>, b: seq<Byte>)
    requires Aligned(a)
    ensures |a + b| == |a| + |b|
    ensures CodepointCount(a + b) == CodepointCount(a) + CodepointCount(b)
    ensures Aligned(a + b) <==> Aligned(b)
  {
    ConcatCountFrom(a, b, 0);
  }

  /** Without alignment of the left operand the counts need not add. */
  lemma ConcatCountNeedsAlignment()
    ensures !Aligned([0xE3])
    ensures CodepointCount([0xE3]) + CodepointCount([0x81, 0x93]) == 3
    ensures CodepointCount([0xE3] + [0x81, 0x93]) == 1
  {
    var joined: seq<Byte> := [0xE3] + [0x81, 0x93];
    assert joined == [0xE3, 0x81, 0x93];
    assert Next(joined, 0) == 3;
    assert CountFrom(joined, 3) == 0;
  }

  lemma {:induction false} ConcatOffsetFrom(a: seq<Byte>, b: seq<Byte>, x: nat, k: nat)
    requires AlignedFrom(a, x) && k <= CodepointCount(b)
    ensures CountFrom(a + b, x) == CountFrom(a, x) + CodepointCount(b)
    ensures OffsetFrom(a + b, x, CountFrom(a, x) + k) == |a| + OffsetFrom(b, 0, k)
    decreases |a| - x
  {
    ConcatCountFrom(a, b, x);
    if x >= |a| {
      OffsetFromShift(a, b, 0, k);
    } else {
      assert (a + b)[x] == a[x];
      ConcatOffsetFrom(a, b, Next(a, x), k);
    }
  }

  /** Codepoint `i` of `b` sits `|a|` bytes further in `a + b`, `CodepointCount(a)` indices later. */
  lemma ConcatOffset(a: seq<Byte>, b: seq<Byte>, k: nat)
    requires Aligned(a) && k <= CodepointCount(b)
    ensures CodepointCount(a + b) == CodepointCount(a) + CodepointCount(b)
    ensures OffsetOf(a + b, CodepointCount(a) + k) == |a| + OffsetOf(b, k)
  {
    ConcatCount(a, b);
    ConcatOffsetFrom(a, b, 0, k);
  }

  // ---------------------------------------------------------------------
  // Slices

  /** A slice that ends on a boundary `k` steps after `x` holds exactly `k` codepoints. */
  lemma {:induction false} CountInSlice(s: seq<Byte>, a: nat, x: nat, k: nat)
    requires a <= x && k <= CountFrom(s, x)
    requires OffsetFrom(s, x, k) <= |s|
    ensures x + k <= OffsetFrom(s, x, k)
    ensures CountFrom(s[a..OffsetFrom(s, x, k)], x - a) == k
    decreases k
  {
    OffsetFromBounds(s, x, k);
    if k > 0 {
      var nx := Next(s, x);
      OffsetFromBounds(s, nx, k - 1);
      var slice := s[a..OffsetFrom(s, x, k)];
      assert slice[x - a] == s[x];
      CountInSlice(s, a, nx, k - 1);
    }
  }

  /**
   * `operator[](index)`: the copied bytes start at `index_to_offset(index)`,
   * are at most the lead byte's length, form exactly one codepoint, and are
   * the whole sequence when the buffer is aligned.
   */
  lemma CharAtProperties(s: seq<Byte>, index: nat)
    requires index < CodepointCount(s)
    ensures OffsetOf(s, index) < |s|
    ensures var r, o := CharAt(s, index), OffsetOf(s, index);
            1 <= |r| <= CodepointSize(s[o]) && r == s[o .. o + |r|]
            && CodepointCount(r) == 1
            && (Aligned(s) ==> |r| == CodepointSize(s[o]) && Aligned(r))
  {
    OffsetFromBounds(s, 0, index);
    var o := OffsetOf(s, index);
    var r := CharAt(s, index);
    var n := CodepointSize(s[o]);
    assert r == s[o .. Min(o + n, |s|)];
    assert r[0] == s[o];
    assert Next(r, 0) == n >= |r|;
    assert CountFrom(r, n) == 0;
    if Aligned(s) {
      AlignedAlong(s, 0, index);
      assert AlignedFrom(s, Next(s, o));
    }
  }

  /**
   * An iterator at the offset of codepoint `k` dereferences to what
   * `operator[](k)` returns and advances to the offset of codepoint `k + 1`;
   * so from `begin()` it visits the codepoints in order.
   */
  lemma IteratorAtCodepoint(s: seq<Byte>, k: nat)
    requires k < CodepointCount(s)
    ensures OffsetOf(s, k) < |s|
    ensures SequenceAt(s, OffsetOf(s, k)) == CharAt(s, k)
    ensures Step(s, OffsetOf(s, k)) == OffsetOf(s, k + 1)
  {
    OffsetFromBounds(s, 0, k);
    OffsetFromAdd(s, 0, k, 1);
  }

  /**
   * `substr(start, length)` with a sum that does not wrap: the bytes between
   * the two translated offsets, holding exactly `length` codepoints; the end
   * offset is at most that of the last codepoint, so the last codepoint is
   * never part of the result.
   */
  lemma SubstringExplicit(s: seq<Byte>, start: SizeT, length: SizeT)
    requires |s| < SIZE_T_MOD && start + length < CodepointCount(s)
    ensures SubstrAllowed(s, start, length)
    ensures OffsetOf(s, start) <= OffsetOf(s, start + length) < |s|
    ensures var r := Substring(s, start, length);
            r == s[OffsetOf(s, start) .. OffsetOf(s, start + length)]
            && CodepointCount(r) == length
            && OffsetOf(s, start) + |r| <= OffsetOf(s, CodepointCount(s) - 1)
  {
    SubstringSlice(s, start, length);
    SliceCount(s, start, length);
    var count := CodepointCount(s);
    OffsetFromBounds(s, 0, count - 1);
    if start + length < count - 1 {
      OffsetFromMonotone(s, 0, start + length, count - 1);
    }
  }

  lemma SubstringSlice(s: seq<Byte>, start: SizeT, length: SizeT)
    requires |s| < SIZE_T_MOD && start + length < CodepointCount(s)
    ensures SubstrAllowed(s, start, length)
    ensures OffsetOf(s, start) <= OffsetOf(s, start + length) < |s|
    ensures Substring(s, start, length) == s[OffsetOf(s, start) .. OffsetOf(s, start + length)]
  {
    CountBounds(s);
    assert SizeAdd(start, length) == start + length;
    OffsetFromBounds(s, 0, start);
    OffsetFromBounds(s, 0, start + length);
    if length > 0 {
      OffsetFromMonotone(s, 0, start, start + length);
    }
    var so, eo := OffsetOf(s, start), OffsetOf(s, start + length);
    assert SizeSub(eo, so) == eo - so;
  }

  /** The slice between the offsets of `start` and `start + length` holds `length` codepoints. */
  lemma SliceCount(s: seq<Byte>, start: nat, length: nat)
    requires start + length < CodepointCount(s)
    ensures OffsetOf(s, start) <= OffsetOf(s, start + length) < |s|
    ensures CodepointCount(s[OffsetOf(s, start) .. OffsetOf(s, start + length)]) == length
  {
    OffsetFromBounds(s, 0, start);
    OffsetFromBounds(s, 0, start + length);
    var so := OffsetOf(s, start);
    OffsetFromAdd(s, 0, start, length);
    assert OffsetFrom(s, so, length) == OffsetOf(s, start + length);
    OffsetFromBounds(s, so, length);
    CountInSlice(s, so, so, length);
  }

  /**
   * `substr()` with both defaults is always rejected: `0 + npos` is `npos`,
   * which the codepoint count of a buffer held in memory never exceeds.
   */
  lemma SubstrDefaultsRejected(s: seq<Byte>)
    requires |s| < SIZE_T_MOD
    ensures !SubstrAllowed(s, 0, NPOS)
  {
    CountBounds(s);
  }

  /**
   * `substr(start)` with the default `npos`: `start + npos` wraps to
   * `start - 1`, so both assertions hold for `1 <= start < length()`; the
   * byte count `end_offset - start_offset` then wraps to a value at least
   * the rest of the buffer, and the result is everything from `start` on.
   */
  lemma SubstringToEnd(s: seq<Byte>, start: SizeT)
    requires |s| < SIZE_T_MOD && 1 <= start < CodepointCount(s)
    ensures SubstrAllowed(s, start, NPOS)
    ensures OffsetOf(s, start) < |s|
    ensures Substring(s, start, NPOS) == s[OffsetOf(s, start)..]
    ensures CodepointCount(Substring(s, start, NPOS)) == CodepointCount(s) - start
  {
    CountBounds(s);
    OffsetFromBounds(s, 0, start);
    OffsetFromBounds(s, 0, start - 1);
    OffsetFromMonotone(s, 0, start - 1, start);
    var so, eo := OffsetOf(s, start), OffsetOf(s, start - 1);
    assert Substring(s, start, NPOS) == s[so..];
    Suffix(s, so);
  }
}
