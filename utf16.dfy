/**
 * `string::to_wstring`: decoding each UTF-8 sequence by its lead-byte
 * pattern and emitting UTF-16 code units, one per codepoint up to 0xFFFF
 * and a surrogate pair (section 2.1 of RFC 2781) above it.
 */
module Utf16Bridge {
  import opened Results
  import opened Utf8Details
  import opened Utf8Text

  /** A 16-bit code unit of the produced wide string. */
  type Unit = u: int | 0 <= u < 0x1_0000

  /**
   * The two `std::invalid_argument` failures: "Invalid UTF-8 sequence" for a
   * bad lead or continuation byte, "Invalid UTF-8 codepoint" above 0x10FFFF.
   */
  datatype Error = InvalidSequence | InvalidCodepoint

  /** What a lead byte announces: the sequence length and its payload bits. */
  datatype Lead = Lead(bytesRead: nat, payload: nat)

  /**
   * The four lead patterns, tested in the source's order. A test
   * `(b & m) == p` that keeps the top `k` bits is `b / 2^(8-k) == p / 2^(8-k)`,
   * and `b & (2^j - 1)` is `b % 2^j`.
   */
  function LeadOf(b: Byte): (l: Option<Lead>)
    ensures l.None? <==> (0x80 <= b < 0xC0 || 0xF8 <= b)
    ensures l.Some? ==> 1 <= l.value.bytesRead <= 4
  {
    if b / 0x80 == 0x0 then Some(Lead(1, b))
    else if b / 0x20 == 0x6 then Some(Lead(2, b % 0x20))
    else if b / 0x10 == 0xE then Some(Lead(3, b % 0x10))
    else if b / 0x08 == 0x1E then Some(Lead(4, b % 0x08))
    else None
  }

  /** `(b & 0b11000000) == 0b10000000`. */
  predicate IsContinuation(b: Byte)
    ensures IsContinuation(b) <==> 0x80 <= b < 0xC0
  {
    b / 0x40 == 0x2
  }

  /**
   * The inner loop over `j`: each continuation byte must be `10xxxxxx` and
   * adds six bits. Past the end the byte read is the terminating NUL, which
   * fails the test, so a truncated sequence is an invalid one.
   */
  function Continue(s: seq<Byte>, bytesRead: nat, j: nat, codepoint: nat): (r: Result<nat, Error>)
    requires 1 <= j <= bytesRead
    ensures r.Success? && j < bytesRead ==> bytesRead <= |s|
    ensures r.Failure? ==> r.error == InvalidSequence
    decreases bytesRead - j
  {
    if j == bytesRead then Success(codepoint)
    else
      var c := if j < |s| then s[j] else 0;
      if !IsContinuation(c) then Failure(InvalidSequence)
      else Continue(s, bytesRead, j + 1, codepoint * 0x40 + c % 0x40)
  }

  /** Decodes the sequence at the start of `s`: its codepoint and its byte count. */
  function DecodeFirst(s: seq<Byte>): (r: Result<(nat, nat), Error>)
    requires |s| > 0
    ensures r.Success? ==> 1 <= r.value.1 <= |s|
  {
    match LeadOf(s[0])
    case None => Failure(InvalidSequence)
    case Some(lead) =>
      match Continue(s, lead.bytesRead, 1, lead.payload)
      case Failure(e) => Failure(e)
      case Success(cp) => Success((cp, lead.bytesRead))
  }

  /** The UTF-16 form of a codepoint of at most 0x10FFFF. */
  function Utf16Units(cp: int): (w: seq<Unit>)
    requires 0 <= cp <= 0x10FFFF
    ensures |w| == (if cp <= 0xFFFF then 1 else 2)
    ensures cp <= 0xFFFF ==> w[0] == cp
    ensures cp > 0xFFFF ==> 0xD800 <= w[0] < 0xDC00 && 0xDC00 <= w[1] < 0xE000
  {
    if cp <= 0xFFFF then [cp]
    else
      var c := cp - 0x10000;
      [c / 0x400 + 0xD800, c % 0x400 + 0xDC00]
  }

  /** Prefixes the units already produced to the outcome of the rest. */
  function Prepend(w: seq<Unit>, r: Result<seq<Unit>, Error>): Result<seq<Unit>, Error>
  {
    match r
    case Success(rest) => Success(w + rest)
    case Failure(e) => Failure(e)
  }

  /** Prefixing nothing changes nothing. */
  lemma PrependEmpty(r: Result<seq<Unit>, Error>)
    ensures Prepend([], r) == r
  {
    if r.Success? {
      assert [] + r.value == r.value;
    }
  }

  /** Prefixing twice is prefixing the concatenation. */
  lemma PrependPrepend(w: seq<Unit>, u: seq<Unit>, r: Result<seq<Unit>, Error>)
    ensures Prepend(w, Prepend(u, r)) == Prepend(w + u, r)
  {
    if r.Success? {
      assert w + (u + r.value) == (w + u) + r.value;
    }
  }

  /** The outcome of `a` followed by that of `b`; the first failure wins. */
  function Then(a: Result<seq<Unit>, Error>, b: Result<seq<Unit>, Error>): Result<seq<Unit>, Error>
  {
    match a
    case Success(w) => Prepend(w, b)
    case Failure(e) => Failure(e)
  }

  /** The result of `to_wstring` on the bytes `s`, exceptions as failures. */
  function ToUtf16(s: seq<Byte>): (r: Result<seq<Unit>, Error>)
    ensures r.Success? ==> |r.value| <= 2 * |s|
    ensures r.Success? ==> (|r.value| == 0 <==> |s| == 0)
    decreases |s|
  {
    if |s| == 0 then Success([])
    else
      match DecodeFirst(s)
      case Failure(e) => Failure(e)
      case Success((cp, n)) =>
        if cp > 0x10FFFF then Failure(InvalidCodepoint)
        else Prepend(Utf16Units(cp), ToUtf16(s[n..]))
  }

  /** One step of the continuation loop read off the definition. */
  lemma ContinueNext(s: seq<Byte>, bytesRead: nat, j: nat, codepoint: nat, c: Byte)
    requires 1 <= j < bytesRead && c == (if j < |s| then s[j] else 0)
    ensures Continue(s, bytesRead, j, codepoint)
            == if IsContinuation(c) then Continue(s, bytesRead, j + 1, codepoint * 0x40 + c % 0x40)
               else Failure(InvalidSequence)
  {
  }

  /** One step of the outer loop of to_wstring read off the definition. */
  lemma ToUtf16Head(s: seq<Byte>)
    requires |s| > 0
    ensures DecodeFirst(s).Failure? ==> ToUtf16(s) == Failure(DecodeFirst(s).error)
    ensures DecodeFirst(s).Success? && DecodeFirst(s).value.0 > 0x10FFFF ==> ToUtf16(s) == Failure(InvalidCodepoint)
    ensures DecodeFirst(s).Success? && DecodeFirst(s).value.0 <= 0x10FFFF ==>
              ToUtf16(s) == Prepend(Utf16Units(DecodeFirst(s).value.0), ToUtf16(s[DecodeFirst(s).value.1..]))
  {
  }

  /**
   * One iteration of the conversion loop at offset `i` of `s`, with the
   * units `wide` produced so far: the decoding `d` of the sequence at `i`
   * either decides the outcome (a failure) or moves the units of that
   * sequence from the rest to the units produced.
   */
  lemma ToUtf16Resume(s: seq<Byte>, i: nat, wide: seq<Unit>, d: Result<(nat, nat), Error>)
    requires i < |s| && d == DecodeFirst(s[i..])
    ensures d.Failure? ==> Prepend(wide, ToUtf16(s[i..])) == Failure(d.error)
    ensures d.Success? && d.value.0 > 0x10FFFF ==> Prepend(wide, ToUtf16(s[i..])) == Failure(InvalidCodepoint)
    ensures d.Success? && d.value.0 <= 0x10FFFF ==>
              Prepend(wide, ToUtf16(s[i..])) == Prepend(wide + Utf16Units(d.value.0), ToUtf16(s[i + d.value.1..]))
  {
    ToUtf16Head(s[i..]);
    if d.Success? && d.value.0 <= 0x10FFFF {
      assert s[i..][d.value.1..] == s[i + d.value.1..];
      PrependPrepend(wide, Utf16Units(d.value.0), ToUtf16(s[i + d.value.1..]));
    }
  }

  // ---------------------------------------------------------------------

  /**
   * Exactly the bytes matching none of the four patterns are rejected, and
   * for the others `bytes_read` is the length `get_utf_codepoint_size` gives.
   */
  lemma LeadPatterns(b: Byte)
    ensures LeadOf(b).None? <==> (0x80 <= b < 0xC0 || 0xF8 <= b)
    ensures LeadOf(b).Some? ==> LeadOf(b).value.bytesRead == CodepointSize(b)
    ensures LeadOf(b).Some? ==>
              LeadOf(b).value.payload
              < (if LeadOf(b).value.bytesRead == 1 then 0x80 else Pow2(7 - LeadOf(b).value.bytesRead))
  {
    CodepointSizeByPattern(b);
    assert Pow2(5) == 32 && Pow2(4) == 16 && Pow2(3) == 8;
  }

  /** A surrogate pair splits `cp - 0x10000` into its high and low ten bits. */
  lemma SurrogatePair(cp: int)
    requires 0x10000 <= cp <= 0x10FFFF
    ensures var w := Utf16Units(cp);
            |w| == 2 && 0xD800 <= w[0] < 0xDC00 && 0xDC00 <= w[1] < 0xE000
            && (w[0] as int - 0xD800) * 0x400 + (w[1] as int - 0xDC00) + 0x10000 == cp
  {
  }

  /** The two units of a supplementary codepoint, from the halves of its offset above 0x10000. */
  lemma PairUnits(cp: int, high: int, low: int)
    requires 0x10000 <= cp <= 0x10FFFF
    requires high == (cp - 0x10000) / 0x400 && low == (cp - 0x10000) % 0x400
    ensures 0 <= high < 0x400 && 0 <= low < 0x400
    ensures Utf16Units(cp) == [high + 0xD800, low + 0xDC00]
  {
  }

  /** At a sequence boundary, to_wstring consumes what get_utf_codepoint_size steps over. */
  lemma DecodeFirstSize(s: seq<Byte>)
    requires |s| > 0 && DecodeFirst(s).Success?
    ensures DecodeFirst(s).value.1 == CodepointSize(s[0]) == Next(s, 0)
    ensures forall k :: 1 <= k < DecodeFirst(s).value.1 ==> IsContinuation(s[k])
  {
    LeadPatterns(s[0]);
    var lead := LeadOf(s[0]).value;
    ContinuationBytes(s, lead.bytesRead, 1, lead.payload);
  }

  lemma {:induction false} ContinuationBytes(s: seq<Byte>, bytesRead: nat, j: nat, codepoint: nat)
    requires 1 <= j <= bytesRead && Continue(s, bytesRead, j, codepoint).Success?
    ensures forall k :: j <= k < bytesRead ==> k < |s| && IsContinuation(s[k])
    decreases bytesRead - j
  {
    if j < bytesRead {
      var c := if j < |s| then s[j] else 0;
      ContinuationBytes(s, bytesRead, j + 1, codepoint * 0x40 + c % 0x40);
    }
  }

  /**
   * When to_wstring succeeds the buffer is aligned: it consumed every byte,
   * and it produced one or two units per codepoint that length() counts.
   */
  lemma {:induction false} ToUtf16Success(s: seq<Byte>)
    requires ToUtf16(s).Success?
    ensures Aligned(s)
    ensures CodepointCount(s) <= |ToUtf16(s).value| <= 2 * CodepointCount(s)
    decreases |s|
  {
    if |s| > 0 {
      var n := DecodeFirst(s).value.1;
      DecodeFirstSize(s);
      ToUtf16Success(s[n..]);
      Suffix(s, n);
    }
  }

  lemma {:induction false} ContinueStable(a: seq<Byte>, b: seq<Byte>, bytesRead: nat, j: nat, codepoint: nat)
    requires 1 <= j <= bytesRead <= |a|
    ensures Continue(a + b, bytesRead, j, codepoint) == Continue(a, bytesRead, j, codepoint)
    decreases bytesRead - j
  {
    if j < bytesRead {
      assert (a + b)[j] == a[j];
      ContinueStable(a, b, bytesRead, j + 1, codepoint * 0x40 + a[j] % 0x40);
    }
  }

  /**
   * to_wstring of a concatenation whose left operand is aligned is the
   * left operand's units followed by the right operand's, and a failure in
   * the left operand is the failure of the whole.
   */
  lemma {:induction false} ToUtf16Concat(a: seq<Byte>, b: seq<Byte>)
    requires Aligned(a)
    ensures ToUtf16(a + b) == Then(ToUtf16(a), ToUtf16(b))
    decreases |a|
  {
    if |a| == 0 {
      assert a + b == b;
      match ToUtf16(b)
      case Success(w) => assert [] + w == w;
      case Failure(_) =>
    } else {
      AlignedRest(a);
      DecodeFirstStable(a, b);
      ToUtf16Head(a);
      ToUtf16Head(a + b);
      match DecodeFirst(a)
      case Failure(_) =>
      case Success((cp, n)) =>
        if cp <= 0x10FFFF {
          DecodeFirstSize(a);
          ToUtf16Concat(a[n..], b);
          DropConcat(a, b, n);
          PrependThen(Utf16Units(cp), ToUtf16(a[n..]), ToUtf16(b), ToUtf16(a), ToUtf16(a + b));
        }
    }
  }

  /** Dropping a prefix of the left operand of a concatenation. */
  lemma DropConcat(a: seq<Byte>, b: seq<Byte>, n: nat)
    requires n <= |a|
    ensures (a + b)[n..] == a[n..] + b
  {
  }

  /** A whole sequence at the start decodes the same whatever follows it. */
  lemma DecodeFirstStable(a: seq<Byte>, b: seq<Byte>)
    requires 0 < |a| && CodepointSize(a[0]) <= |a|
    ensures DecodeFirst(a + b) == DecodeFirst(a)
  {
    assert (a + b)[0] == a[0];
    LeadPatterns(a[0]);
    if LeadOf(a[0]).Some? {
      var lead := LeadOf(a[0]).value;
      ContinueStable(a, b, lead.bytesRead, 1, lead.payload);
    }
  }

  /**
   * Prefixing units to the first of two outcomes prefixes them to the
   * pair: if `ra` is `x` with `u` in front and `rab` is `x` then `y` with
   * `u` in front, `rab` is `ra` then `y`.
   */
  lemma PrependThen(u: seq<Unit>, x: Result<seq<Unit>, Error>, y: Result<seq<Unit>, Error>,
                    ra: Result<seq<Unit>, Error>, rab: Result<seq<Unit>, Error>)
    requires ra == Prepend(u, x) && rab == Prepend(u, Then(x, y))
    ensures rab == Then(ra, y)
  {
    if x.Success? && y.Success? {
      assert (u + x.value) + y.value == u + (x.value + y.value);
    }
  }

  /** Bytes below 0x80 convert one to one. */
  lemma {:induction false} AsciiToUtf16(s: seq<Byte>)
    requires forall k :: 0 <= k < |s| ==> s[k] < 0x80
    ensures ToUtf16(s).Success?
    ensures |ToUtf16(s).value| == |s|
    ensures forall k :: 0 <= k < |s| ==> ToUtf16(s).value[k] == s[k]
    decreases |s|
  {
    if |s| > 0 {
      AsciiToUtf16(s[1..]);
    }
  }

  /** A lead byte of no known pattern is rejected as an invalid sequence. */
  lemma BadLeadFails(s: seq<Byte>)
    requires |s| > 0 && (0x80 <= s[0] < 0xC0 || 0xF8 <= s[0])
    ensures ToUtf16(s) == Failure(InvalidSequence)
  {
    LeadPatterns(s[0]);
  }

  lemma {:induction false} ContinueFailsAt(s: seq<Byte>, bytesRead: nat, i: nat, j: nat, codepoint: nat)
    requires 1 <= i <= j < bytesRead && j <= |s|
    requires forall k :: i <= k < j ==> IsContinuation(s[k])
    requires j == |s| || !IsContinuation(s[j])
    ensures Continue(s, bytesRead, i, codepoint) == Failure(InvalidSequence)
    decreases j - i
  {
    if i < j {
      ContinueFailsAt(s, bytesRead, i + 1, j, codepoint * 0x40 + s[i] % 0x40);
    } else {
      assert !IsContinuation(0);
    }
  }

  /**
   * After a multi-byte lead, the first position that is not a continuation
   * byte (or is the end of the buffer) before the announced length makes the
   * conversion fail as an invalid sequence.
   */
  lemma BadContinuationFails(s: seq<Byte>, j: nat)
    requires |s| > 0 && LeadOf(s[0]).Some?
    requires 1 <= j < LeadOf(s[0]).value.bytesRead && j <= |s|
    requires forall k :: 1 <= k < j ==> IsContinuation(s[k])
    requires j == |s| || !IsContinuation(s[j])
    ensures ToUtf16(s) == Failure(InvalidSequence)
  {
    var lead := LeadOf(s[0]).value;
    ContinueFailsAt(s, lead.bytesRead, 1, j, lead.payload);
  }

  /**
   * A four-byte sequence well formed in its bits but whose top bits
   * `(lead & 0x07) << 6 | (second & 0x3F)` exceed 0x10F decodes above
   * 0x10FFFF and is rejected as an invalid codepoint.
   */
  lemma OutOfRangeFails(s: seq<Byte>)
    requires |s| >= 4 && s[0] / 0x08 == 0x1E
    requires IsContinuation(s[1]) && IsContinuation(s[2]) && IsContinuation(s[3])
    requires (s[0] as int % 0x08) * 0x40 + s[1] as int % 0x40 >= 0x110
    ensures ToUtf16(s) == Failure(InvalidCodepoint)
  {
    var top := (s[0] as int % 0x08) * 0x40 + s[1] as int % 0x40;
    var cp := (top * 0x40 + s[2] % 0x40) * 0x40 + s[3] % 0x40;
    assert Continue(s, 4, 1, s[0] % 0x08) == Success(cp);
    assert cp >= 0x110 * 0x1000;
  }

  /** Overlong forms are not rejected: `C0 80` converts to the unit 0. */
  lemma OverlongAccepted()
    ensures ToUtf16([0xC0, 0x80]) == Success([0])
  {
    var s: seq<Byte> := [0xC0, 0x80];
    assert DecodeFirst(s) == Success((0, 2));
    assert s[2..] == [];
    var none: seq<Unit> := [];
    assert ToUtf16(s) == Prepend(Utf16Units(0), ToUtf16([])) == Success([0] + none);
    assert [0] + none == [0];
  }

  /** Encoded surrogates are not rejected: `ED A0 80` converts to the unit 0xD800. */
  lemma SurrogateAccepted()
    ensures ToUtf16([0xED, 0xA0, 0x80]) == Success([0xD800])
  {
    var s: seq<Byte> := [0xED, 0xA0, 0x80];
    assert DecodeFirst(s) == Success((0xD800, 3));
    assert s[3..] == [];
    var none: seq<Unit> := [];
    assert ToUtf16(s) == Prepend(Utf16Units(0xD800), ToUtf16([])) == Success([0xD800] + none);
    assert [0xD800] + none == [0xD800];
  }
}
