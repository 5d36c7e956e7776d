/**
 * Reference definitions the string's behaviour is measured against: the
 * canonical UTF-8 encoding of a codepoint sequence (section 3.9 of the
 * Unicode Standard) and the UTF-16 decoding of section 2.2 of RFC 2781.
 * A buffer of the form `Encode(cps)` is what the string type treats as
 * well-formed text.
 */
module Utf8Reference {
  import opened Results
  import opened Utf8Details
  import opened Utf8Text
  import opened Utf16Bridge

  type Codepoint = c: int | 0 <= c <= 0x10FFFF

  /** The shortest UTF-8 form of one codepoint. */
  function EncodeScalar(cp: Codepoint): (e: seq<Byte>)
  {
    if cp < 0x80 then [cp]
    else if cp < 0x800 then [0xC0 + cp / 0x40, 0x80 + cp % 0x40]
    else if cp < 0x10000 then [0xE0 + cp / 0x1000, 0x80 + (cp / 0x40) % 0x40, 0x80 + cp % 0x40]
    else [0xF0 + cp / 0x40000, 0x80 + (cp / 0x1000) % 0x40, 0x80 + (cp / 0x40) % 0x40, 0x80 + cp % 0x40]
  }

  function Encode(cps: seq<Codepoint>): seq<Byte>
  {
    if cps == [] then [] else EncodeScalar(cps[0]) + Encode(cps[1..])
  }

  /** The UTF-16 form of a codepoint sequence. */
  function Utf16Encode(cps: seq<Codepoint>): seq<Unit>
  {
    if cps == [] then [] else Utf16Units(cps[0]) + Utf16Encode(cps[1..])
  }

  predicate IsSurrogate(cp: int)
  {
    0xD800 <= cp < 0xE000
  }

  /**
   * Decoding of UTF-16 (section 2.2 of RFC 2781): a high surrogate followed by
   * a low one is one codepoint; any other unit stands for itself.
   */
  function Utf16Decode(w: seq<Unit>): seq<int>
    decreases |w|
  {
    if w == [] then []
    else if |w| >= 2 && 0xD800 <= w[0] < 0xDC00 && 0xDC00 <= w[1] < 0xE000 then
      [(w[0] as int - 0xD800) * 0x400 + (w[1] as int - 0xDC00) + 0x10000] + Utf16Decode(w[2..])
    else [w[0] as int] + Utf16Decode(w[1..])
  }

  // ---------------------------------------------------------------------
  // One codepoint

  /**
   * The lead byte of an encoded codepoint announces, by the string's own
   * length function, exactly the bytes of the encoding; the rest are
   * continuation bytes; one byte exactly below 0x80.
   */
  lemma EncodeScalarShape(cp: Codepoint)
    ensures var e := EncodeScalar(cp);
            1 <= |e| <= 4 && CodepointSize(e[0]) == |e|
            && (forall k :: 1 <= k < |e| ==> IsContinuation(e[k]))
            && (|e| == 1 <==> cp < 0x80)
            && (e[0] < 0x80 <==> cp < 0x80)
  {
  }

  /** to_wstring decodes the sequence of a canonical encoding to its codepoint. */
  lemma DecodeEncodeScalar(cp: Codepoint, rest: seq<Byte>)
    ensures var e := EncodeScalar(cp);
            DecodeFirst(e + rest) == Success((cp as nat, |e|))
  {
    if cp < 0x80 {
    } else if cp < 0x800 {
      DecodeTwo(cp, rest);
    } else if cp < 0x10000 {
      DecodeThree(cp, rest);
    } else {
      DecodeFour(cp, rest);
    }
  }

  lemma DecodeTwo(cp: Codepoint, rest: seq<Byte>)
    requires 0x80 <= cp < 0x800
    ensures DecodeFirst(EncodeScalar(cp) + rest) == Success((cp as nat, 2))
  {
    var s := EncodeScalar(cp) + rest;
    var q, r := cp / 0x40, cp % 0x40;
    assert cp == q * 0x40 + r;
    assert s[0] == 0xC0 + q && s[1] == 0x80 + r;
    assert s[0] / 0x20 == 0x6 && s[0] % 0x20 == q;
    assert Continue(s, 2, 2, q * 0x40 + r) == Success(cp as nat);
  }

  lemma DecodeThree(cp: Codepoint, rest: seq<Byte>)
    requires 0x800 <= cp < 0x10000
    ensures DecodeFirst(EncodeScalar(cp) + rest) == Success((cp as nat, 3))
  {
    var s := EncodeScalar(cp) + rest;
    var q1, r1 := cp / 0x40, cp % 0x40;
    var q2, r2 := q1 / 0x40, q1 % 0x40;
    assert q2 == cp / 0x1000 && cp == (q2 * 0x40 + r2) * 0x40 + r1;
    assert s[0] == 0xE0 + q2 && s[1] == 0x80 + r2 && s[2] == 0x80 + r1;
    assert LeadOf(s[0]) == Some(Lead(3, q2));
    ContinueDigits(s, 3, 1, q2, r2);
    ContinueDigits(s, 3, 2, q2 * 0x40 + r2, r1);
  }

  lemma DecodeFour(cp: Codepoint, rest: seq<Byte>)
    requires 0x10000 <= cp
    ensures DecodeFirst(EncodeScalar(cp) + rest) == Success((cp as nat, 4))
  {
    var s := EncodeScalar(cp) + rest;
    var q3, r3, r2, r1 := FourDigits(cp);
    assert s[0] == 0xF0 + q3 && s[1] == 0x80 + r3 && s[2] == 0x80 + r2 && s[3] == 0x80 + r1;
    assert LeadOf(s[0]) == Some(Lead(4, q3));
    ContinueDigits(s, 4, 1, q3, r3);
    ContinueDigits(s, 4, 2, q3 * 0x40 + r3, r2);
    ContinueDigits(s, 4, 3, (q3 * 0x40 + r3) * 0x40 + r2, r1);
  }

  /** The lead and continuation digits of a four-byte encoding. */
  lemma FourDigits(cp: Codepoint) returns (q3: nat, r3: nat, r2: nat, r1: nat)
    requires 0x10000 <= cp
    ensures q3 == cp / 0x40000 && r3 == (cp / 0x1000) % 0x40 && r2 == (cp / 0x40) % 0x40 && r1 == cp % 0x40
    ensures r3 < 0x40 && r2 < 0x40 && r1 < 0x40
    ensures cp == ((q3 * 0x40 + r3) * 0x40 + r2) * 0x40 + r1
  {
    var q1 := cp / 0x40;
    var q2 := q1 / 0x40;
    q3, r3, r2, r1 := q2 / 0x40, q2 % 0x40, q1 % 0x40, cp % 0x40;
    assert cp == q1 * 0x40 + r1;
    assert q1 == q2 * 0x40 + r2;
    assert q2 == q3 * 0x40 + r3;
    assert q2 == cp / 0x1000;
    assert q3 == cp / 0x40000;
  }

  /** A continuation byte carrying `digit` extends the codepoint by six bits. */
  lemma ContinueDigits(s: seq<Byte>, bytesRead: nat, j: nat, codepoint: nat, digit: nat)
    requires 1 <= j < bytesRead && j < |s| && digit < 0x40 && s[j] == 0x80 + digit
    ensures Continue(s, bytesRead, j, codepoint) == Continue(s, bytesRead, j + 1, codepoint * 0x40 + digit)
  {
    assert IsContinuation(s[j]) && s[j] % 0x40 == digit;
  }

  // ---------------------------------------------------------------------
  // Sequences of codepoints

  lemma {:induction false} EncodeAppend(a: seq<Codepoint>, b: seq<Codepoint>)
    ensures Encode(a + b) == Encode(a) + Encode(b)
    decreases |a|
  {
    if a == [] {
      assert a + b == b;
    } else {
      assert (a + b)[1..] == a[1..] + b;
      EncodeAppend(a[1..], b);
    }
  }

  /** Well-formed text is aligned and `length()` is its number of codepoints. */
  lemma {:induction false} EncodeCount(cps: seq<Codepoint>)
    ensures Aligned(Encode(cps))
    ensures CodepointCount(Encode(cps)) == |cps|
    decreases |cps|
  {
    if cps != [] {
      var e := EncodeScalar(cps[0]);
      EncodeScalarShape(cps[0]);
      assert Next(e, 0) == |e|;
      assert CountFrom(e, |e|) == 0;
      EncodeCount(cps[1..]);
      ConcatCount(e, Encode(cps[1..]));
    }
  }

  /** `index_to_offset(i)` on well-formed text is the size of the encoding of the first `i` codepoints. */
  lemma {:induction false} EncodeOffset(cps: seq<Codepoint>, i: nat)
    requires i <= |cps|
    ensures CodepointCount(Encode(cps)) == |cps|
    ensures OffsetOf(Encode(cps), i) == |Encode(cps[..i])|
    decreases i
  {
    EncodeCount(cps);
    if i > 0 {
      var e := EncodeScalar(cps[0]);
      var rest := Encode(cps[1..]);
      EncodeScalarShape(cps[0]);
      assert Next(e, 0) == |e|;
      EncodeCount(cps[1..]);
      EncodeOffset(cps[1..], i - 1);
      ConcatOffset(e, rest, i - 1);
      assert CodepointCount(e) == 1;
      assert cps[..i] == [cps[0]] + cps[1..][..i - 1];
      EncodeAppend([cps[0]], cps[1..][..i - 1]);
      assert Encode([cps[0]]) == e + [];
    }
  }

  lemma SplitAt(cps: seq<Codepoint>, i: nat)
    requires i < |cps|
    ensures cps == cps[..i] + [cps[i]] + cps[i + 1..]
  {
  }

  /** The encoding of a sequence with one codepoint singled out. */
  lemma EncodeSplit(head: seq<Codepoint>, c: Codepoint, rest: seq<Codepoint>)
    ensures Encode(head + [c] + rest) == Encode(head) + EncodeScalar(c) + Encode(rest)
  {
    var tail := [c] + rest;
    assert tail[0] == c && tail[1..] == rest;
    assert head + [c] + rest == head + tail;
    EncodeAppend(head, tail);
  }

  /** Well-formed text splits around codepoint `i`. */
  lemma EncodeAround(cps: seq<Codepoint>, i: nat)
    requires i < |cps|
    ensures Encode(cps) == Encode(cps[..i]) + EncodeScalar(cps[i]) + Encode(cps[i + 1..])
  {
    SplitAt(cps, i);
    EncodeSplit(cps[..i], cps[i], cps[i + 1..]);
  }

  /** `operator[](i)` on well-formed text is the encoding of codepoint `i`. */
  lemma EncodeCharAt(cps: seq<Codepoint>, i: nat)
    requires i < |cps|
    ensures CodepointCount(Encode(cps)) == |cps|
    ensures CharAt(Encode(cps), i) == EncodeScalar(cps[i])
  {
    EncodeCount(cps);
    EncodeOffset(cps, i);
    EncodeAround(cps, i);
    var s, p, e := Encode(cps), Encode(cps[..i]), EncodeScalar(cps[i]);
    EncodeScalarShape(cps[i]);
    var o := |p|;
    assert OffsetOf(s, i) == o;
    MiddleSlice(p, e, Encode(cps[i + 1..]));
    SequenceAtWhole(s, o, e);
  }

  /** A whole sequence at `o`, its length the one its lead byte announces, is what is read there. */
  lemma SequenceAtWhole(s: seq<Byte>, o: nat, e: seq<Byte>)
    requires 1 <= |e| && o + |e| <= |s| && s[o .. o + |e|] == e
    requires CodepointSize(e[0]) == |e|
    ensures SequenceAt(s, o) == e
  {
    assert ByteAt(s, o) == e[0];
  }

  /** The middle part of a three-part byte sequence. */
  lemma MiddleSlice(a: seq<Byte>, m: seq<Byte>, b: seq<Byte>)
    ensures (a + m + b)[|a| .. |a| + |m|] == m
  {
  }

  /** `substr(start, length)` on well-formed text is the encoding of those codepoints. */
  lemma EncodeSubstring(cps: seq<Codepoint>, start: SizeT, length: SizeT)
    requires |Encode(cps)| < SIZE_T_MOD && start + length < |cps|
    ensures CodepointCount(Encode(cps)) == |cps|
    ensures SubstrAllowed(Encode(cps), start, length)
    ensures Substring(Encode(cps), start, length) == Encode(cps[start .. start + length])
  {
    var s := Encode(cps);
    EncodeCount(cps);
    SubstringExplicit(s, start, length);
    var pre, mid, post := cps[..start], cps[start .. start + length], cps[start + length..];
    assert cps[..start + length] == pre + mid;
    assert cps == pre + mid + post;
    EncodeAppend(pre, mid);
    EncodeAppend(pre + mid, post);
    EncodeOffset(cps, start);
    EncodeOffset(cps, start + length);
    var a, m, b := Encode(pre), Encode(mid), Encode(post);
    assert s == a + m + b;
    MiddleSlice(a, m, b);
  }

  /** Byte equality of well-formed texts is equality of their codepoints. */
  lemma {:induction false} EncodeInjective(a: seq<Codepoint>, b: seq<Codepoint>)
    ensures Encode(a) == Encode(b) <==> a == b
    decreases |a|
  {
    if Encode(a) == Encode(b) && a != [] && b != [] {
      var ea, eb := EncodeScalar(a[0]), EncodeScalar(b[0]);
      DecodeEncodeScalar(a[0], Encode(a[1..]));
      DecodeEncodeScalar(b[0], Encode(b[1..]));
      assert a[0] == b[0];
      assert Encode(a)[|ea|..] == Encode(a[1..]);
      assert Encode(b)[|eb|..] == Encode(b[1..]);
      EncodeInjective(a[1..], b[1..]);
      assert a == [a[0]] + a[1..];
      assert b == [b[0]] + b[1..];
    } else if a == [] && b != [] {
      EncodeScalarShape(b[0]);
    } else if a != [] && b == [] {
      EncodeScalarShape(a[0]);
    }
  }

  /**
   * On well-formed text, `length() == data_size()` exactly when every
   * codepoint is below 0x80, which is exactly when every byte is.
   */
  lemma {:induction false} EncodeAsciiIff(cps: seq<Codepoint>)
    ensures var s := Encode(cps);
            (CodepointCount(s) == |s| <==> forall i :: 0 <= i < |cps| ==> cps[i] < 0x80)
            && ((forall k :: 0 <= k < |s| ==> s[k] < 0x80) <==> forall i :: 0 <= i < |cps| ==> cps[i] < 0x80)
    decreases |cps|
  {
    EncodeCount(cps);
    if cps != [] {
      var s, e, rest := Encode(cps), EncodeScalar(cps[0]), Encode(cps[1..]);
      EncodeScalarShape(cps[0]);
      EncodeAsciiIff(cps[1..]);
      EncodeCount(cps[1..]);
      CountBounds(rest);
      assert s == e + rest;
      assert s[0] == e[0];
      if forall k :: 0 <= k < |rest| ==> rest[k] < 0x80 {
        if e[0] < 0x80 {
          forall k | 0 <= k < |s| ensures s[k] < 0x80 {
            if k > 0 { assert s[k] == rest[k - 1]; }
          }
        }
      } else {
        var k :| 0 <= k < |rest| && rest[k] >= 0x80;
        assert s[|e| + k] == rest[k];
      }
      if forall i :: 0 <= i < |cps| ==> cps[i] < 0x80 {
      } else {
        var i :| 0 <= i < |cps| && cps[i] >= 0x80;
        if i > 0 {
          assert cps[1..][i - 1] == cps[i];
        }
      }
    }
  }

  // ---------------------------------------------------------------------
  // to_wstring on well-formed text

  /** to_wstring succeeds on every well-formed text and yields its UTF-16 form. */
  lemma {:induction false} ToUtf16OfEncode(cps: seq<Codepoint>)
    ensures ToUtf16(Encode(cps)) == Success(Utf16Encode(cps))
    decreases |cps|
  {
    if cps != [] {
      var e, rest := EncodeScalar(cps[0]), Encode(cps[1..]);
      DecodeEncodeScalar(cps[0], rest);
      assert (e + rest)[|e|..] == rest;
      ToUtf16OfEncode(cps[1..]);
    }
  }

  /**
   * The conversion loses nothing for text without encoded surrogates: the
   * units decode back to the codepoints.
   */
  lemma {:induction false} Utf16RoundTrip(cps: seq<Codepoint>)
    requires forall i :: 0 <= i < |cps| ==> !IsSurrogate(cps[i])
    ensures Utf16Decode(Utf16Encode(cps)) == cps
    decreases |cps|
  {
    if cps != [] {
      var u, rest := Utf16Units(cps[0]), Utf16Encode(cps[1..]);
      var w := u + rest;
      Utf16RoundTrip(cps[1..]);
      if cps[0] <= 0xFFFF {
        assert w[0] == cps[0] && w[1..] == rest;
      } else {
        SurrogatePair(cps[0]);
        assert w[0] == u[0] && w[1] == u[1] && w[2..] == rest;
      }
      assert cps == [cps[0]] + cps[1..];
    }
  }

  /** Well-formed text converts to UTF-16 and decodes back to the same codepoints. */
  lemma WellFormedRoundTrip(cps: seq<Codepoint>)
    requires forall i :: 0 <= i < |cps| ==> !IsSurrogate(cps[i])
    ensures ToUtf16(Encode(cps)).Success?
    ensures Utf16Decode(ToUtf16(Encode(cps)).value) == cps
  {
    ToUtf16OfEncode(cps);
    Utf16RoundTrip(cps);
  }
}
