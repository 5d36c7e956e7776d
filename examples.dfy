/**
 * The expected values of the repository's test program for the operations
 * the header defines, stated as lemmas about the model. The test text
 * `u8"こんにちは　世界！😂"` is the UTF-8 form of the ten codepoints that
 * `IsGreeting` lists.
 */
module Utf8Examples {
  import opened Results
  import opened Utf8Details
  import opened Utf8Text
  import opened Utf16Bridge
  import opened Utf8Reference

  /** The codepoints of `こんにちは　世界！😂`. */
  predicate IsGreeting(cps: seq<Codepoint>)
  {
    |cps| == 10
    && cps[0] == 0x3053 && cps[1] == 0x3093 && cps[2] == 0x306B && cps[3] == 0x3061
    && cps[4] == 0x306F && cps[5] == 0x3000 && cps[6] == 0x4E16 && cps[7] == 0x754C
    && cps[8] == 0xFF01 && cps[9] == 0x1F602
  }

  /** Codepoints from 0x800 to 0xFFFF take three bytes each. */
  lemma {:induction false} EncodeThreeByte(cps: seq<Codepoint>)
    requires forall i :: 0 <= i < |cps| ==> 0x800 <= cps[i] < 0x10000
    ensures |Encode(cps)| == 3 * |cps|
    decreases |cps|
  {
    if cps != [] {
      EncodeThreeByte(cps[1..]);
    }
  }

  /** `length()` is 10 and `data_size()` is 31. */
  lemma GreetingLength(cps: seq<Codepoint>)
    requires IsGreeting(cps)
    ensures CodepointCount(Encode(cps)) == 10 && |Encode(cps)| == 31
  {
    EncodeCount(cps);
    EncodeAround(cps, 9);
    EncodeThreeByte(cps[..9]);
    assert |EncodeScalar(cps[9])| == 4;
    assert cps[10..] == [];
  }

  /** Codepoint `i` of the text, as `operator[](i)` copies it. */
  lemma GreetingChar(cps: seq<Codepoint>, i: nat, e: seq<Byte>)
    requires IsGreeting(cps) && i < 10 && EncodeScalar(cps[i]) == e
    ensures CodepointCount(Encode(cps)) == 10
    ensures CharAt(Encode(cps), i) == e
  {
    EncodeCharAt(cps, i);
  }

  /** `test[0]` is `"こ"`, `test[5]` the ideographic space and `test[9]` is `"😂"`. */
  lemma GreetingIndex(cps: seq<Codepoint>)
    requires IsGreeting(cps)
    ensures CodepointCount(Encode(cps)) == 10
    ensures CharAt(Encode(cps), 0) == [0xE3, 0x81, 0x93]
    ensures CharAt(Encode(cps), 1) == [0xE3, 0x82, 0x93]
    ensures CharAt(Encode(cps), 2) == [0xE3, 0x81, 0xAB]
    ensures CharAt(Encode(cps), 3) == [0xE3, 0x81, 0xA1]
    ensures CharAt(Encode(cps), 4) == [0xE3, 0x81, 0xAF]
    ensures CharAt(Encode(cps), 5) == [0xE3, 0x80, 0x80]
    ensures CharAt(Encode(cps), 6) == [0xE4, 0xB8, 0x96]
    ensures CharAt(Encode(cps), 7) == [0xE7, 0x95, 0x8C]
    ensures CharAt(Encode(cps), 8) == [0xEF, 0xBC, 0x81]
    ensures CharAt(Encode(cps), 9) == [0xF0, 0x9F, 0x98, 0x82]
  {
    assert EncodeScalar(0x3053) == [0xE3, 0x81, 0x93];
    assert EncodeScalar(0x3093) == [0xE3, 0x82, 0x93];
    assert EncodeScalar(0x306B) == [0xE3, 0x81, 0xAB];
    assert EncodeScalar(0x3061) == [0xE3, 0x81, 0xA1];
    assert EncodeScalar(0x306F) == [0xE3, 0x81, 0xAF];
    assert EncodeScalar(0x3000) == [0xE3, 0x80, 0x80];
    assert EncodeScalar(0x4E16) == [0xE4, 0xB8, 0x96];
    assert EncodeScalar(0x754C) == [0xE7, 0x95, 0x8C];
    assert EncodeScalar(0xFF01) == [0xEF, 0xBC, 0x81];
    assert EncodeScalar(0x1F602) == [0xF0, 0x9F, 0x98, 0x82];
    GreetingChar(cps, 0, [0xE3, 0x81, 0x93]);
    GreetingChar(cps, 1, [0xE3, 0x82, 0x93]);
    GreetingChar(cps, 2, [0xE3, 0x81, 0xAB]);
    GreetingChar(cps, 3, [0xE3, 0x81, 0xA1]);
    GreetingChar(cps, 4, [0xE3, 0x81, 0xAF]);
    GreetingChar(cps, 5, [0xE3, 0x80, 0x80]);
    GreetingChar(cps, 6, [0xE4, 0xB8, 0x96]);
    GreetingChar(cps, 7, [0xE7, 0x95, 0x8C]);
    GreetingChar(cps, 8, [0xEF, 0xBC, 0x81]);
    GreetingChar(cps, 9, [0xF0, 0x9F, 0x98, 0x82]);
  }

  /** Codepoints `start` to `start + length` of the text, as `substr` copies them. */
  lemma GreetingSlice(cps: seq<Codepoint>, start: nat, length: nat, e: seq<Byte>)
    requires IsGreeting(cps) && start + length < 10 && Encode(cps[start .. start + length]) == e
    ensures |Encode(cps)| == 31 && SubstrAllowed(Encode(cps), start, length)
    ensures Substring(Encode(cps), start, length) == e
  {
    GreetingLength(cps);
    EncodeSubstring(cps, start, length);
  }

  /** `substr(2, 2)` is `"にち"`. */
  lemma GreetingSubstrMiddle(cps: seq<Codepoint>)
    requires IsGreeting(cps)
    ensures |Encode(cps)| == 31 && SubstrAllowed(Encode(cps), 2, 2)
    ensures Substring(Encode(cps), 2, 2) == [0xE3, 0x81, 0xAB, 0xE3, 0x81, 0xA1]
  {
    assert cps[2 .. 4] == [0x306B, 0x3061];
    assert Encode([0x306B, 0x3061]) == [0xE3, 0x81, 0xAB, 0xE3, 0x81, 0xA1];
    GreetingSlice(cps, 2, 2, [0xE3, 0x81, 0xAB, 0xE3, 0x81, 0xA1]);
  }

  /** `substr(4, 3)` is `"は　世"`, across the ideographic space. */
  lemma GreetingSubstrSpace(cps: seq<Codepoint>)
    requires IsGreeting(cps)
    ensures |Encode(cps)| == 31 && SubstrAllowed(Encode(cps), 4, 3)
    ensures Substring(Encode(cps), 4, 3) == [0xE3, 0x81, 0xAF, 0xE3, 0x80, 0x80, 0xE4, 0xB8, 0x96]
  {
    assert cps[4 .. 7] == [0x306F, 0x3000, 0x4E16];
    assert Encode([0x306F, 0x3000, 0x4E16]) == [0xE3, 0x81, 0xAF, 0xE3, 0x80, 0x80, 0xE4, 0xB8, 0x96];
    GreetingSlice(cps, 4, 3, [0xE3, 0x81, 0xAF, 0xE3, 0x80, 0x80, 0xE4, 0xB8, 0x96]);
  }

  /** `substr(8, 1)` is `"！"`. */
  lemma GreetingSubstrOne(cps: seq<Codepoint>)
    requires IsGreeting(cps)
    ensures |Encode(cps)| == 31 && SubstrAllowed(Encode(cps), 8, 1)
    ensures Substring(Encode(cps), 8, 1) == [0xEF, 0xBC, 0x81]
  {
    assert cps[8 .. 9] == [0xFF01];
    assert Encode([0xFF01]) == [0xEF, 0xBC, 0x81];
    GreetingSlice(cps, 8, 1, [0xEF, 0xBC, 0x81]);
  }

  /**
   * `substr(8)` with the default `npos` is `"！😂"`, the rest of the
   * buffer from the offset of codepoint 8.
   */
  lemma GreetingSubstrToEnd(cps: seq<Codepoint>)
    requires IsGreeting(cps)
    ensures |Encode(cps)| == 31 && SubstrAllowed(Encode(cps), 8, NPOS)
    ensures Substring(Encode(cps), 8, NPOS) == [0xEF, 0xBC, 0x81, 0xF0, 0x9F, 0x98, 0x82]
  {
    GreetingLength(cps);
    var s := Encode(cps);
    SubstringToEnd(s, 8);
    EncodeOffset(cps, 8);
    assert cps == cps[..8] + cps[8..];
    EncodeAppend(cps[..8], cps[8..]);
    assert cps[8..] == [0xFF01, 0x1F602];
    assert Encode([0xFF01, 0x1F602]) == [0xEF, 0xBC, 0x81, 0xF0, 0x9F, 0x98, 0x82];
  }

  /**
   * `to_wstring()` is `L"こんにちは　世界！😂"`: one unit per codepoint,
   * the last as the surrogate pair D83D DE02.
   */
  lemma GreetingWide(cps: seq<Codepoint>)
    requires IsGreeting(cps)
    ensures ToUtf16(Encode(cps))
            == Success([0x3053, 0x3093, 0x306B, 0x3061, 0x306F, 0x3000, 0x4E16, 0x754C, 0xFF01, 0xD83D, 0xDE02])
  {
    ToUtf16OfEncode(cps);
    var head := cps[..9];
    assert cps == head + [cps[9]];
    Utf16EncodeAppend(head, [cps[9]]);
    GreetingHeadBmp(cps);
    Utf16EncodeBmp(head);
    EmojiUtf16(cps[9]);
    var w := Utf16Encode(head) + [0xD83D, 0xDE02];
    forall i | 0 <= i < 9
      ensures w[i] == cps[i]
    {
      assert head[i] == cps[i];
    }
    assert w == [0x3053, 0x3093, 0x306B, 0x3061, 0x306F, 0x3000, 0x4E16, 0x754C, 0xFF01, 0xD83D, 0xDE02];
  }

  /** The first nine codepoints of the text lie below 0x10000. */
  lemma GreetingHeadBmp(cps: seq<Codepoint>)
    requires IsGreeting(cps)
    ensures forall i :: 0 <= i < |cps[..9]| ==> cps[..9][i] <= 0xFFFF
  {
    forall i | 0 <= i < 9
      ensures cps[..9][i] <= 0xFFFF
    {
      assert cps[..9][i] == cps[i];
    }
  }

  /** `"😂"` is the surrogate pair D83D DE02. */
  lemma EmojiUtf16(c: Codepoint)
    requires c == 0x1F602
    ensures Utf16Encode([c]) == [0xD83D, 0xDE02]
  {
    assert Utf16Encode([c]) == Utf16Units(c) + Utf16Encode([]);
  }

  /** The UTF-16 form of a concatenation. */
  lemma {:induction false} Utf16EncodeAppend(a: seq<Codepoint>, b: seq<Codepoint>)
    ensures Utf16Encode(a + b) == Utf16Encode(a) + Utf16Encode(b)
    decreases |a|
  {
    if a == [] {
      assert a + b == b;
    } else {
      assert (a + b)[1..] == a[1..] + b;
      Utf16EncodeAppend(a[1..], b);
    }
  }

  /** Below 0x10000 every codepoint is one unit of the same value. */
  lemma {:induction false} Utf16EncodeBmp(cps: seq<Codepoint>)
    requires forall i :: 0 <= i < |cps| ==> cps[i] <= 0xFFFF
    ensures |Utf16Encode(cps)| == |cps|
    ensures forall i :: 0 <= i < |cps| ==> Utf16Encode(cps)[i] == cps[i]
    decreases |cps|
  {
    if cps != [] {
      Utf16EncodeBmp(cps[1..]);
    }
  }

  /** The texts ending in `"😂"` and in `"😀"` compare unequal. */
  lemma GreetingUnequal(cps: seq<Codepoint>, other: seq<Codepoint>)
    requires IsGreeting(cps) && |other| == 10 && other[..9] == cps[..9] && other[9] == 0x1F600
    ensures Encode(cps) != Encode(other)
  {
    EncodeInjective(cps, other);
  }

  /** `test + test.substr(6, 2)` is `"こんにちは　世界！😂世界"`, of twelve codepoints. */
  lemma GreetingConcat(cps: seq<Codepoint>)
    requires IsGreeting(cps)
    ensures |Encode(cps)| == 31 && SubstrAllowed(Encode(cps), 6, 2)
    ensures Encode(cps) + Substring(Encode(cps), 6, 2) == Encode(cps + [0x4E16, 0x754C])
    ensures CodepointCount(Encode(cps) + Substring(Encode(cps), 6, 2)) == 12
  {
    GreetingLength(cps);
    EncodeSubstring(cps, 6, 2);
    assert cps[6 .. 8] == [0x4E16, 0x754C];
    EncodeAppend(cps, [0x4E16, 0x754C]);
    EncodeCount(cps + [0x4E16, 0x754C]);
  }

  /** `"hello world!"`: twelve bytes, twelve codepoints, unchanged by `to_wstring`. */
  lemma HelloWorld(s: seq<Byte>)
    requires s == [0x68, 0x65, 0x6C, 0x6C, 0x6F, 0x20, 0x77, 0x6F, 0x72, 0x6C, 0x64, 0x21]
    ensures CodepointCount(s) == |s| == 12
    ensures ToUtf16(s).Success? && ToUtf16(s).value == s
  {
    AsciiCount(s);
    AsciiToUtf16(s);
  }

  /** `test[0].to_wstring()` is `L"こ"`. */
  lemma FirstCharWide()
    ensures ToUtf16([0xE3, 0x81, 0x93]) == Success([0x3053])
  {
    var s: seq<Byte> := [0xE3, 0x81, 0x93];
    assert DecodeFirst(s) == Success((0x3053, 3));
    assert s[3..] == [];
    var none: seq<Unit> := [];
    assert ToUtf16(s) == Prepend(Utf16Units(0x3053), ToUtf16([])) == Success([0x3053] + none);
    assert [0x3053] + none == [0x3053];
  }

  /** `"👺"` as UTF-8 converts to the surrogate pair D83D DC7A. */
  lemma GoblinWide()
    ensures ToUtf16([0xF0, 0x9F, 0x91, 0xBA]) == Success([0xD83D, 0xDC7A])
  {
    var s: seq<Byte> := [0xF0, 0x9F, 0x91, 0xBA];
    assert DecodeFirst(s) == Success((0x1F47A, 4));
    assert s[4..] == [];
    var none: seq<Unit> := [];
    assert ToUtf16(s) == Prepend(Utf16Units(0x1F47A), ToUtf16([])) == Success([0xD83D, 0xDC7A] + none);
    assert [0xD83D, 0xDC7A] + none == [0xD83D, 0xDC7A];
  }
}
