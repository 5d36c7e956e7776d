# accel-utf8 in Dafny

A model of `accel::utf8`, the header-only C++ library (`include/accel/utf8.h`)
that wraps a `std::string` of UTF-8 bytes. The string is addressed by
codepoint index rather than by byte offset. The modelled operations:

- `details::get_utf_codepoint_size` gives the length of the sequence that a
  lead byte starts, from its count of leading one bits. None counts as 1,
  and more than four count as 4.
- `length()` counts the steps from offset 0 until the offset is at or past
  the end.
- `index_to_offset` steps `index` times. `operator[]` copies the sequence at
  that offset. `substr` copies the bytes between the offsets of `start` and
  `start + length`.
- `operator+`, `operator==` / `operator!=`, `data_size`, `clear`, and `begin()`
  / `end()`.
- `to_wstring` decodes each sequence by its lead-byte pattern. It fails on an
  unknown lead, a continuation byte that is not `10xxxxxx`, or a codepoint
  above 0x10FFFF. Otherwise it emits one UTF-16 unit, or a surrogate pair
  (section 2.1 of RFC 2781).
- `string_iterator` steps with `advance` / `operator++`, compares, and
  dereferences with `operator*`.

Modules:

- `Results` (`results.dfy`): `Option` and `Result`.
- `Utf8Details` (`details.dfy`): the lead-byte length. This is a value table
  `CodepointSize`, plus the loop of `get_utf_codepoint_size`, proved to
  compute it.
- `Utf8Text` (`text.dfy`): the buffer as a value, and what each string
  operation computes.
  - Stepping (`Next`, `CountFrom`, `OffsetFrom`) and alignment
    (`AlignedFrom`).
  - `CharAt` is what `operator[]` copies; `SequenceAt` is what `operator*`
    copies.
  - `Substring` uses `std::size_t` arithmetic, which wraps modulo 2^64, so
    the default `npos` is covered.
  - Lemmas on all of these.
- `Utf16Bridge` (`utf16.dfy`): `to_wstring` as a function `ToUtf16` over the
  bytes, with the failures as `Result` values. Lemmas on its success and
  failure cases.
- `Utf8Reference` (`reference.dfy`): independent reference definitions. These
  are the canonical UTF-8 encoding `Encode` of a codepoint sequence, and UTF-16
  encoding and decoding. Lemmas tie the count, offsets, `operator[]`, `substr`,
  equality and `to_wstring` on `Encode(cps)` to the codepoints `cps`.
- `Utf8Strings` (`strings.dfy`): the classes `Utf8String` and
  `StringIterator`.
  - Their methods follow the C++ bodies: the loops of `length`,
    `index_to_offset` and `to_wstring`, and the field updates of `clear` and
    `advance`.
  - Each method is proved against the functions of `Utf8Text` and
    `Utf16Bridge`.
- `Utf8Examples` (`examples.dfy`): the expected values of the repository's
  test program, for the operations the header defines.

How the C++ is rendered:

- `std::string` holds bytes (`seq<Byte>`, `Byte` = 0..255). A mask test
  `(b & 0b11100000) == 0b11000000` is written `b / 0x20 == 0x6`. A low
  mask `b & 0b00011111` is written `b % 0x20`.
- Since the masks are applied to `unsigned char` or to the promoted `char`,
  the signedness of `char` makes no difference to them.
- `std::string::operator[]` at `size()` yields the terminating NUL. The model
  reads that byte as 0 (`ByteAt`), wherever the C++ reads one past the
  last byte:
  - when `to_wstring` meets a truncated final sequence;
  - when an iterator at `end()` is advanced or dereferenced.
- `std::string::substr` clips its count to the buffer; `Min` does the same
  in the model.
- Every `throw std::invalid_argument` becomes a `Failure` value: `InvalidSequence`
  or `InvalidCodepoint`. An `ACC_ASSERT` becomes a precondition.

Where a stepping lands past the end:

- A buffer can end inside a sequence, for example a lone `E3`. Stepping then
  lands past the end, `length()` still counts the partial sequence, and
  `operator[]` returns it clipped.
- Iterating such a buffer from `begin()` runs past `end()`. For the lone
  `E3`, `Step` moves from 0 to 3 while `end()` is at 1, so `it != end()`
  stays true (`EndAfterCount` shows the overshoot). The next `advance` or
  `operator*` would read beyond `size()`. The `requires index <= |str.bytes|`
  of `Advance` and `Deref` rules that read out.
- `Aligned(s)` is the case where stepping lands exactly on the end. Every
  canonical encoding is aligned (`EncodeCount`), and every buffer that
  `to_wstring` accepts is aligned (`ToUtf16Success`).

## Model

| member | source | states |
|---|---|---|
| Utf8Details.LeadingOnes | include/accel/utf8.h:16-22 | a byte has at most 8 leading one bits, and none exactly when it is below 0x80 |
| Utf8Details.ClampSize | include/accel/utf8.h:23 | the clamp gives a length from 1 to 4 and keeps a count of 1 to 4 as it is |
| Utf8Details.CodepointSize | include/accel/utf8.h:23 | every byte gets a sequence length from 1 to 4 |
| Utf8Details.OnesFrom | include/accel/utf8.h:18-22 | counting one bits from bit `k` downwards stops after at most `k + 1` bits, so the mask loop ends |
| Utf8Details.GetCodepointSize | include/accel/utf8.h:14-24 | the loop returns the count of leading one bits of `first`, with 0 mapped to 1 and more than 4 to 4; this equals the range table `CodepointSize` |
| Utf8Details.CodepointSizeByPattern | include/accel/utf8.h:16-23 | the clamped count of leading ones is 1 below 0xC0, 2 for 0xC0..0xDF, 3 for 0xE0..0xEF and 4 from 0xF0; no ones exactly below 0x80; five or more ones (the clamped case) exactly from 0xF8 |
| Utf8Text.ByteAt | include/accel/utf8.h:60 | the byte `m_str[k]` reads: byte `k` of the buffer below `size()`, the terminating NUL at `size()` |
| Utf8Text.Next | include/accel/utf8.h:140 | one step moves the byte index forward by 1 to 4 |
| Utf8Text.CountFrom | include/accel/utf8.h:137-141 | counting from byte `off` gives 0 exactly at or past the end, and at most one codepoint per remaining byte |
| Utf8Text.CodepointCount | include/accel/utf8.h:133-143 | `length()` is at most `data_size()`, and 0 exactly for the empty buffer |
| Utf8Text.OffsetFrom | include/accel/utf8.h:242-246 | `k` steps from byte `off` move at least `k` bytes |
| Utf8Text.OffsetOf | include/accel/utf8.h:236-249 | `index_to_offset(index)` is at least `index`, and inside the buffer for `index < length()` |
| Utf8Text.Step | include/accel/utf8.h:58-61 | `advance` moves the index forward by 1 to 4, by exactly 1 at `size()`, where it reads the NUL |
| Utf8Text.SequenceAt | include/accel/utf8.h:252-256 | `operator*` copies a run of the buffer that starts at the index and is at most the lead byte's length long; the run is not empty inside the buffer and is empty at `size()` |
| Utf8Text.CharAt | include/accel/utf8.h:89-93 | `test[i]` is 1 to 4 bytes of the buffer, starting at the offset of `i` |
| Utf8Text.SubstrAllowed | include/accel/utf8.h:220-221 | both assertions hold only when `start < length()` and `start + length` either stays below `length()` or wraps past 2^64 (and the wrapped sum is then below `start`) |
| Utf8Text.Substring | include/accel/utf8.h:223-225 | `substr` copies a run of the buffer that starts at the offset of `start` |
| Utf8Text.OffsetFromBounds | include/accel/utf8.h:242-246 | after `k` steps the index has moved at least `k`; it is inside the buffer while `k` is below the count; the count from there is the count minus `k` |
| Utf8Text.OffsetFromAdd | include/accel/utf8.h:242-246 | `i` steps then `j` steps is `i + j` steps |
| Utf8Text.OffsetFromMonotone | include/accel/utf8.h:242-246 | more steps give a strictly larger offset |
| Utf8Text.OffsetOfProperties | include/accel/utf8.h:236-249 | for `index < length()` the offset lies in `[index, size())`; the next offset is one lead-byte length further; every later index has a larger offset |
| Utf8Text.CountBounds | include/accel/utf8.h:133-143 | `length() <= data_size() <= 4 * length()`; `length()` is 0 exactly for the empty buffer |
| Utf8Text.AsciiCount | include/accel/utf8.h:133-143 | on bytes below 0x80, `length()` is `data_size()` and the buffer is aligned |
| Utf8Text.EndAfterCount | include/accel/utf8.h:137-141 | after `length()` steps the index is at or past `size()`; exactly at `size()` iff the buffer is aligned |
| Utf8Text.AlignedAlong | include/accel/utf8.h:137-141 | every boundary reached from an aligned one is aligned |
| Utf8Text.AlignedRest | include/accel/utf8.h:137-141 | after the first step of an aligned buffer, what is left is aligned |
| Utf8Text.Suffix | include/accel/utf8.h:137-141 | counting from byte `n` is counting the suffix from `n` |
| Utf8Text.ConcatCount | include/accel/utf8.h:79-87 | when the left operand of `+` is aligned, the lengths add, and the result is aligned iff the right operand is |
| Utf8Text.ConcatCountNeedsAlignment | include/accel/utf8.h:79-87 | without that alignment the lengths need not add: `E3` joined with `81 93` has length 1, not 1 + 2 |
| Utf8Text.ConcatOffset | include/accel/utf8.h:79-87 | after an aligned left operand, codepoint `k` of the right operand is at index `length(a) + k`, shifted by `size(a)` bytes |
| Utf8Text.CountInSlice | include/accel/utf8.h:223-225 | a slice that ends on the boundary `k` steps after its start holds exactly `k` codepoints |
| Utf8Text.CharAtProperties | include/accel/utf8.h:89-93 | `test[i]` starts at the offset of `i`, is at most the lead byte's length, and has `length()` 1; on an aligned buffer it is the whole sequence and is aligned |
| Utf8Text.IteratorAtCodepoint | include/accel/utf8.h:58-61 | at the offset of codepoint `k`, `operator*` gives `test[k]` and `advance` moves to the offset of `k + 1`, so iteration from `begin()` visits the codepoints in order |
| Utf8Text.SubstringSlice | include/accel/utf8.h:223-225 | without wrap-around, `substr(start, length)` is the bytes between the offsets of `start` and `start + length` |
| Utf8Text.SliceCount | include/accel/utf8.h:223-225 | those bytes hold exactly `length` codepoints |
| Utf8Text.SubstringExplicit | include/accel/utf8.h:218-226 | `substr(start, length)` with `start + length < length()` passes both assertions, returns `length` codepoints, and never includes the last codepoint |
| Utf8Text.SubstrDefaultsRejected | include/accel/utf8.h:218-221 | `substr()` with both defaults fails the second assertion on every buffer |
| Utf8Text.SubstringToEnd | include/accel/utf8.h:218-225 | `substr(start)` with `npos`: the sum wraps to `start - 1`, so it is allowed for `1 <= start < length()`, and the result is everything from the offset of `start`, with `length() - start` codepoints |
| Utf16Bridge.LeadOf | include/accel/utf8.h:158-181 | the lead tests reject exactly the bytes `10xxxxxx` and `11111xxx`, and an accepted lead announces 1 to 4 bytes |
| Utf16Bridge.IsContinuation | include/accel/utf8.h:186 | the continuation test accepts exactly the bytes 0x80 to 0xBF |
| Utf16Bridge.Continue | include/accel/utf8.h:184-191 | reading continuation bytes fails only with "Invalid UTF-8 sequence"; once it succeeds, the announced length fits in the buffer |
| Utf16Bridge.DecodeFirst | include/accel/utf8.h:158-191 | a decoded sequence takes from 1 byte up to the rest of the buffer |
| Utf16Bridge.DecodeFirstStable | include/accel/utf8.h:158-191 | a whole sequence at the start decodes the same whatever bytes follow it |
| Utf16Bridge.LeadPatterns | include/accel/utf8.h:158-181 | a lead byte is rejected iff it is `10xxxxxx` or `11111xxx`; otherwise `bytes_read` is `get_utf_codepoint_size(lead)`, and the payload is below 0x80, 0x20, 0x10 or 0x08 for 1, 2, 3 or 4 bytes (7, 5, 4 or 3 bits) |
| Utf16Bridge.DecodeFirstSize | include/accel/utf8.h:158-191 | when decoding succeeds, `to_wstring` steps over exactly the bytes that `length()` steps over, and they are all continuation bytes after the lead |
| Utf16Bridge.Utf16Units | include/accel/utf8.h:193-206 | a codepoint up to 0xFFFF is the one unit equal to it; above that it becomes two units, a high surrogate then a low one |
| Utf16Bridge.ToUtf16 | include/accel/utf8.h:148-216 | a successful conversion gives at most two units per byte, and no units exactly for the empty buffer |
| Utf16Bridge.SurrogatePair | include/accel/utf8.h:197-206 | above 0xFFFF the two units are a high and a low surrogate that recombine to the codepoint |
| Utf16Bridge.PairUnits | include/accel/utf8.h:203-205 | the units are `(cp - 0x10000) >> 10` plus 0xD800 and `(cp - 0x10000) & 0x3FF` plus 0xDC00, each half below 0x400 |
| Utf16Bridge.ToUtf16Head | include/accel/utf8.h:153-212 | the outcome of a non-empty buffer is decided by its first sequence: that sequence's failure, the out-of-range failure, or its units followed by the outcome of the rest |
| Utf16Bridge.ToUtf16Resume | include/accel/utf8.h:153-212 | one loop iteration at offset `i` either ends in that failure or moves the sequence's units to the output |
| Utf16Bridge.ToUtf16Success | include/accel/utf8.h:148-216 | a successful conversion implies an aligned buffer, with between `length()` and `2 * length()` units |
| Utf16Bridge.ToUtf16Concat | include/accel/utf8.h:148-216 | converting `a + b` with `a` aligned gives `a`'s units then `b`'s; the first failure wins |
| Utf16Bridge.AsciiToUtf16 | include/accel/utf8.h:158-162 | bytes below 0x80 convert one to one into equal units |
| Utf16Bridge.BadLeadFails | include/accel/utf8.h:178-181 | a lead of no known pattern throws "Invalid UTF-8 sequence" |
| Utf16Bridge.BadContinuationFails | include/accel/utf8.h:184-187 | a non-continuation byte, or the end of the buffer, before the announced length throws "Invalid UTF-8 sequence" |
| Utf16Bridge.OutOfRangeFails | include/accel/utf8.h:207-210 | a four-byte sequence whose top bits exceed 0x10F throws "Invalid UTF-8 codepoint" |
| Utf16Bridge.OverlongAccepted | include/accel/utf8.h:163-167 | the overlong `C0 80` is accepted and becomes the unit 0 |
| Utf16Bridge.SurrogateAccepted | include/accel/utf8.h:168-172 | the encoded surrogate `ED A0 80` is accepted and becomes the unit 0xD800 |
| Utf8Reference.EncodeScalarShape | include/accel/utf8.h:14-24 | the lead byte of a canonical encoding announces exactly its byte count; the rest are continuation bytes; one byte iff the codepoint is below 0x80 |
| Utf8Reference.DecodeEncodeScalar | include/accel/utf8.h:158-191 | the decoding step of `to_wstring` recovers the codepoint and byte count of any canonical encoding, whatever follows it |
| Utf8Reference.EncodeAppend | include/accel/utf8.h:79-82 | the encoding of two codepoint sequences joined is the encodings joined, which is what `operator+` produces |
| Utf8Reference.EncodeCount | include/accel/utf8.h:133-143 | a canonical encoding is aligned, and `length()` is its number of codepoints |
| Utf8Reference.EncodeOffset | include/accel/utf8.h:236-249 | `index_to_offset(i)` on a canonical encoding is the byte size of the encoding of the first `i` codepoints |
| Utf8Reference.EncodeCharAt | include/accel/utf8.h:89-93 | `operator[](i)` on a canonical encoding is the encoding of codepoint `i` |
| Utf8Reference.EncodeSubstring | include/accel/utf8.h:218-226 | `substr(start, length)` on a canonical encoding is the encoding of codepoints `start` to `start + length` |
| Utf8Reference.EncodeInjective | include/accel/utf8.h:95-98 | equal buffers are equal codepoint sequences and vice versa, so `operator==` on text compares codepoints |
| Utf8Reference.EncodeAsciiIff | include/accel/utf8.h:133-143 | on a canonical encoding `length() == data_size()` iff every codepoint is below 0x80, and iff every byte is |
| Utf8Reference.ToUtf16OfEncode | include/accel/utf8.h:148-216 | `to_wstring` of a canonical encoding succeeds with the UTF-16 encoding of its codepoints |
| Utf8Reference.Utf16RoundTrip | include/accel/utf8.h:193-206 | decoding the emitted units according to RFC 2781 gives back the codepoints, when none is a surrogate |
| Utf8Reference.WellFormedRoundTrip | include/accel/utf8.h:148-216 | for text without encoded surrogates, `to_wstring` succeeds and its output decodes to the original codepoints |
| Utf8Strings.Utf8String.constructor | include/accel/utf8.h:70-74 | the buffer is a copy of the given bytes |
| Utf8Strings.Utf8String.Plus | include/accel/utf8.h:79-82 | a new string with both buffers in order |
| Utf8Strings.Utf8String.PlusBytes | include/accel/utf8.h:84-87 | a new string with this buffer followed by the given bytes |
| Utf8Strings.Utf8String.DataSize | include/accel/utf8.h:131 | the byte count |
| Utf8Strings.Utf8String.Length | include/accel/utf8.h:133-143 | the loop returns `CodepointCount` of the buffer |
| Utf8Strings.Utf8String.IndexToOffset | include/accel/utf8.h:236-249 | under `index < length()`, the loop returns `OffsetOf(index)`, which lies in `[index, size())` |
| Utf8Strings.Utf8String.At | include/accel/utf8.h:89-93 | a new string holding `CharAt(index)` |
| Utf8Strings.Utf8String.Equals | include/accel/utf8.h:95-98 | comparing lengths and then bytes is true iff the buffers are equal |
| Utf8Strings.Utf8String.NotEquals | include/accel/utf8.h:100-103 | true iff the buffers differ |
| Utf8Strings.Utf8String.EqualsBytes | include/accel/utf8.h:115-118 | true iff the buffer equals the given bytes |
| Utf8Strings.Utf8String.NotEqualsBytes | include/accel/utf8.h:120-123 | true iff the buffer differs from the given bytes |
| Utf8Strings.Utf8String.Begin | include/accel/utf8.h:125-126 | a new iterator over this string at offset 0 |
| Utf8Strings.Utf8String.End | include/accel/utf8.h:128-129 | a new iterator over this string at `data_size()` |
| Utf8Strings.Utf8String.Clear | include/accel/utf8.h:228-231 | the buffer becomes empty |
| Utf8Strings.Utf8String.Substr | include/accel/utf8.h:218-226 | under both assertions (taken in `std::size_t`), a new string holding `Substring(start, length)` |
| Utf8Strings.Utf8String.DecodeAt | include/accel/utf8.h:158-191 | the lead test and continuation loop at `i` give `DecodeFirst` of the buffer from `i`, with the failure when a test fails |
| Utf8Strings.Utf8String.EmitUnits | include/accel/utf8.h:193-206 | the units pushed for an accepted codepoint are `Utf16Units` of it: the codepoint itself up to 0xFFFF, otherwise a high and a low surrogate that recombine to it |
| Utf8Strings.Utf8String.ToWString | include/accel/utf8.h:148-216 | the loop returns `ToUtf16` of the buffer, failures included |
| Utf8Strings.StringIterator.constructor | include/accel/utf8.h:32-34 | the iterator refers to the given string at the given index |
| Utf8Strings.StringIterator.Advance | include/accel/utf8.h:58-61 | the index moves one lead-byte length on (one at `size()`) |
| Utf8Strings.StringIterator.Increment | include/accel/utf8.h:36-40 | advances and returns this iterator |
| Utf8Strings.StringIterator.Equals | include/accel/utf8.h:42-45 | true iff both refer to the same string and have the same index |
| Utf8Strings.StringIterator.NotEquals | include/accel/utf8.h:47-50 | the negation of `Equals` |
| Utf8Strings.StringIterator.Deref | include/accel/utf8.h:252-256 | a new string holding the sequence at the index, clipped; empty at `size()` |
| Utf8Examples.GreetingLength | tests/utf8_test.cpp:83-84 | `こんにちは　世界！😂` has length 10 and data size 31 |
| Utf8Examples.GreetingIndex | tests/utf8_test.cpp:87-96 | `test[0]` to `test[9]` are the ten characters `こ`, `ん`, `に`, `ち`, `は`, the ideographic space, `世`, `界`, `！` and `😂`, each as its UTF-8 bytes |
| Utf8Examples.GreetingSubstrMiddle | tests/utf8_test.cpp:74 | `substr(2, 2)` is `にち` |
| Utf8Examples.GreetingSubstrSpace | tests/utf8_test.cpp:75 | `substr(4, 3)` is `は　世` |
| Utf8Examples.GreetingSubstrOne | tests/utf8_test.cpp:76 | `substr(8, 1)` is `！` |
| Utf8Examples.GreetingSubstrToEnd | tests/utf8_test.cpp:72 | `substr(8)` is `！😂` |
| Utf8Examples.GreetingWide | tests/utf8_test.cpp:98 | `to_wstring()` succeeds with exactly the 11 units 3053 3093 306B 3061 306F 3000 4E16 754C FF01 D83D DE02 |
| Utf8Examples.FirstCharWide | tests/utf8_test.cpp:99 | `test[0].to_wstring()` is `L"こ"` |
| Utf8Examples.GreetingUnequal | tests/utf8_test.cpp:80-81 | the texts ending in `😂` and in `😀` compare unequal |
| Utf8Examples.GreetingConcat | tests/utf8_test.cpp:101-103 | `test + test.substr(6, 2)` encodes `こんにちは　世界！😂世界` and has length 12 |
| Utf8Examples.HelloWorld | tests/utf8_test.cpp:107 | the value `hello world!` built there has 12 codepoints and converts to the same 12 units |
| Utf8Examples.GoblinWide | tests/utf8_test.cpp:120-124 | `👺` converts to the pair D83D DC7A |

## Left out

- The test program uses operations that the header does not define, and the
  model has none of them: `find`, `find_first_of`, `find_first_not_of`,
  `find_last_of`, `find_last_not_of`, `replace`, `is_ascii`, `to_string`,
  `operator+=`, the default constructor and construction from
  `std::wstring`. Its `get_length()` / `get_data_size()` are taken to be
  `length()` / `data_size()`.
- `data()` is left out, because the model has no pointers. `cbegin()` /
  `cend()` are left out because they are `Begin` / `End`, only `const`.
- The copy and move members generated by `ACC_DEFAULT_COPYABLE` /
  `ACC_DEFAULT_MOVABLE` are left out. The constructors from `const char*`
  and from a `char` array become the one constructor from a byte sequence:
  the NUL-terminated copy is the bytes up to the NUL.
- The comparisons with `const char*` are covered by `EqualsBytes` /
  `NotEqualsBytes` on the bytes up to the NUL.
- `wide_string.reserve` affects capacity only, so it has no counterpart in
  the model.
- `wchar_t` is taken as a 16-bit code unit (`Unit`). With a 32-bit
  `wchar_t` the C++ still emits surrogate pairs, and the model's units are
  those values.
- `Utf8Strings.Utf8String.Substr`: also requires `data_size() < 2^64`. A
  `std::string` cannot be that large, and the `std::size_t` arithmetic on
  offsets depends on it.
- The iterator refers to the string object rather than to its private
  `std::string` member. Two iterators are equal when they refer to the same
  string object, which matches `&m_str == &other.m_str`.
- Lifetime and dangling references are left out: an iterator that outlives
  its string is not modelled.
- `ACC_ASSERT` is a precondition, so the model says nothing about what happens
  when an assertion fails: an abort, or nothing when assertions are compiled
  out.
- The assertions of `substr` are taken as written:
  - `start + length < length()` means that an explicit-length `substr` can
    never include the last codepoint (`SubstringExplicit`);
  - `substr()` with both defaults is always rejected
    (`SubstrDefaultsRejected`);
  - `substr(start)` works for `start >= 1` only through the wrap-around of
    `start + npos` (`SubstringToEnd`).
- `to_wstring` does not check Unicode well-formedness, and the model keeps
  it that way: overlong forms and encoded surrogates are accepted
  (`OverlongAccepted`, `SurrogateAccepted`).
- `DecodeAt` and `EmitUnits` are the two halves of the body of
  `to_wstring`'s loop, written as methods of their own. `DecodeAt` reads the
  buffer passed to it.
