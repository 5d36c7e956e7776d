/**
 * The classes of `accel::utf8`: `string`, which owns a byte buffer and
 * addresses it by codepoint index, and `string_iterator`, which refers to
 * a string's buffer and walks it one sequence at a time. Each method is
 * proved against the value-level definitions of `Utf8Text` and
 * `Utf16Bridge`.
 */
module Utf8Strings {
  import opened Results
  import opened Utf8Details
  import opened Utf8Text
  import opened Utf16Bridge

  /** `accel::utf8::string`: the field `m_str` is the byte buffer `bytes`. */
  class Utf8String {
    var bytes: seq<Byte>

    /** `string(const std::string&)`: the buffer is a copy of the argument. */
    constructor (str: seq<Byte>)
      ensures bytes == str
    {
      bytes := str;
    }

    /** `operator+(const string&)`: a new string holding both buffers in order. */
    method Plus(other: Utf8String) returns (r: Utf8String)
      ensures fresh(r) && r.bytes == bytes + other.bytes
    {
      r := new Utf8String(bytes + other.bytes);
    }

    /** `operator+(const std::string&)`. */
    method PlusBytes(other: seq<Byte>) returns (r: Utf8String)
      ensures fresh(r) && r.bytes == bytes + other
    {
      r := new Utf8String(bytes + other);
    }

    /** `data_size()`: the number of bytes. */
    method DataSize() returns (n: nat)
      ensures n == |bytes|
    {
      n := |bytes|;
    }

    /**
     * `length()`: counts the steps by the lead-byte length until the index
     * is at or past the end.
     */
    method Length() returns (length: nat)
      ensures length == CodepointCount(bytes)
    {
      length := 0;
      var index: nat := 0;
      while index < |bytes|
        invariant length + CountFrom(bytes, index) == CodepointCount(bytes)
        decreases |bytes| - index
      {
        length := length + 1;
        var size := GetCodepointSize(bytes[index]);
        index := index + size;
      }
    }

    /**
     * `index_to_offset(index)`: takes `index` steps from offset 0; the
     * assertion `index < length()` keeps every byte read inside the buffer.
     */
    method IndexToOffset(index: nat) returns (offset: nat)
      requires index < CodepointCount(bytes)
      ensures offset == OffsetOf(bytes, index)
      ensures index <= offset < |bytes|
    {
      var current: nat := 0;
      offset := 0;
      while current < index
        invariant current <= index
        invariant offset == OffsetOf(bytes, current)
      {
        OffsetFromBounds(bytes, 0, current);
        OffsetFromAdd(bytes, 0, current, 1);
        current := current + 1;
        var size := GetCodepointSize(bytes[offset]);
        offset := offset + size;
      }
      OffsetFromBounds(bytes, 0, index);
    }

    /**
     * `operator[](index)`: a new string holding the lead-byte length of
     * bytes from the offset of codepoint `index`, clipped to the buffer.
     */
    method At(index: nat) returns (r: Utf8String)
      requires index < CodepointCount(bytes)
      ensures fresh(r) && r.bytes == CharAt(bytes, index)
    {
      var offset := IndexToOffset(index);
      var size := GetCodepointSize(bytes[offset]);
      r := new Utf8String(bytes[offset .. Min(offset + size, |bytes|)]);
    }

    /**
     * `operator==(const string&)`: compares the codepoint counts and then
     * the buffers, which is byte equality since equal buffers have equal
     * counts.
     */
    method Equals(other: Utf8String) returns (eq: bool)
      ensures eq <==> bytes == other.bytes
    {
      var n := Length();
      var m := other.Length();
      eq := n == m && bytes == other.bytes;
    }

    /** `operator!=(const string&)`. */
    method NotEquals(other: Utf8String) returns (ne: bool)
      ensures ne <==> bytes != other.bytes
    {
      var eq := Equals(other);
      ne := !eq;
    }

    /** `operator==(const std::string&)` and `operator==(const char*)`. */
    method EqualsBytes(str: seq<Byte>) returns (eq: bool)
      ensures eq <==> bytes == str
    {
      eq := bytes == str;
    }

    /** `operator!=(const std::string&)` and `operator!=(const char*)`. */
    method NotEqualsBytes(str: seq<Byte>) returns (ne: bool)
      ensures ne <==> bytes != str
    {
      ne := bytes != str;
    }

    /** `begin()`: an iterator over this buffer at offset 0. */
    method Begin() returns (it: StringIterator)
      ensures fresh(it) && it.str == this && it.index == 0
    {
      it := new StringIterator(this, 0);
    }

    /** `end()`: an iterator over this buffer at `data_size()`. */
    method End() returns (it: StringIterator)
      ensures fresh(it) && it.str == this && it.index == |bytes|
    {
      it := new StringIterator(this, |bytes|);
    }

    /** `clear()`: the buffer becomes empty. */
    method Clear()
      modifies this
      ensures bytes == []
    {
      bytes := [];
    }

    /**
     * `substr(start, length)`: both assertions with the sum taken in
     * `std::size_t`, then the bytes from the offset of `start`, as many as
     * the `std::size_t` difference of the two offsets, clipped to the
     * buffer.
     */
    method Substr(start: SizeT, length: SizeT) returns (r: Utf8String)
      requires |bytes| < SIZE_T_MOD
      requires SubstrAllowed(bytes, start, length)
      ensures fresh(r) && r.bytes == Substring(bytes, start, length)
    {
      var startOffset := IndexToOffset(start);
      var endOffset := IndexToOffset(SizeAdd(start, length));
      var count := SizeSub(endOffset, startOffset);
      r := new Utf8String(bytes[startOffset .. startOffset + Min(count, |bytes| - startOffset)]);
    }

    /**
     * The first half of the body of `to_wstring`'s loop for the sequence
     * at `i`: the lead-byte test, then the continuation bytes read one by
     * one (the byte at `size()` is the terminating NUL). Each `throw` is a
     * `Failure`; on success it yields the codepoint and `bytes_read`.
     */
    static method DecodeAt(s: seq<Byte>, i: nat) returns (r: Result<(nat, nat), Error>)
      requires i < |s|
      ensures r == DecodeFirst(s[i..])
    {
      ghost var rest := s[i..];
      var lead := s[i];
      assert rest[0] == lead;
      var codepoint: nat;
      var bytesRead: nat;
      if lead / 0x80 == 0x0 {
        codepoint, bytesRead := lead, 1;
      } else if lead / 0x20 == 0x6 {
        codepoint, bytesRead := lead % 0x20, 2;
      } else if lead / 0x10 == 0xE {
        codepoint, bytesRead := lead % 0x10, 3;
      } else if lead / 0x08 == 0x1E {
        codepoint, bytesRead := lead % 0x08, 4;
      } else {
        return Failure(InvalidSequence);
      }
      assert LeadOf(lead) == Some(Lead(bytesRead, codepoint));
      ghost var payload := codepoint;

      var j: nat := 1;
      while j < bytesRead
        invariant 1 <= j <= bytesRead && i + j <= |s|
        invariant Continue(rest, bytesRead, 1, payload) == Continue(rest, bytesRead, j, codepoint)
        decreases bytesRead - j
      {
        var c := ByteAt(s, i + j);
        ContinueNext(rest, bytesRead, j, codepoint, c);
        if !IsContinuation(c) {
          return Failure(InvalidSequence);
        }
        codepoint := codepoint * 0x40 + c % 0x40;
        j := j + 1;
      }
      r := Success((codepoint, bytesRead));
    }

    /**
     * The second half of the body of `to_wstring`'s loop for a codepoint
     * it accepts: one unit up to 0xFFFF, otherwise the high and the low
     * surrogate of the offset above 0x10000.
     */
    static method EmitUnits(codepoint: nat) returns (units: seq<Unit>)
      requires codepoint <= 0x10FFFF
      ensures units == Utf16Units(codepoint)
      ensures codepoint <= 0xFFFF ==> units == [codepoint]
      ensures codepoint > 0xFFFF ==>
                |units| == 2 && 0xD800 <= units[0] < 0xDC00 && 0xDC00 <= units[1] < 0xE000
                && (units[0] as int - 0xD800) * 0x400 + (units[1] as int - 0xDC00) + 0x10000 == codepoint
    {
      if codepoint <= 0xFFFF {
        units := [codepoint];
      } else {
        var c := codepoint - 0x10000;
        var high, low := c / 0x400, c % 0x400;
        PairUnits(codepoint, high, low);
        units := [high + 0xD800, low + 0xDC00];
      }
    }

    /**
     * `to_wstring()`: decodes the sequence at `i`, emits one unit up to
     * 0xFFFF and a surrogate pair up to 0x10FFFF, fails above, and goes on
     * after the sequence.
     */
    method ToWString() returns (r: Result<seq<Unit>, Error>)
      ensures r == ToUtf16(bytes)
    {
      var s := bytes;
      var wide: seq<Unit> := [];
      var i: nat := 0;
      assert s[i..] == s;
      PrependEmpty(ToUtf16(s));
      while i < |s|
        invariant i <= |s|
        invariant ToUtf16(s) == Prepend(wide, ToUtf16(s[i..]))
        decreases |s| - i
      {
        var decoded := DecodeAt(s, i);
        ToUtf16Resume(s, i, wide, decoded);
        if decoded.Failure? {
          return Failure(decoded.error);
        }
        var (codepoint, bytesRead) := decoded.value;
        if codepoint > 0x10FFFF {
          return Failure(InvalidCodepoint);
        }
        var units := EmitUnits(codepoint);
        wide := wide + units;
        i := i + bytesRead;
      }
      assert wide + [] == wide;
      r := Success(wide);
    }
  }

  /**
   * `accel::utf8::string_iterator`: `m_str` refers to the buffer of a
   * string, here the string object itself, so a change to that string is
   * seen through the iterator.
   */
  class StringIterator {
    const str: Utf8String
    var index: nat

    /** `string_iterator(str, index)`. */
    constructor (str: Utf8String, index: nat)
      ensures this.str == str && this.index == index
    {
      this.str := str;
      this.index := index;
    }

    /**
     * `advance()`: steps the index by the lead-byte length of the byte
     * there; at `size()` that byte is the NUL, a step of one.
     */
    method Advance()
      requires index <= |str.bytes|
      modifies this
      ensures index == Step(str.bytes, old(index))
    {
      var size := GetCodepointSize(ByteAt(str.bytes, index));
      index := index + size;
    }

    /** `operator++()`: advances and returns this iterator. */
    method Increment() returns (self: StringIterator)
      requires index <= |str.bytes|
      modifies this
      ensures self == this
      ensures index == Step(str.bytes, old(index))
    {
      Advance();
      self := this;
    }

    /** `operator==`: the same buffer and the same index. */
    method Equals(other: StringIterator) returns (eq: bool)
      ensures eq <==> str == other.str && index == other.index
    {
      eq := str == other.str && index == other.index;
    }

    /** `operator!=`. */
    method NotEquals(other: StringIterator) returns (ne: bool)
      ensures ne <==> !(str == other.str && index == other.index)
    {
      var eq := Equals(other);
      ne := !eq;
    }

    /**
     * `operator*()`: a new string holding the sequence at the index, as
     * `std::string::substr` clips it; at `size()` it is empty.
     */
    method Deref() returns (r: Utf8String)
      requires index <= |str.bytes|
      ensures fresh(r) && r.bytes == SequenceAt(str.bytes, index)
    {
      var size := GetCodepointSize(ByteAt(str.bytes, index));
      r := new Utf8String(str.bytes[index .. Min(index + size, |str.bytes|)]);
    }
  }
}
