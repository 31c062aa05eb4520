/** `CheapSoundFile.bytesToHex`: the lowercase hexadecimal rendering of a
    byte array (used for the MD5 fingerprint), with its inverse. */
module Hex {
  import opened JavaInt
  import opened Wrappers

  /** The table `HEX_CHARS`. */
  const HexChars: seq<char> := ['0', '1', '2', '3', '4', '5', '6', '7',
                                '8', '9', 'a', 'b', 'c', 'd', 'e', 'f']

  predicate IsHexDigit(c: char) {
    '0' <= c <= '9' || 'a' <= c <= 'f'
  }

  /** `(b >>> 4) & 0xf`, where `b` is first widened (sign-extended) to `int`. */
  function HighIndex(b: int8): int {
    (Unsigned32(b as int) / 16) % 16
  }

  /** `b & 0xf`, where `b` is first widened (sign-extended) to `int`. */
  function LowIndex(b: int8): int {
    Unsigned32(b as int) % 16
  }

  /** The two table indices are the high and the low nibble of the byte's
      unsigned value, so together they determine the byte. */
  lemma NibblesOfByte(b: int8)
    ensures 0 <= HighIndex(b) < 16 && 0 <= LowIndex(b) < 16
    ensures 16 * HighIndex(b) + LowIndex(b) == (b as int) % 256
  {
    var x := b as int;
    if x >= 0 {
      assert Unsigned32(x) == x;
    } else {
      assert Unsigned32(x) == x + 0x1_0000_0000;
      assert (x + 0x1_0000_0000) / 16 == 0x1000_0000 + (x + 256) / 16 - 16;
      assert (x + 0x1_0000_0000) % 16 == (x + 256) % 16;
    }
  }

  /** The two characters written for one byte, high nibble first. */
  function ByteChars(b: int8): (cs: seq<char>)
    ensures |cs| == 2 && IsHexDigit(cs[0]) && IsHexDigit(cs[1])
  {
    NibblesOfByte(b);
    [HexChars[HighIndex(b)], HexChars[LowIndex(b)]]
  }

  /** Specification of `bytesToHex`: each byte in turn contributes its two digits. */
  function HexOf(bytes: seq<int8>): seq<char>
  {
    if bytes == [] then [] else HexOf(bytes[..|bytes| - 1]) + ByteChars(bytes[|bytes| - 1])
  }

  /** The value of one lowercase hexadecimal digit. */
  function DigitValue(c: char): (v: Option<int>)
    ensures v.Some? <==> IsHexDigit(c)
    ensures v.Some? ==> 0 <= v.value < 16
  {
    if '0' <= c <= '9' then Some(c as int - '0' as int)
    else if 'a' <= c <= 'f' then Some(c as int - 'a' as int + 10)
    else None
  }

  /** The byte whose unsigned value is `16 * hi + lo`. */
  function ByteOf(hi: int, lo: int): int8
    requires 0 <= hi < 16 && 0 <= lo < 16
  {
    var v := 16 * hi + lo;
    if v < 128 then v as int8 else (v - 256) as int8
  }

  lemma ByteOfNibbles(b: int8)
    ensures 0 <= HighIndex(b) < 16 && 0 <= LowIndex(b) < 16
    ensures ByteOf(HighIndex(b), LowIndex(b)) == b
  {
    NibblesOfByte(b);
    var v := 16 * HighIndex(b) + LowIndex(b);
    if b >= 0 {
      assert v == b as int;
    } else {
      assert v == b as int + 256;
    }
  }

  lemma NibblesOfByteOf(hi: int, lo: int)
    requires 0 <= hi < 16 && 0 <= lo < 16
    ensures HighIndex(ByteOf(hi, lo)) == hi && LowIndex(ByteOf(hi, lo)) == lo
  {
    var b := ByteOf(hi, lo);
    NibblesOfByte(b);
    assert (b as int) % 256 == 16 * hi + lo;
  }

  /** The inverse of `HexOf`: decodes pairs of lowercase digits back into bytes;
      `None` for an odd length or a character that is not a lowercase digit. */
  function Unhex(s: seq<char>): Option<seq<int8>>
  {
    if s == [] then Some([])
    else if |s| == 1 then None
    else
      var front := Unhex(s[..|s| - 2]);
      var hi, lo := DigitValue(s[|s| - 2]), DigitValue(s[|s| - 1]);
      if front.Some? && hi.Some? && lo.Some? then Some(front.value + [ByteOf(hi.value, lo.value)])
      else None
  }

  lemma DigitValueOfHexChar(k: int)
    requires 0 <= k < 16
    ensures DigitValue(HexChars[k]) == Some(k)
  {
  }

  /** Appending a byte appends its two digits. */
  lemma HexSnoc(bytes: seq<int8>, b: int8)
    ensures HexOf(bytes + [b]) == HexOf(bytes) + ByteChars(b)
  {
    assert (bytes + [b])[..|bytes|] == bytes;
  }

  /** Layout of the encoding: two digits per byte, the high nibble at the even
      position and the low nibble at the odd one. */
  lemma {:induction false} HexLayout(bytes: seq<int8>)
    ensures |HexOf(bytes)| == 2 * |bytes|
    ensures forall k :: 0 <= k < |HexOf(bytes)| ==> IsHexDigit(HexOf(bytes)[k])
    ensures forall i :: 0 <= i < |bytes| ==>
      HexOf(bytes)[2 * i] == HexChars[HighIndex(bytes[i])] &&
      HexOf(bytes)[2 * i + 1] == HexChars[LowIndex(bytes[i])]
  {
    if bytes != [] {
      var front, b := bytes[..|bytes| - 1], bytes[|bytes| - 1];
      HexLayout(front);
      HexSnoc(front, b);
      assert front + [b] == bytes;
      var h, cs := HexOf(front), ByteChars(b);
      var all := HexOf(bytes);
      assert all == h + cs;
      forall k | 0 <= k < |all|
        ensures IsHexDigit(all[k])
      {
        if k < |h| { assert all[k] == h[k]; } else { assert all[k] == cs[k - |h|]; }
      }
      forall i | 0 <= i < |bytes|
        ensures all[2 * i] == HexChars[HighIndex(bytes[i])]
        ensures all[2 * i + 1] == HexChars[LowIndex(bytes[i])]
      {
        if i < |front| {
          assert bytes[i] == front[i];
          assert all[2 * i] == h[2 * i] && all[2 * i + 1] == h[2 * i + 1];
        } else {
          assert 2 * i == |h|;
          assert all[2 * i] == cs[0] && all[2 * i + 1] == cs[1];
        }
      }
    }
  }

  /** Decoding the encoding gives back the bytes. */
  lemma {:induction false} UnhexHex(bytes: seq<int8>)
    ensures Unhex(HexOf(bytes)) == Some(bytes)
  {
    if bytes != [] {
      var front, b := bytes[..|bytes| - 1], bytes[|bytes| - 1];
      UnhexHex(front);
      var s := HexOf(bytes);
      var cs := ByteChars(b);
      assert s == HexOf(front) + cs;
      assert s[..|s| - 2] == HexOf(front);
      ByteOfNibbles(b);
      DigitValueOfHexChar(HighIndex(b));
      DigitValueOfHexChar(LowIndex(b));
      assert front + [b] == bytes;
    }
  }

  /** Decoding two more digits appends the byte they spell. */
  lemma UnhexSnoc(front: seq<char>, c1: char, c2: char)
    requires Unhex(front).Some? && IsHexDigit(c1) && IsHexDigit(c2)
    ensures Unhex(front + [c1, c2]) ==
      Some(Unhex(front).value + [ByteOf(DigitValue(c1).value, DigitValue(c2).value)])
  {
    var s := front + [c1, c2];
    assert s[..|s| - 2] == front;
  }

  /** The digits written for the byte two digits spell are those digits. */
  lemma ByteCharsOfDigits(c1: char, c2: char)
    requires IsHexDigit(c1) && IsHexDigit(c2)
    ensures ByteChars(ByteOf(DigitValue(c1).value, DigitValue(c2).value)) == [c1, c2]
  {
    var hi, lo := DigitValue(c1).value, DigitValue(c2).value;
    NibblesOfByteOf(hi, lo);
    HexDigitDetermined(c1, hi);
    HexDigitDetermined(c2, lo);
  }

  /** Conversely, every even-length string of lowercase digits is the encoding
      of the bytes it decodes to. */
  lemma {:induction false} HexUnhex(s: seq<char>)
    requires |s| % 2 == 0
    requires forall k :: 0 <= k < |s| ==> IsHexDigit(s[k])
    ensures Unhex(s).Some? && HexOf(Unhex(s).value) == s
  {
    if s != [] {
      var front, c1, c2 := s[..|s| - 2], s[|s| - 2], s[|s| - 1];
      assert s == front + [c1, c2];
      assert forall k :: 0 <= k < |front| ==> front[k] == s[k];
      HexUnhex(front);
      UnhexSnoc(front, c1, c2);
      HexSnoc(Unhex(front).value, ByteOf(DigitValue(c1).value, DigitValue(c2).value));
      ByteCharsOfDigits(c1, c2);
    }
  }

  /** A lowercase digit is the table entry at its own value. */
  lemma HexDigitDetermined(c: char, k: int)
    requires DigitValue(c) == Some(k)
    ensures 0 <= k < 16 && HexChars[k] == c
  {
  }

  /** `bytesToHex`: fills a buffer of twice the input length through the
      write position `x`, two digits per byte. The length `hash.length * 2`
      must be a non-negative `int`: from 2^30 bytes on it wraps to a negative
      size and Java throws `NegativeArraySizeException`. */
  method BytesToHex(hash: array<int8>) returns (s: string)
    requires 2 * hash.Length < 0x8000_0000
    ensures s == HexOf(hash[..])
    ensures |s| == 2 * hash.Length
    ensures Unhex(s) == Some(hash[..])
  {
    var buf := new char[hash.Length * 2];
    var i, x := 0, 0;
    while i < hash.Length
      invariant 0 <= i <= hash.Length && x == 2 * i
      invariant buf[..x] == HexOf(hash[..i])
    {
      assert hash[..i + 1][..i] == hash[..i];
      NibblesOfByte(hash[i]);
      buf[x] := HexChars[HighIndex(hash[i])];
      x := x + 1;
      buf[x] := HexChars[LowIndex(hash[i])];
      x := x + 1;
      assert buf[..x] == buf[..x - 2] + [buf[x - 2], buf[x - 1]];
      i := i + 1;
    }
    assert hash[..i] == hash[..];
    s := buf[..];
    HexLayout(hash[..]);
    UnhexHex(hash[..]);
  }
}
