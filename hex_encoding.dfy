/** Lower-case Base16: the alphabet of section 8 of RFC 4648 with the letters
    in lower case, as `printf("%02x")` writes each digest byte. */
module HexEncoding {
  import opened Wrappers
  import opened FileModel

  /** The alphabet, indexed by digit value. */
  const LowerHexDigits: string := "0123456789abcdef"

  predicate IsLowerHexDigit(c: char)
  {
    '0' <= c <= '9' || 'a' <= c <= 'f'
  }

  /** The digit for a nibble value. */
  function HexDigit(v: int): (c: char)
    requires 0 <= v < 16
    ensures IsLowerHexDigit(c)
  {
    if v < 10 then ('0' as int + v) as char else ('a' as int + v - 10) as char
  }

  /** Digit v is entry v of the alphabet, and the alphabet holds exactly the
      lower-case hex digits. */
  lemma HexDigitInAlphabet(v: int)
    requires 0 <= v < 16
    ensures HexDigit(v) == LowerHexDigits[v]
    ensures forall c :: c in LowerHexDigits <==> IsLowerHexDigit(c)
  {
  }

  /** The two characters `%02x` prints for one byte: high nibble first. */
  function ByteToHex(b: byte): (s: string)
    ensures |s| == 2
  {
    [HexDigit(b as int / 16), HexDigit(b as int % 16)]
  }

  /** Encoding of a byte string, each byte appended in order. */
  function Hex(bs: Bytes): (s: string)
    ensures |s| == 2 * |bs|
  {
    if bs == [] then [] else Hex(bs[..|bs| - 1]) + ByteToHex(bs[|bs| - 1])
  }

  /** The value of a lower-case hex digit; `None` for any other character. */
  function DigitValue(c: char): (v: Option<nat>)
    ensures v.Some? <==> IsLowerHexDigit(c)
    ensures v.Some? ==> v.value < 16 && HexDigit(v.value) == c
  {
    if '0' <= c <= '9' then Some((c - '0') as nat)
    else if 'a' <= c <= 'f' then Some((c - 'a') as nat + 10)
    else None
  }

  /** The decoder: the inverse of `Hex` on its image. */
  function Unhex(s: string): Option<Bytes>
  {
    if s == [] then Some([])
    else if |s| < 2 then None
    else
      var prefix := Unhex(s[..|s| - 2]);
      var last := UnhexPair(s[|s| - 2], s[|s| - 1]);
      if prefix.Some? && last.Some? then Some(prefix.value + [last.value]) else None
  }

  /** The byte a pair of hex digits stands for, high nibble first. */
  function UnhexPair(hi: char, lo: char): Option<byte>
  {
    var h := DigitValue(hi);
    var l := DigitValue(lo);
    if h.Some? && l.Some? then Some((h.value * 16 + l.value) as byte) else None
  }

  lemma DigitValueOfHexDigit(v: int)
    requires 0 <= v < 16
    ensures DigitValue(HexDigit(v)) == Some(v)
  {
  }

  lemma {:induction false} HexAt(bs: Bytes, k: nat)
    requires k < |bs|
    ensures Hex(bs)[2 * k] == HexDigit(bs[k] as int / 16)
    ensures Hex(bs)[2 * k + 1] == HexDigit(bs[k] as int % 16)
  {
    if k < |bs| - 1 {
      HexAt(bs[..|bs| - 1], k);
    }
  }

  /** Every character of an encoding is a lower-case hex digit. */
  lemma HexIsLowerCase(bs: Bytes)
    ensures forall i :: 0 <= i < |Hex(bs)| ==> IsLowerHexDigit(Hex(bs)[i])
  {
    forall i | 0 <= i < |Hex(bs)|
      ensures IsLowerHexDigit(Hex(bs)[i])
    {
      HexAt(bs, i / 2);
    }
  }

  /** The two nibbles of a byte give the byte back. */
  lemma NibblesRecombine(b: byte)
    ensures ((b as int / 16) * 16 + b as int % 16) as byte == b
  {
  }

  /** Decoding one more encoded byte appends that byte. */
  lemma UnhexAppendByte(prefix: string, b: byte)
    requires Unhex(prefix).Some?
    ensures Unhex(prefix + ByteToHex(b)) == Some(Unhex(prefix).value + [b])
  {
    var hi, lo := b as int / 16, b as int % 16;
    DigitValueOfHexDigit(hi);
    DigitValueOfHexDigit(lo);
    NibblesRecombine(b);
    assert UnhexPair(HexDigit(hi), HexDigit(lo)) == Some(b);
    UnhexLastPair(prefix, HexDigit(hi), HexDigit(lo));
  }

  /** One step of the decoder, unfolded. */
  lemma UnhexLastPair(prefix: string, hi: char, lo: char)
    ensures Unhex(prefix + [hi, lo]) ==
      if Unhex(prefix).Some? && UnhexPair(hi, lo).Some? then Some(Unhex(prefix).value + [UnhexPair(hi, lo).value]) else None
  {
    var s := prefix + [hi, lo];
    assert s[..|s| - 2] == prefix;
  }

  /** Decoding an encoding gives the bytes back. */
  lemma {:induction false} UnhexHex(bs: Bytes)
    ensures Unhex(Hex(bs)) == Some(bs)
  {
    if bs != [] {
      var init := bs[..|bs| - 1];
      var b := bs[|bs| - 1];
      UnhexHex(init);
      assert Hex(bs) == Hex(init) + ByteToHex(b);
      UnhexAppendByte(Hex(init), b);
      assert init + [b] == bs;
    }
  }

  /** The encoding is injective: different digests give different strings. */
  lemma HexInjective(a: Bytes, b: Bytes)
    requires Hex(a) == Hex(b)
    ensures a == b
  {
    UnhexHex(a);
    UnhexHex(b);
  }

  /** No encoding contains the C string terminator. */
  lemma HexHasNoNul(bs: Bytes)
    ensures '\0' !in Hex(bs)
  {
    HexIsLowerCase(bs);
  }
}
