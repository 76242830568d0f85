/**
 UTF-16 as section 2 of RFC 2781 defines it: the reference the code-point
 generators are measured against.
 */
module Utf16 {
  import opened Exprs

  /** Code points Java accepts: 0 to 0x10FFFF, lone surrogates included. */
  type CodePoint = c: int | 0 <= c < 0x110000

  predicate IsHighSurrogate(c: int)
  {
    0xD800 <= c <= 0xDBFF
  }

  predicate IsLowSurrogate(c: int)
  {
    0xDC00 <= c <= 0xDFFF
  }

  /** No code unit is both a high and a low surrogate. */
  lemma SurrogatesDisjoint(c: int)
    ensures !(IsHighSurrogate(c) && IsLowSurrogate(c))
  {
  }

  /**
   Encoding (RFC 2781, section 2.1): U below 0x10000 is one unit; otherwise
   U' = U - 0x10000 is split into its high ten bits, added to 0xD800, and its
   low ten bits, added to 0xDC00.
   */
  function Encode(c: CodePoint): (units: seq<Unit>)
    ensures c < 0x10000 ==> units == [c]
    ensures 0x10000 <= c ==>
      |units| == 2 && IsHighSurrogate(units[0]) && IsLowSurrogate(units[1])
  {
    if c < 0x10000 then [c]
    else
      var u := c - 0x10000;
      [0xD800 + u / 0x400, 0xDC00 + u % 0x400]
  }

  /**
   Decoding of a surrogate pair (RFC 2781, section 2.2): the low ten bits of
   W1 and of W2 form U', and U = U' + 0x10000.
   */
  function DecodePair(hi: int, lo: int): (c: CodePoint)
    requires IsHighSurrogate(hi) && IsLowSurrogate(lo)
    ensures 0x10000 <= c
  {
    0x10000 + (hi - 0xD800) * 0x400 + (lo - 0xDC00)
  }

  /** Decoding undoes encoding for every supplementary code point. */
  lemma DecodeEncode(c: CodePoint)
    requires 0x10000 <= c
    ensures DecodePair(Encode(c)[0], Encode(c)[1]) == c
  {
    var u := c - 0x10000;
    assert u == (u / 0x400) * 0x400 + u % 0x400;
  }

  /** Encoding undoes decoding for every surrogate pair. */
  lemma EncodeDecode(hi: int, lo: int)
    requires IsHighSurrogate(hi) && IsLowSurrogate(lo)
    ensures Encode(DecodePair(hi, lo)) == [hi, lo]
  {
    var u := DecodePair(hi, lo) - 0x10000;
    assert u == (hi - 0xD800) * 0x400 + (lo - 0xDC00);
    assert u / 0x400 == hi - 0xD800;
    assert u % 0x400 == lo - 0xDC00;
  }
}
