/**
 The library semantics the generators encode: the java.lang.String operations
 on concrete strings of UTF-16 code units, and the link between a concrete
 string and the (length, accessor) value of a string symbol.
 */
module JavaString {
  import opened Exprs
  import opened Utf16

  type JString = seq<Unit>

  datatype Option<T> = None | Some(value: T)

  /** `sv` holds the concrete string `s`: same length, same units; reads past the end are free. */
  ghost predicate Represents(sv: StrVal, s: JString)
  {
    sv.len == |s| && forall i :: 0 <= i < |s| ==> sv.at(i) == s[i]
  }

  /** The value of a string symbol that reads `fill` outside the string. */
  function Materialize(s: JString, fill: Unit): (sv: StrVal)
    ensures Represents(sv, s)
    ensures forall i :: !(0 <= i < |s|) ==> sv.at(i) == fill
  {
    StrVal(|s|, i => if 0 <= i < |s| then s[i] else fill)
  }

  /** String.startsWith(prefix, toffset): false for a negative or too large offset. */
  predicate StartsWith(s: JString, prefix: JString, offset: int)
  {
    0 <= offset && offset + |prefix| <= |s| && s[offset..offset + |prefix|] == prefix
  }

  /** String.endsWith(suffix). */
  predicate EndsWith(s: JString, suffix: JString)
  {
    |suffix| <= |s| && s[|s| - |suffix|..] == suffix
  }

  /** String.isEmpty(). */
  predicate IsEmpty(s: JString)
  {
    |s| == 0
  }

  /** `sub` occurs in `s` starting at unit index `k`. */
  predicate OccursAt(s: JString, sub: JString, k: int)
  {
    0 <= k <= |s| - |sub| && s[k..k + |sub|] == sub
  }

  /** String.contains(sub): `sub` occurs at some position of `s`. */
  ghost predicate Contains(s: JString, sub: JString)
  {
    exists k :: OccursAt(s, sub, k)
  }

  /** String.codePointAt(index): a pair only when both of its units lie inside the string. */
  function CodePointAt(s: JString, index: int): CodePoint
    requires 0 <= index < |s|
  {
    if IsHighSurrogate(s[index]) && index + 1 < |s| && IsLowSurrogate(s[index + 1])
    then DecodePair(s[index], s[index + 1])
    else s[index]
  }

  /** String.codePointBefore(index): a pair only when both of its units lie inside the string. */
  function CodePointBefore(s: JString, index: int): CodePoint
    requires 1 <= index <= |s|
  {
    if IsLowSurrogate(s[index - 1]) && 0 <= index - 2 && IsHighSurrogate(s[index - 2])
    then DecodePair(s[index - 2], s[index - 1])
    else s[index - 1]
  }

  /** The number of code points of `s`: a high surrogate followed by a low one counts once. */
  function CodePointCount(s: JString): nat
  {
    if |s| == 0 then 0
    else if 2 <= |s| && IsHighSurrogate(s[0]) && IsLowSurrogate(s[1]) then 1 + CodePointCount(s[2..])
    else 1 + CodePointCount(s[1..])
  }

  /** Every code point takes one or two units. */
  lemma {:induction false} CodePointCountBounds(s: JString)
    ensures (|s| + 1) / 2 <= CodePointCount(s) <= |s|
  {
    if |s| == 0 {
    } else if 2 <= |s| && IsHighSurrogate(s[0]) && IsLowSurrogate(s[1]) {
      CodePointCountBounds(s[2..]);
    } else {
      CodePointCountBounds(s[1..]);
    }
  }

  /** Moving forward by `k` code points from unit index `x`; None when the string ends first. */
  function OffsetForward(s: JString, x: int, k: nat): Option<int>
    requires 0 <= x <= |s|
    decreases k
  {
    if k == 0 then Some(x)
    else if x == |s| then None
    else if IsHighSurrogate(s[x]) && x + 1 < |s| && IsLowSurrogate(s[x + 1]) then OffsetForward(s, x + 2, k - 1)
    else OffsetForward(s, x + 1, k - 1)
  }

  /** Moving backward by `k` code points from unit index `x`; None when the string starts first. */
  function OffsetBackward(s: JString, x: int, k: nat): Option<int>
    requires 0 <= x <= |s|
    decreases k
  {
    if k == 0 then Some(x)
    else if x == 0 then None
    else if IsLowSurrogate(s[x - 1]) && 0 < x - 1 && IsHighSurrogate(s[x - 2]) then OffsetBackward(s, x - 2, k - 1)
    else OffsetBackward(s, x - 1, k - 1)
  }

  /**
   String.offsetByCodePoints(index, codePointOffset); None where Java throws
   IndexOutOfBoundsException.
   */
  function OffsetByCodePoints(s: JString, index: int, offset: int): Option<int>
  {
    if !(0 <= index <= |s|) then None
    else if 0 <= offset then OffsetForward(s, index, offset)
    else OffsetBackward(s, index, -offset)
  }

  lemma {:induction false} OffsetForwardBounds(s: JString, x: int, k: nat)
    requires 0 <= x <= |s|
    ensures OffsetForward(s, x, k).Some? ==>
      x + k <= OffsetForward(s, x, k).value <= x + 2 * k
    decreases k
  {
    if k == 0 || x == |s| {
    } else if IsHighSurrogate(s[x]) && x + 1 < |s| && IsLowSurrogate(s[x + 1]) {
      OffsetForwardBounds(s, x + 2, k - 1);
    } else {
      OffsetForwardBounds(s, x + 1, k - 1);
    }
  }

  lemma {:induction false} OffsetBackwardBounds(s: JString, x: int, k: nat)
    requires 0 <= x <= |s|
    ensures OffsetBackward(s, x, k).Some? ==>
      x - 2 * k <= OffsetBackward(s, x, k).value <= x - k
    decreases k
  {
    if k == 0 || x == 0 {
    } else if IsLowSurrogate(s[x - 1]) && 0 < x - 1 && IsHighSurrogate(s[x - 2]) {
      OffsetBackwardBounds(s, x - 2, k - 1);
    } else {
      OffsetBackwardBounds(s, x - 1, k - 1);
    }
  }

  /** Java's answer lies between index + offset and index + 2 * offset, whatever the sign of offset. */
  lemma {:induction false} OffsetByCodePointsBounds(s: JString, index: int, offset: int)
    ensures OffsetByCodePoints(s, index, offset).Some? ==>
      var r := OffsetByCodePoints(s, index, offset).value;
      && (0 <= offset ==> index + offset <= r <= index + 2 * offset)
      && (offset < 0 ==> index + 2 * offset <= r <= index + offset)
  {
    if 0 <= index <= |s| {
      if 0 <= offset {
        OffsetForwardBounds(s, index, offset);
      } else {
        OffsetBackwardBounds(s, index, -offset);
      }
    }
  }
}
