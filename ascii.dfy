/** Go strings as byte sequences, and the ASCII-only lower-casing that the
    selector constructors apply to tag names and attribute keys. */
module Ascii {
  /** One byte of a Go string. */
  type Byte = b: int | 0 <= b < 256

  /** A Go string: an immutable sequence of bytes. */
  type Bytes = seq<Byte>

  /** The distance from an ASCII capital to its lower-case letter. */
  const CaseOffset: int := 'a' as int - 'A' as int

  predicate IsUpper(c: Byte) {
    'A' as int <= c <= 'Z' as int
  }

  predicate NoUpper(s: Bytes) {
    forall i :: 0 <= i < |s| ==> !IsUpper(s[i])
  }

  function LowerByte(c: Byte): Byte {
    if IsUpper(c) then c + CaseOffset else c
  }

  /** The value of toLowerASCII: every ASCII capital is replaced by its
      lower-case letter, every other byte (including non-ASCII ones) is kept. */
  function LowerASCII(s: Bytes): (r: Bytes)
    ensures |r| == |s|
    ensures forall i :: 0 <= i < |s| ==>
      r[i] == (if IsUpper(s[i]) then s[i] + CaseOffset else s[i])
    ensures NoUpper(r)
  {
    if s == [] then [] else [LowerByte(s[0])] + LowerASCII(s[1..])
  }

  /** toLowerASCII: scans the string and allocates a copy only at the first
      capital, writing the lower-case byte into the copy; when no capital is
      found the input itself is returned. */
  method ToLowerASCII(s: Bytes) returns (r: Bytes)
    ensures r == LowerASCII(s)
    ensures NoUpper(s) ==> r == s
  {
    var b: array?<Byte> := null;
    for i := 0 to |s|
      invariant b == null ==> forall k :: 0 <= k < i ==> !IsUpper(s[k])
      invariant b != null ==> fresh(b) && b.Length == |s|
      invariant b != null ==> forall k :: 0 <= k < i ==> b[k] == LowerByte(s[k])
      invariant b != null ==> forall k :: i <= k < |s| ==> b[k] == s[k]
    {
      if IsUpper(s[i]) {
        if b == null {
          b := new Byte[|s|];
          forall k | 0 <= k < |s| {
            b[k] := s[k];
          }
        }
        b[i] := s[i] + CaseOffset;
      }
    }
    if b == null {
      LowerASCIIFixedPoint(s);
      return s;
    }
    r := b[..];
    assert r == LowerASCII(s);
    LowerASCIIFixedPoint(s);
  }

  /** Lower-casing leaves a string unchanged exactly when it has no capitals. */
  lemma {:induction false} LowerASCIIFixedPoint(s: Bytes)
    ensures LowerASCII(s) == s <==> NoUpper(s)
  {
    if NoUpper(s) {
      assert forall i :: 0 <= i < |s| ==> LowerASCII(s)[i] == s[i];
    }
  }

  /** Lower-casing twice is the same as lower-casing once. */
  lemma LowerASCIIIdempotent(s: Bytes)
    ensures LowerASCII(LowerASCII(s)) == LowerASCII(s)
  {
    LowerASCIIFixedPoint(LowerASCII(s));
  }

  /** Two strings that differ only in the case of ASCII letters fold to the
      same string. */
  lemma LowerASCIIEqualFold(x: Bytes, y: Bytes)
    requires |x| == |y|
    requires forall i :: 0 <= i < |x| ==> LowerByte(x[i]) == LowerByte(y[i])
    ensures LowerASCII(x) == LowerASCII(y)
  {
    assert forall i :: 0 <= i < |x| ==> LowerASCII(x)[i] == LowerASCII(y)[i];
  }
}
