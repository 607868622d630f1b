/**
 * Python 2 byte strings. The relay's `str` values are sequences of octets;
 * here they are either `seq<Byte>` or a `string` whose characters are all
 * below 256, and the two views convert into each other.
 */
module Bytes {
  /** One octet (`ord(c)` of one character of a byte string). */
  type Byte = b: int | 0 <= b < 256

  /** A text value that is also a byte string: no character above 255. */
  predicate IsByteString(s: string) {
    forall i :: 0 <= i < |s| ==> s[i] as int < 256
  }

  /** The octets of a byte string. */
  function ToBytes(s: string): (b: seq<Byte>)
    requires IsByteString(s)
    ensures |b| == |s|
    ensures forall i :: 0 <= i < |s| ==> b[i] == s[i] as int
  {
    seq(|s|, i requires 0 <= i < |s| => s[i] as int)
  }

  /** The byte string holding the given octets. */
  function ToText(b: seq<Byte>): (s: string)
    ensures IsByteString(s)
    ensures ToBytes(s) == b
  {
    seq(|b|, i requires 0 <= i < |b| => b[i] as char)
  }

  /** Converting a byte string to octets and back gives the string itself. */
  lemma TextOfBytes(s: string)
    requires IsByteString(s)
    ensures ToText(ToBytes(s)) == s
  {
  }
}
