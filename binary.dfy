/** Binary strings: JavaScript strings whose every code unit is below 256,
    the form in which the application hands bytes to `btoa` and receives
    them back from `atob`. */
module Binary {

  /** A byte, as held in a `Uint8Array`. */
  type byte = x: int | 0 <= x < 256

  /** Every character of `s` is a Latin-1 code point, so `btoa` accepts it. */
  predicate IsBinary(s: string) {
    forall i :: 0 <= i < |s| ==> s[i] as int < 256
  }

  /** The fold `bytes.reduce((data, byte) => data + String.fromCharCode(byte), '')`
      of src/App.jsx:54: one character per byte, appended left to right. */
  function FromBytes(bs: seq<byte>): (s: string)
    ensures |s| == |bs|
    ensures forall i :: 0 <= i < |bs| ==> s[i] as int == bs[i]
    decreases |bs|
  {
    if |bs| == 0 then "" else FromBytes(bs[..|bs| - 1]) + [bs[|bs| - 1] as char]
  }

  /** Storing the code of `c` into a `Uint8Array` slot keeps it modulo 256. */
  function ToUint8(c: char): byte {
    (c as int) % 256
  }

  /** The bytes `typedarray[i] = s.charCodeAt(i)` produces, slot by slot. */
  function CharCodes(s: string): (r: seq<byte>)
    ensures |r| == |s|
    ensures forall i :: 0 <= i < |s| ==> r[i] == ToUint8(s[i])
    decreases |s|
  {
    if |s| == 0 then [] else [ToUint8(s[0])] + CharCodes(s[1..])
  }

  /** The per-character byte conversion is a left inverse of the
      `fromCharCode` fold. */
  lemma CharCodesFromBytes(bs: seq<byte>)
    ensures CharCodes(FromBytes(bs)) == bs
  {
  }

  /** On binary strings the fold is also a right inverse: no information is
      lost in either direction. */
  lemma FromBytesCharCodes(s: string)
    requires IsBinary(s)
    ensures FromBytes(CharCodes(s)) == s
  {
  }

  /** The fold never produces a character `btoa` would refuse. */
  lemma FromBytesIsBinary(bs: seq<byte>)
    ensures IsBinary(FromBytes(bs))
  {
  }
}
