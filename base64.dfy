/** The two browser functions the application uses to keep a PDF's bytes in
    JSON: `btoa`, which encodes a binary string with the Base64 alphabet of
    section 4 of RFC 4648 (with `=` padding), and `atob`, which decodes with
    the "forgiving-base64 decode" algorithm of the HTML Living Standard. */
module Base64 {
  import opened Wrappers
  import opened Binary

  /** A 6-bit group, the value one Base64 character stands for. */
  type sextet = x: int | 0 <= x < 64

  const Pad: char := '='

  /** The character for `x` in the alphabet of RFC 4648, Table 1. */
  function Symbol(x: sextet): (c: char)
    ensures c != Pad
  {
    if x < 26 then ('A' as int + x) as char
    else if x < 52 then ('a' as int + (x - 26)) as char
    else if x < 62 then ('0' as int + (x - 52)) as char
    else if x == 62 then '+'
    else '/'
  }

  /** The value of an alphabet character, or None for any other character. */
  function ValueOf(c: char): (r: Option<sextet>)
    ensures r.Some? ==> Symbol(r.value) == c
  {
    if 'A' <= c <= 'Z' then Some(c as int - 'A' as int)
    else if 'a' <= c <= 'z' then Some(c as int - 'a' as int + 26)
    else if '0' <= c <= '9' then Some(c as int - '0' as int + 52)
    else if c == '+' then Some(62)
    else if c == '/' then Some(63)
    else None
  }

  /** Every alphabet character is recognised with its own value. */
  lemma ValueOfSymbol(x: sextet)
    ensures ValueOf(Symbol(x)) == Some(x)
  {
  }

  /** The bytes cut into 6-bit groups: three bytes give four groups, and a
      final one or two bytes give two or three groups, zero-filled. */
  function Sextets(bs: seq<byte>): (r: seq<sextet>)
    decreases |bs|
  {
    if |bs| == 0 then []
    else if |bs| == 1 then [bs[0] / 4, (bs[0] % 4) * 16]
    else if |bs| == 2 then [bs[0] / 4, (bs[0] % 4) * 16 + bs[1] / 16, (bs[1] % 16) * 4]
    else
      [bs[0] / 4, (bs[0] % 4) * 16 + bs[1] / 16, (bs[1] % 16) * 4 + bs[2] / 64, bs[2] % 64]
      + Sextets(bs[3..])
  }

  /** The byte made of all six bits of `a` and the top two of `b`. */
  function First(a: sextet, b: sextet): byte { (a as int) * 4 + (b as int) / 16 }

  /** The byte made of the low four bits of `a` and the top four of `b`. */
  function Second(a: sextet, b: sextet): byte { ((a as int) % 16) * 16 + (b as int) / 4 }

  /** The byte made of the low two bits of `a` and all six of `b`. */
  function Third(a: sextet, b: sextet): byte { ((a as int) % 4) * 64 + (b as int) }

  /** 6-bit groups joined back into bytes; a final two or three groups give
      one or two bytes and the left-over bits are dropped. */
  function Octets(s: seq<sextet>): (r: seq<byte>)
    requires |s| % 4 != 1
    decreases |s|
  {
    if |s| == 0 then []
    else if |s| == 2 then [First(s[0], s[1])]
    else if |s| == 3 then [First(s[0], s[1]), Second(s[1], s[2])]
    else [First(s[0], s[1]), Second(s[1], s[2]), Third(s[2], s[3])] + Octets(s[4..])
  }

  /** Four groups per full three bytes, plus two or three for a partial one. */
  lemma {:induction false} SextetsLength(bs: seq<byte>)
    ensures |Sextets(bs)| == 4 * (|bs| / 3) + (if |bs| % 3 == 0 then 0 else |bs| % 3 + 1)
    decreases |bs|
  {
    if |bs| >= 3 {
      SextetsLength(bs[3..]);
    }
  }

  /** Each of the three bytes is recovered from the groups cut out of it. */
  lemma JoinSplit(b0: byte, b1: byte, b2: byte)
    ensures First(b0 / 4, (b0 % 4) * 16 + b1 / 16) == b0
    ensures Second((b0 % 4) * 16 + b1 / 16, (b1 % 16) * 4 + b2 / 64) == b1
    ensures Third((b1 % 16) * 4 + b2 / 64, b2 % 64) == b2
  {
    var x1 := (b0 % 4) * 16 + b1 / 16;
    var x2 := (b1 % 16) * 4 + b2 / 64;
    assert x1 / 16 == b0 % 4 && x1 % 16 == b1 / 16;
    assert x2 / 4 == b1 % 16 && x2 % 4 == b2 / 64;
  }

  /** Grouping bytes into sextets and back loses nothing. */
  lemma {:induction false} OctetsOfSextets(bs: seq<byte>)
    ensures |Sextets(bs)| % 4 != 1
    ensures Octets(Sextets(bs)) == bs
    decreases |bs|
  {
    SextetsLength(bs);
    if |bs| >= 3 {
      OctetsOfSextets(bs[3..]);
      JoinSplit(bs[0], bs[1], bs[2]);
      var s := Sextets(bs);
      assert s[4..] == Sextets(bs[3..]);
      assert Octets(s) == [bs[0], bs[1], bs[2]] + bs[3..];
      assert bs == [bs[0], bs[1], bs[2]] + bs[3..];
    } else if |bs| == 2 {
      JoinSplit(bs[0], bs[1], 0);
    } else if |bs| == 1 {
      JoinSplit(bs[0], 0, 0);
    }
  }

  /** The characters for a sequence of 6-bit groups. */
  function Symbols(s: seq<sextet>): (t: string)
    ensures |t| == |s|
    ensures forall i :: 0 <= i < |s| ==> t[i] == Symbol(s[i])
    decreases |s|
  {
    if |s| == 0 then "" else [Symbol(s[0])] + Symbols(s[1..])
  }

  /** The `=` characters that complete the final four-character group. */
  function Padding(n: nat): string {
    if n % 3 == 1 then [Pad, Pad] else if n % 3 == 2 then [Pad] else ""
  }

  /** Base64 encoding of RFC 4648, section 4, with padding. */
  function Encode(bs: seq<byte>): (t: string)
    ensures |t| % 4 == 0
    ensures |t| == 4 * ((|bs| + 2) / 3)
  {
    SextetsLength(bs);
    Symbols(Sextets(bs)) + Padding(|bs|)
  }

  /** `btoa(s)`: throws (None) when a character is above U+00FF, and
      otherwise encodes the characters' codes as bytes. */
  function Btoa(s: string): (r: Option<string>)
    ensures r.Some? <==> IsBinary(s)
  {
    if IsBinary(s) then Some(Encode(CharCodes(s))) else None
  }

  /** ASCII whitespace of the HTML standard: TAB, LF, FF, CR and SPACE. */
  predicate IsAsciiWhitespace(c: char) {
    c == '\t' || c == '\n' || c as int == 0x0C || c == '\r' || c == ' '
  }

  /** Step 1 of the decode: remove the ASCII whitespace, keeping every other
      character in order. */
  function StripWhitespace(s: string): (r: string)
    ensures forall i :: 0 <= i < |r| ==> !IsAsciiWhitespace(r[i])
    ensures forall c :: c in r <==> c in s && !IsAsciiWhitespace(c)
    decreases |s|
  {
    if |s| == 0 then ""
    else if IsAsciiWhitespace(s[0]) then StripWhitespace(s[1..])
    else [s[0]] + StripWhitespace(s[1..])
  }

  /** Whitespace is removed piecewise, so the kept characters stay in order. */
  lemma {:induction false} StripWhitespaceConcat(a: string, b: string)
    ensures StripWhitespace(a + b) == StripWhitespace(a) + StripWhitespace(b)
    decreases |a|
  {
    if |a| == 0 {
      assert a + b == b;
    } else {
      assert (a + b)[1..] == a[1..] + b;
      StripWhitespaceConcat(a[1..], b);
    }
  }

  /** When the length is a multiple of four, one or two trailing `=` are removed. */
  function StripPadding(d: string): (r: string)
    ensures |d| % 4 == 0 && |d| >= 2 && d[|d| - 2] == Pad && d[|d| - 1] == Pad ==> r == d[..|d| - 2]
    ensures |d| % 4 == 0 && |d| >= 1 && d[|d| - 1] == Pad && !(|d| >= 2 && d[|d| - 2] == Pad) ==> r == d[..|d| - 1]
    ensures |d| % 4 != 0 || |d| == 0 || d[|d| - 1] != Pad ==> r == d
  {
    if |d| % 4 == 0 && |d| >= 2 && d[|d| - 2..] == [Pad, Pad] then d[..|d| - 2]
    else if |d| % 4 == 0 && |d| >= 1 && d[|d| - 1] == Pad then d[..|d| - 1]
    else d
  }

  /** The values of the characters, or None if one is outside the alphabet. */
  function Values(d: string): (r: Option<seq<sextet>>)
    ensures r.Some? ==> |r.value| == |d| && Symbols(r.value) == d
    ensures r.None? ==> exists i :: 0 <= i < |d| && ValueOf(d[i]).None?
    decreases |d|
  {
    if |d| == 0 then Some([])
    else match (ValueOf(d[0]), Values(d[1..]))
      case (Some(x), Some(rest)) => Some([x] + rest)
      case (None, _) => None
      case (_, None) =>
        var i :| 0 <= i < |d| - 1 && ValueOf(d[1..][i]).None?;
        assert ValueOf(d[i + 1]).None?;
        None
  }

  /** The forgiving-base64 decode of the HTML Living Standard: strip ASCII
      whitespace, drop one or two final `=` when the length is a multiple of
      four, fail on a length of the form 4k+1 or on a character outside the
      alphabet, and otherwise turn the 6-bit groups into bytes. */
  function Decode(s: string): (r: Option<seq<byte>>)
    ensures var d := StripPadding(StripWhitespace(s));
      r.None? <==> |d| % 4 == 1 || exists i :: 0 <= i < |d| && ValueOf(d[i]).None?
    ensures var d := StripPadding(StripWhitespace(s));
      r.Some? ==> |d| % 4 != 1 && |r.value| == (3 * |d|) / 4
  {
    var d := StripPadding(StripWhitespace(s));
    if |d| % 4 == 1 then None
    else match Values(d)
      case None => None
      case Some(v) =>
        AlphabetOnly(d, v);
        OctetsLength(v);
        Some(Octets(v))
  }

  /** Text spelled by sextets has only alphabet characters. */
  lemma AlphabetOnly(d: string, v: seq<sextet>)
    requires Symbols(v) == d
    ensures forall i :: 0 <= i < |d| ==> ValueOf(d[i]).Some?
  {
    forall i | 0 <= i < |d| ensures ValueOf(d[i]).Some? {
      ValueOfSymbol(v[i]);
    }
  }

  /** Four groups give three bytes; a final two or three give one or two. */
  lemma {:induction false} OctetsLength(v: seq<sextet>)
    requires |v| % 4 != 1
    ensures |Octets(v)| == (3 * |v|) / 4
    decreases |v|
  {
    if |v| >= 4 {
      OctetsLength(v[4..]);
    }
  }

  /** `atob(s)`: the decoded bytes as a binary string, or None where it throws. */
  function Atob(s: string): (r: Option<string>)
    ensures r.Some? ==> IsBinary(r.value)
    ensures r.Some? <==> Decode(s).Some?
  {
    match Decode(s)
    case None => None
    case Some(bs) => Some(FromBytes(bs))
  }

  lemma {:induction false} StripWhitespaceNone(s: string)
    requires forall i :: 0 <= i < |s| ==> !IsAsciiWhitespace(s[i])
    ensures StripWhitespace(s) == s
    decreases |s|
  {
    if |s| > 0 {
      StripWhitespaceNone(s[1..]);
    }
  }

  lemma {:induction false} ValuesOfSymbols(v: seq<sextet>)
    ensures Values(Symbols(v)) == Some(v)
    decreases |v|
  {
    if |v| > 0 {
      ValueOfSymbol(v[0]);
      assert Symbols(v)[1..] == Symbols(v[1..]);
      ValuesOfSymbols(v[1..]);
      assert v == [v[0]] + v[1..];
    }
  }

  /** Decoding undoes encoding: the forgiving decoder returns exactly the
      bytes that were encoded. */
  lemma DecodeEncode(bs: seq<byte>)
    ensures Decode(Encode(bs)) == Some(bs)
  {
    var v := Sextets(bs);
    var sym := Symbols(v);
    var t := sym + Padding(|bs|);
    assert t == Encode(bs);
    SextetsLength(bs);
    StripWhitespaceNone(t);
    assert StripPadding(t) == sym;
    ValuesOfSymbols(v);
    OctetsOfSextets(bs);
  }

  /** The storage round trip of a byte buffer: the fold, `btoa`, `atob` and the
      per-character conversion give back the original bytes. */
  lemma StorageRoundTrip(bs: seq<byte>)
    ensures Btoa(FromBytes(bs)) == Some(Encode(bs))
    ensures Atob(Encode(bs)) == Some(FromBytes(bs))
    ensures CharCodes(FromBytes(bs)) == bs
  {
    CharCodesFromBytes(bs);
    DecodeEncode(bs);
  }
}
