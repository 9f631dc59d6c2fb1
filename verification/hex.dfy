/** Lower-case hexadecimal rendering of a digest: the `fold` that appends
    `"%02x".format(byte)` for every byte of the SHA-256 output. */
module HexDigest {
  import opened Wrappers

  /** A Kotlin (JVM) `Byte`: signed, two's complement, eight bits. */
  newtype int8 = x: int | -128 <= x < 128

  /** The unsigned value `%x` prints for a byte: a negative byte is taken
      plus 2^8, as the JVM formatter does for `Byte` arguments. */
  function Unsigned(b: int8): (u: nat)
    ensures u < 256
    ensures (u - b as int) % 256 == 0
  {
    if b < 0 then b as int + 256 else b as int
  }

  /** The byte whose unsigned value is `u`. */
  function Signed(u: nat): (b: int8)
    requires u < 256
    ensures Unsigned(b) == u
  {
    if u < 128 then u as int8 else (u as int - 256) as int8
  }

  predicate IsHexChar(c: char) {
    '0' <= c <= '9' || 'a' <= c <= 'f'
  }

  /** The value of a lower-case hexadecimal digit. */
  function DigitValue(c: char): (v: nat)
    requires IsHexChar(c)
    ensures v < 16
  {
    if c <= '9' then c as int - '0' as int else c as int - 'a' as int + 10
  }

  /** The lower-case digit `%x` prints for a nibble. */
  function HexDigit(n: nat): (c: char)
    requires n < 16
    ensures IsHexChar(c) && DigitValue(c) == n
  {
    if n < 10 then ('0' as int + n) as char else ('a' as int + n - 10) as char
  }

  /** `"%02x".format(b)`: exactly two lower-case digits, high nibble first,
      zero-padded. */
  function FormatByte(b: int8): (r: string)
    ensures |r| == 2 && IsHexChar(r[0]) && IsHexChar(r[1])
    ensures 16 * DigitValue(r[0]) + DigitValue(r[1]) == Unsigned(b)
  {
    var u := Unsigned(b);
    [HexDigit(u / 16), HexDigit(u % 16)]
  }

  /** The left fold over the digest bytes, starting from `""` and appending
      each byte's two digits: twice as many lower-case digits as bytes, which
      the decoder reads back as the same bytes. */
  function HexEncode(bytes: seq<int8>): (r: string)
    ensures |r| == 2 * |bytes|
    ensures IsHexText(r)
    ensures HexDecode(r) == Some(bytes)
  {
    if |bytes| == 0 then ""
    else
      var init, last := bytes[..|bytes| - 1], bytes[|bytes| - 1];
      var f := FormatByte(last);
      var r := HexEncode(init) + f;
      assert r[..|r| - 2] == HexEncode(init);
      assert r[|r| - 2] == f[0] && r[|r| - 1] == f[1];
      UnsignedInjective(Signed(16 * DigitValue(f[0]) + DigitValue(f[1])), last);
      assert init + [last] == bytes;
      r
  }

  /** Well-formed hexadecimal text: a sequence of pairs of lower-case digits
      (`HexTextChars` shows it is an even number of such digits). */
  predicate IsHexText(s: string)
    decreases |s|
  {
    |s| == 0
    || (|s| >= 2 && IsHexChar(s[|s| - 2]) && IsHexChar(s[|s| - 1]) && IsHexText(s[..|s| - 2]))
  }

  /** Well-formed hexadecimal text is exactly an even number of lower-case digits. */
  lemma {:induction false} HexTextChars(s: string)
    ensures IsHexText(s) <==> |s| % 2 == 0 && forall k :: 0 <= k < |s| ==> IsHexChar(s[k])
    decreases |s|
  {
    if |s| >= 2 {
      var p := s[..|s| - 2];
      HexTextChars(p);
      assert forall k :: 0 <= k < |p| ==> p[k] == s[k];
    }
  }

  /** Reads well-formed hexadecimal text back into bytes, one pair of digits
      per byte, the last pair giving the last byte; anything else is rejected. */
  function HexDecode(s: string): (r: Option<seq<int8>>)
    ensures r.Some? <==> IsHexText(s)
    ensures r.Some? ==> 2 * |r.value| == |s|
    decreases |s|
  {
    if |s| == 0 then Some([])
    else if |s| == 1 then None
    else
      var n := |s|;
      if !IsHexChar(s[n - 2]) || !IsHexChar(s[n - 1]) then None
      else
        match HexDecode(s[..n - 2])
        case None => None
        case Some(init) => Some(init + [Signed(16 * DigitValue(s[n - 2]) + DigitValue(s[n - 1]))])
  }

  /** Encoding the decoded text gives the text back: every well-formed
      lower-case hexadecimal string is the rendering of exactly one byte sequence. */
  lemma EncodeDecode(s: string)
    requires IsHexText(s)
    ensures HexEncode(HexDecode(s).value) == s
  {
    DecodeInjective(HexEncode(HexDecode(s).value), s);
  }

  /** Distinct well-formed texts decode to distinct byte sequences. */
  lemma {:induction false} DecodeInjective(s: string, t: string)
    requires HexDecode(s).Some? && HexDecode(s) == HexDecode(t)
    ensures s == t
    decreases |s|
  {
    if |s| > 0 {
      var n, d := |s|, HexDecode(s).value;
      assert |t| == n;
      DecodeLastPair(s);
      DecodeLastPair(t);
      assert HexDecode(s[..n - 2]) == HexDecode(t[..n - 2]) by {
        assert HexDecode(s[..n - 2]).value == d[..|d| - 1];
        assert HexDecode(t[..n - 2]).value == d[..|d| - 1];
      }
      DecodeInjective(s[..n - 2], t[..n - 2]);
      assert s[n - 2] == t[n - 2] && s[n - 1] == t[n - 1] by {
        assert d[|d| - 1] == Signed(16 * DigitValue(s[n - 2]) + DigitValue(s[n - 1]));
        assert d[|d| - 1] == Signed(16 * DigitValue(t[n - 2]) + DigitValue(t[n - 1]));
        LastPairInjective(s[n - 2], s[n - 1], t[n - 2], t[n - 1]);
      }
      SplitLastPair(s);
      SplitLastPair(t);
    }
  }

  lemma SplitLastPair(s: string)
    requires |s| >= 2
    ensures s == s[..|s| - 2] + [s[|s| - 2], s[|s| - 1]]
  {
  }

  /** Two pairs of digits that spell the same byte are the same pair. */
  lemma LastPairInjective(c0: char, c1: char, e0: char, e1: char)
    requires IsHexChar(c0) && IsHexChar(c1) && IsHexChar(e0) && IsHexChar(e1)
    requires Signed(16 * DigitValue(c0) + DigitValue(c1)) == Signed(16 * DigitValue(e0) + DigitValue(e1))
    ensures c0 == e0 && c1 == e1
  {
    NibblesUnique(DigitValue(c0), DigitValue(c1), DigitValue(e0), DigitValue(e1));
    DigitValueInjective(c0, e0);
    DigitValueInjective(c1, e1);
  }

  /** Decoding peels the last pair of digits off as the last byte. */
  lemma DecodeLastPair(s: string)
    requires IsHexText(s) && |s| > 0
    ensures |s| >= 2 && IsHexText(s[..|s| - 2])
    ensures HexDecode(s).value
            == HexDecode(s[..|s| - 2]).value + [Signed(16 * DigitValue(s[|s| - 2]) + DigitValue(s[|s| - 1]))]
  {
  }

  /** Distinct digests render to distinct strings. */
  lemma HexEncodeInjective(a: seq<int8>, b: seq<int8>)
    requires HexEncode(a) == HexEncode(b)
    ensures a == b
  {
  }

  /** Two digits determine the byte they spell and nothing else does. */
  lemma NibblesUnique(a: nat, b: nat, c: nat, d: nat)
    requires b < 16 && d < 16 && 16 * a + b == 16 * c + d
    ensures a == c && b == d
  {
  }

  lemma UnsignedInjective(a: int8, b: int8)
    requires Unsigned(a) == Unsigned(b)
    ensures a == b
  {
  }

  lemma DigitValueInjective(c: char, d: char)
    requires IsHexChar(c) && IsHexChar(d) && DigitValue(c) == DigitValue(d)
    ensures c == d
  {
  }
}
