/**
 * The digest encoder of src/App.js: `hex` renders a buffer as lower-case base16
 * (section 8 of RFC 4648) by reading it as big-endian 32-bit words, and `sha256`
 * feeds it the 32-byte SHA-256 digest (FIPS 180-4) of a document.
 */
module HexEncoding {
  import opened Outcomes

  type Byte = b: int | 0 <= b < 256

  /** The error `DataView.getUint32` throws when fewer than 4 bytes remain. */
  datatype HexError = RangeError

  // ---------------------------------------------------------------------------
  // The alphabet

  predicate IsHexChar(c: char) {
    '0' <= c <= '9' || 'a' <= c <= 'f'
  }

  predicate IsLowerHex(s: string) {
    forall i :: 0 <= i < |s| ==> IsHexChar(s[i])
  }

  /** The lower-case digit for a nibble, as `Number.prototype.toString(16)` writes it. */
  function HexDigit(d: nat): (c: char)
    requires d < 16
    ensures IsHexChar(c)
    ensures (d == 0) == (c == '0')
  {
    if d < 10 then ('0' as int + d) as char else ('a' as int + d - 10) as char
  }

  /** The value of a lower-case hex digit; upper-case and other characters have none. */
  function DigitValue(c: char): (r: Option<nat>)
    ensures r.Some? <==> IsHexChar(c)
    ensures r.Some? ==> r.value < 16 && HexDigit(r.value) == c
  {
    if '0' <= c <= '9' then Some(c as int - '0' as int)
    else if 'a' <= c <= 'f' then Some(c as int - 'a' as int + 10)
    else None
  }

  lemma DigitValueOfHexDigit(d: nat)
    requires d < 16
    ensures DigitValue(HexDigit(d)) == Some(d)
  {
  }

  // ---------------------------------------------------------------------------
  // The reference encoding: two digits per byte, bytes in order

  /** The two-digit form of one byte, high nibble first. */
  function ByteHex(b: Byte): (s: string)
    ensures |s| == 2 && IsLowerHex(s)
  {
    [HexDigit(b / 16), HexDigit(b % 16)]
  }

  /** Lower-case base16 of a byte string: each byte's two digits, in buffer order. */
  function HexOfBytes(bs: seq<Byte>): (s: string)
    ensures |s| == 2 * |bs|
    ensures IsLowerHex(s)
  {
    if bs == [] then "" else ByteHex(bs[0]) + HexOfBytes(bs[1..])
  }

  lemma {:induction false} HexOfBytesAppend(a: seq<Byte>, b: seq<Byte>)
    ensures HexOfBytes(a + b) == HexOfBytes(a) + HexOfBytes(b)
  {
    if a == [] {
      assert a + b == b;
    } else {
      assert (a + b)[0] == a[0] && (a + b)[1..] == a[1..] + b;
      HexOfBytesAppend(a[1..], b);
      calc {
        HexOfBytes(a + b);
        ByteHex(a[0]) + HexOfBytes(a[1..] + b);
        ByteHex(a[0]) + (HexOfBytes(a[1..]) + HexOfBytes(b));
        (ByteHex(a[0]) + HexOfBytes(a[1..])) + HexOfBytes(b);
      }
    }
  }

  /** Decoding of lower-case base16; odd lengths and characters outside `0-9a-f` have none. */
  function DecodeHex(s: string): (r: Option<seq<Byte>>)
    ensures r.Some? ==> 2 * |r.value| == |s|
  {
    if s == [] then Some([])
    else if |s| == 1 then None
    else match (DigitValue(s[0]), DigitValue(s[1]), DecodeHex(s[2..]))
      case (Some(hi), Some(lo), Some(rest)) => Some([hi * 16 + lo] + rest)
      case _ => None
  }

  /** Decoding the encoding gives back the bytes. */
  lemma {:induction false} DecodeHexOfBytes(bs: seq<Byte>)
    ensures DecodeHex(HexOfBytes(bs)) == Some(bs)
  {
    if bs != [] {
      var s := HexOfBytes(bs);
      assert s[2..] == HexOfBytes(bs[1..]);
      DecodeHexOfBytes(bs[1..]);
      DigitValueOfHexDigit(bs[0] / 16);
      DigitValueOfHexDigit(bs[0] % 16);
      assert [bs[0]] + bs[1..] == bs;
    }
  }

  /** Every string that decodes is the encoding of what it decodes to. */
  lemma {:induction false} HexOfDecodedBytes(s: string, bs: seq<Byte>)
    requires DecodeHex(s) == Some(bs)
    ensures HexOfBytes(bs) == s
  {
    if s != [] {
      var hi, lo := DigitValue(s[0]).value, DigitValue(s[1]).value;
      var rest := DecodeHex(s[2..]).value;
      HexOfDecodedBytes(s[2..], rest);
      var b: Byte := hi * 16 + lo;
      assert b / 16 == hi && b % 16 == lo;
      assert bs == [b] + rest;
      assert bs[1..] == rest;
      assert s == [s[0], s[1]] + s[2..];
    }
  }

  /** Exactly the even-length strings over `0-9a-f` decode. */
  lemma {:induction false} DecodeHexDefined(s: string)
    ensures DecodeHex(s).Some? <==> |s| % 2 == 0 && IsLowerHex(s)
  {
    if |s| >= 2 {
      DecodeHexDefined(s[2..]);
      assert forall i :: 2 <= i < |s| ==> s[i] == s[2..][i - 2];
    }
  }

  // ---------------------------------------------------------------------------
  // What `hex` computes per word

  function Pow16(k: nat): (p: nat)
    ensures p >= 1
  {
    if k == 0 then 1 else 16 * Pow16(k - 1)
  }

  /** `value.toString(16)` for a non-negative integer: no leading zeros, "0" for zero. */
  function NumberToHex(n: nat): (s: string)
    ensures 1 <= |s| && IsLowerHex(s)
    ensures n > 0 ==> s[0] != '0'
  {
    if n < 16 then [HexDigit(n)] else NumberToHex(n / 16) + [HexDigit(n % 16)]
  }

  /** `s.slice(-n)` for a positive `n`: the last `n` characters, or all of `s` when shorter. */
  function SliceLast(s: string, n: nat): (r: string)
    requires n > 0
    ensures |r| == if |s| < n then |s| else n
    ensures s == s[..|s| - |r|] + r
  {
    s[if |s| < n then 0 else |s| - n..]
  }

  /** `getUint32(i)` with the default big-endian byte order. */
  function GetUint32(bs: seq<Byte>, i: nat): (w: nat)
    requires i + 4 <= |bs|
    ensures w < 0x1_0000_0000
  {
    ((bs[i] as int * 256 + bs[i + 1]) * 256 + bs[i + 2]) * 256 + bs[i + 3]
  }

  function Zeros(k: nat): (s: string)
    ensures |s| == k && forall i :: 0 <= i < k ==> s[i] == '0'
  {
    seq(k, _ => '0')
  }

  /** The last `k` hex digits of `n`, most significant first, leading zeros kept. */
  function FixedHex(n: nat, k: nat): (s: string)
    ensures |s| == k && IsLowerHex(s)
  {
    if k == 0 then "" else FixedHex(n / 16, k - 1) + [HexDigit(n % 16)]
  }

  lemma {:induction false} FixedHexOfZero(k: nat)
    ensures FixedHex(0, k) == Zeros(k)
  {
    if k > 0 {
      FixedHexOfZero(k - 1);
    }
  }

  /** Zero padding in front of `toString(16)` gives the fixed-width form. */
  lemma {:induction false} PaddedNumberIsFixedHex(n: nat, k: nat)
    requires 1 <= k && n < Pow16(k)
    ensures |NumberToHex(n)| <= k
    ensures Zeros(k - |NumberToHex(n)|) + NumberToHex(n) == FixedHex(n, k)
  {
    if n < 16 {
      FixedHexOfZero(k - 1);
      assert n / 16 == 0 && n % 16 == n;
    } else {
      assert k >= 2;
      assert n / 16 < Pow16(k - 1);
      PaddedNumberIsFixedHex(n / 16, k - 1);
      assert Zeros(k - |NumberToHex(n)|) + NumberToHex(n)
          == (Zeros(k - 1 - |NumberToHex(n / 16)|) + NumberToHex(n / 16)) + [HexDigit(n % 16)];
    }
  }

  lemma ByteHexIsFixedHex(b: Byte)
    ensures ByteHex(b) == FixedHex(b, 2)
  {
  }

  /** Padding `toString(16)` with eight zeros and keeping the last eight digits is the fixed-width form. */
  lemma PaddedWordIsFixedHex(w: nat)
    requires w < 0x1_0000_0000
    ensures SliceLast("00000000" + NumberToHex(w), 8) == FixedHex(w, 8)
  {
    var t := NumberToHex(w);
    assert Pow16(8) == 0x1_0000_0000;
    PaddedNumberIsFixedHex(w, 8);
    assert SliceLast("00000000" + t, 8) == Zeros(8 - |t|) + t;
  }

  /** Two digit groups side by side: the fixed-width form of `hi * 256 + b` ends with the byte `b`. */
  lemma FixedHexAppendByte(hi: nat, b: Byte, j: nat)
    ensures FixedHex(hi * 256 + b, j + 2) == FixedHex(hi, j) + ByteHex(b)
  {
    var n := hi * 256 + b;
    var m := hi * 16 + b / 16;
    assert n == 16 * m + b % 16;
    assert n / 16 == m && n % 16 == b % 16;
    assert m / 16 == hi && m % 16 == b / 16;
    assert FixedHex(n, j + 2) == FixedHex(m, j + 1) + [HexDigit(b % 16)];
    assert FixedHex(m, j + 1) == FixedHex(hi, j) + [HexDigit(b / 16)];
  }

  /** The fixed-width digits of a big-endian word are the two-digit forms of its bytes, in order. */
  lemma WordFixedHex(b0: Byte, b1: Byte, b2: Byte, b3: Byte, w: nat)
    requires w == ((b0 as int * 256 + b1) * 256 + b2) * 256 + b3
    ensures FixedHex(w, 8) == ByteHex(b0) + ByteHex(b1) + ByteHex(b2) + ByteHex(b3)
  {
    var x: nat := b0 as int * 256 + b1;
    var y: nat := x * 256 + b2;
    FixedHexAppendByte(y, b3, 6);
    FixedHexAppendByte(x, b2, 4);
    FixedHexAppendByte(b0, b1, 2);
    ByteHexIsFixedHex(b0);
  }

  lemma HexOfFourBytes(bs: seq<Byte>, i: nat)
    requires i + 4 <= |bs|
    ensures HexOfBytes(bs[i..i + 4]) == ByteHex(bs[i]) + ByteHex(bs[i + 1]) + ByteHex(bs[i + 2]) + ByteHex(bs[i + 3])
  {
    var w := bs[i..i + 4];
    assert HexOfBytes(w) == ByteHex(w[0]) + HexOfBytes(w[1..]);
    assert HexOfBytes(w[1..]) == ByteHex(w[1]) + HexOfBytes(w[2..]);
    assert HexOfBytes(w[2..]) == ByteHex(w[2]) + HexOfBytes(w[3..]);
    assert HexOfBytes(w[3..]) == ByteHex(w[3]) + HexOfBytes(w[4..]);
    assert w[1..][1..] == w[2..] && w[2..][1..] == w[3..] && w[3..][1..] == w[4..] == [];
  }

  /** One word's padded `toString(16)` is the two-digit forms of its four bytes, in order. */
  lemma PaddedWordIsBytesHex(bs: seq<Byte>, i: nat)
    requires i + 4 <= |bs|
    ensures SliceLast("00000000" + NumberToHex(GetUint32(bs, i)), 8) == HexOfBytes(bs[i..i + 4])
  {
    PaddedWordIsFixedHex(GetUint32(bs, i));
    WordFixedHex(bs[i], bs[i + 1], bs[i + 2], bs[i + 3], GetUint32(bs, i));
    HexOfFourBytes(bs, i);
  }

  /** A word whose leading nibbles are zero keeps them: 0x000000ab becomes "000000ab". */
  lemma LeadingZerosKept()
    ensures SliceLast("00000000" + NumberToHex(0xab), 8) == "000000ab"
  {
  }

  // ---------------------------------------------------------------------------
  // The encoder

  /** `hexCodes.join("")`. */
  function Join(chunks: seq<string>): string {
    if chunks == [] then "" else Join(chunks[..|chunks| - 1]) + chunks[|chunks| - 1]
  }

  /**
   * `hex(buffer)`: one 8-digit chunk per 4-byte word, joined in buffer order. A buffer
   * whose length is not a multiple of 4 makes the last `getUint32` throw.
   */
  method Hex(buffer: array<Byte>) returns (r: Result<string, HexError>)
    ensures r.Ok? <==> buffer.Length % 4 == 0
    ensures r.Ok? ==> r.value == HexOfBytes(buffer[..])
    ensures r.Ok? ==> |r.value| == 2 * buffer.Length && IsLowerHex(r.value)
  {
    var hexCodes: seq<string> := [];
    var i := 0;
    while i < buffer.Length
      invariant 0 <= i <= buffer.Length && i % 4 == 0
      invariant Join(hexCodes) == HexOfBytes(buffer[..i])
    {
      if buffer.Length < i + 4 {
        return Err(RangeError);
      }
      var value := GetUint32(buffer[..], i);
      var stringValue := NumberToHex(value);
      var padding := "00000000";
      var paddedValue := SliceLast(padding + stringValue, |padding|);
      PaddedWordIsBytesHex(buffer[..], i);
      assert buffer[..i + 4] == buffer[..i] + buffer[i..i + 4];
      HexOfBytesAppend(buffer[..i], buffer[i..i + 4]);
      hexCodes := hexCodes + [paddedValue];
      i := i + 4;
    }
    assert buffer[..i] == buffer[..];
    r := Ok(Join(hexCodes));
  }

  /**
   * `sha256(buffer)` after the digest primitive has produced its 32 bytes: a 64-digit
   * lower-case string that decodes back to the digest.
   */
  method Sha256Hex(digest: array<Byte>) returns (s: string)
    requires digest.Length == 32
    ensures |s| == 64 && IsLowerHex(s)
    ensures DecodeHex(s) == Some(digest[..])
  {
    var r := Hex(digest);
    s := r.value;
    DecodeHexOfBytes(digest[..]);
  }
}
