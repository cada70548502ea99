/** "0x"-prefixed hexadecimal call data, read into bytes the way ethers'
    isHexString and arrayify read it. */
module Hex {
  import opened Wrappers
  import opened Uint

  predicate IsHexDigit(c: char)
  {
    ('0' <= c <= '9') || ('a' <= c <= 'f') || ('A' <= c <= 'F')
  }

  predicate AllHexDigits(s: string)
  {
    forall i :: 0 <= i < |s| ==> IsHexDigit(s[i])
  }

  function HexDigitValue(c: char): (v: nat)
    requires IsHexDigit(c)
    ensures v < 16
  {
    if '0' <= c <= '9' then c as int - '0' as int
    else if 'a' <= c <= 'f' then c as int - 'a' as int + 10
    else c as int - 'A' as int + 10
  }

  /** The lower-case digit for a value below 16. */
  function HexDigitChar(v: nat): (c: char)
    requires v < 16
    ensures IsHexDigit(c) && HexDigitValue(c) == v
  {
    if v < 10 then ('0' as int + v) as char else ('a' as int + v - 10) as char
  }

  /** Well-formed hex data: "0x" (lower-case x) followed by hex digits, in
      pairs so that every byte is written out. */
  predicate IsHexData(s: string)
  {
    |s| >= 2 && s[0] == '0' && s[1] == 'x' && |s| % 2 == 0 && AllHexDigits(s[2..])
  }

  /** Each pair of hex digits, high nibble first, is one byte. */
  function PairsToBytes(h: string): (b: seq<Byte>)
    requires |h| % 2 == 0 && AllHexDigits(h)
    ensures |b| * 2 == |h|
  {
    if |h| == 0 then []
    else [HexDigitValue(h[0]) * 16 + HexDigitValue(h[1])] + PairsToBytes(h[2..])
  }

  function BytesToPairs(b: seq<Byte>): (h: string)
    ensures |h| == 2 * |b| && AllHexDigits(h)
  {
    if |b| == 0 then ""
    else [HexDigitChar(b[0] / 16), HexDigitChar(b[0] % 16)] + BytesToPairs(b[1..])
  }

  /** The bytes hex data stands for; None when it is not well-formed hex
      data (ethers throws there). */
  function DecodeHexData(s: string): (r: Option<seq<Byte>>)
    ensures r.Some? <==> IsHexData(s)
    ensures r.Some? ==> |s| == 2 + 2 * |r.value|
  {
    if IsHexData(s) then Some(PairsToBytes(s[2..])) else None
  }

  /** The lower-case hex data for a byte string, as ethers' hexlify writes it. */
  function EncodeHexData(b: seq<Byte>): (s: string)
    ensures |s| == 2 + 2 * |b|
  {
    "0x" + BytesToPairs(b)
  }

  lemma {:induction false} PairsRoundTrip(b: seq<Byte>)
    ensures PairsToBytes(BytesToPairs(b)) == b
  {
    if |b| > 0 {
      var h := BytesToPairs(b);
      assert h[2..] == BytesToPairs(b[1..]);
      PairsRoundTrip(b[1..]);
      assert HexDigitValue(h[0]) * 16 + HexDigitValue(h[1]) == b[0];
    }
  }

  /** Reading the hex data written for a byte string gives those bytes back. */
  lemma HexRoundTrip(b: seq<Byte>)
    ensures DecodeHexData(EncodeHexData(b)) == Some(b)
  {
    var s := EncodeHexData(b);
    assert s[2..] == BytesToPairs(b);
    PairsRoundTrip(b);
  }

  /** Digit pairs are read independently: the bytes of a concatenation are
      the concatenation of the bytes. */
  lemma {:induction false} PairsAppend(a: string, c: string)
    requires |a| % 2 == 0 && AllHexDigits(a)
    requires |c| % 2 == 0 && AllHexDigits(c)
    ensures AllHexDigits(a + c)
    ensures PairsToBytes(a + c) == PairsToBytes(a) + PairsToBytes(c)
  {
    if |a| > 0 {
      assert (a + c)[2..] == a[2..] + c;
      PairsAppend(a[2..], c);
    } else {
      assert a + c == c;
    }
  }

  /** Hex data is "0x" followed by an even number of hex digits. */
  lemma HexDataOf(h: string)
    ensures ("0x" + h)[2..] == h
    ensures IsHexData("0x" + h) <==> |h| % 2 == 0 && AllHexDigits(h)
    ensures DecodeHexData("0x" + h) == if |h| % 2 == 0 && AllHexDigits(h) then Some(PairsToBytes(h)) else None
  {
  }

  /** Hex data with an even-length hex prefix reads as the prefix's bytes
      followed by the bytes of the rest, and is well-formed exactly when
      the rest is. */
  lemma PrefixedHexData(a: string, c: string)
    requires |a| % 2 == 0 && AllHexDigits(a)
    ensures |c| % 2 == 0 && AllHexDigits(c) ==>
      DecodeHexData("0x" + (a + c)) == Some(PairsToBytes(a) + PairsToBytes(c))
    ensures !(|c| % 2 == 0 && AllHexDigits(c)) ==> DecodeHexData("0x" + (a + c)).None?
  {
    if |c| % 2 == 0 && AllHexDigits(c) {
      HexDataOf(a + c);
      PairsAppend(a, c);
    } else {
      MalformedRest(a, c);
    }
  }

  lemma MalformedRest(a: string, c: string)
    requires |a| % 2 == 0 && AllHexDigits(a)
    requires !(|c| % 2 == 0 && AllHexDigits(c))
    ensures !IsHexData("0x" + (a + c))
  {
    var s := "0x" + (a + c);
    assert s[2..] == a + c;
    if |c| % 2 != 0 {
      EvenPlus(2 + |a|, |c|);
    } else {
      var i :| 0 <= i < |c| && !IsHexDigit(c[i]);
      assert s[2..][|a| + i] == c[i];
    }
  }

  lemma EvenPlus(m: nat, n: nat)
    requires m % 2 == 0
    ensures (m + n) % 2 == n % 2
  {
  }
}
