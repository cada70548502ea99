/** The static-tuple part of the Solidity Contract ABI encoding
    ("Formal Specification of the Encoding" in the Solidity documentation):
    every static element is one 32-byte big-endian word, element i in bytes
    32*i .. 32*i+32. */
module Abi {
  import opened Wrappers
  import opened Uint

  const WORD_BYTES: nat := 32

  /** The number of words in the swap parameter tuple. */
  const PARAM_WORDS: nat := 8

  /** The number a byte string denotes, most significant byte first. */
  function BigEndian(b: seq<Byte>): nat
  {
    if |b| == 0 then 0 else BigEndian(b[..|b| - 1]) * 256 + b[|b| - 1]
  }

  /** k bytes hold numbers below 256^k. */
  lemma {:induction false} BigEndianBound(b: seq<Byte>)
    ensures BigEndian(b) < Pow256(|b|)
  {
    if |b| > 0 {
      BigEndianBound(b[..|b| - 1]);
    }
  }

  lemma ShiftBound(n: nat, k: nat)
    requires n < Pow256(k + 1)
    ensures n / 256 < Pow256(k)
  {
  }

  /** The len-byte big-endian form of n. */
  function ToBigEndian(n: nat, len: nat): (b: seq<Byte>)
    requires n < Pow256(len)
    ensures |b| == len
  {
    if len == 0 then []
    else
      ShiftBound(n, len - 1);
      ToBigEndian(n / 256, len - 1) + [n % 256]
  }

  /** Writing a number out and reading it back gives the number. */
  lemma {:induction false} BigEndianOfToBigEndian(n: nat, len: nat)
    requires n < Pow256(len)
    ensures BigEndian(ToBigEndian(n, len)) == n
  {
    if len > 0 {
      ShiftBound(n, len - 1);
      var b := ToBigEndian(n, len);
      assert b[..len - 1] == ToBigEndian(n / 256, len - 1);
      BigEndianOfToBigEndian(n / 256, len - 1);
    }
  }

  /** Reading a byte string and writing the number back at the same width
      gives the byte string: the big-endian form is unique. */
  lemma {:induction false} ToBigEndianOfBigEndian(b: seq<Byte>)
    ensures BigEndian(b) < Pow256(|b|)
    ensures ToBigEndian(BigEndian(b), |b|) == b
  {
    BigEndianBound(b);
    if |b| > 0 {
      var init := b[..|b| - 1];
      var n := BigEndian(b);
      BigEndianBound(init);
      assert n / 256 == BigEndian(init) && n % 256 == b[|b| - 1];
      ToBigEndianOfBigEndian(init);
      assert b == init + [b[|b| - 1]];
    }
  }

  /** Word i of a payload, as an unsigned 256-bit number. */
  function WordAt(payload: seq<Byte>, i: nat): (w: Uint256)
    requires WORD_BYTES * i + WORD_BYTES <= |payload|
  {
    Pow256Word();
    BigEndianBound(payload[WORD_BYTES * i .. WORD_BYTES * i + WORD_BYTES]);
    BigEndian(payload[WORD_BYTES * i .. WORD_BYTES * i + WORD_BYTES])
  }

  /** The parameters of the router call, in tuple order. They are named as
      the listener names them: word 4 is read as amountIn, word 5 as
      amountOutMinimum and word 6 as amountInMaximum. The recipient is kept
      as its whole word: the listener never reads it, and the coder defers a
      failure to read a word as an address until that element is read, so a
      recipient word that is not an address does not stop the decode. */
  datatype SwapParams = SwapParams(
    tokenIn: Address,
    tokenOut: Address,
    fee: Uint24,
    recipient: Uint256,
    amountIn: Uint256,
    amountOutMinimum: Uint256,
    amountInMaximum: Uint256,
    sqrtPriceLimitX96: Uint160)

  datatype DecodeError =
    | PayloadTooShort
    | AddressOutOfRange(word: nat)

  /** Decodes (address, address, uint24, address, uint256, uint256, uint256,
      uint160). A payload shorter than eight words is an error. So is a token
      word with a non-zero upper 12 bytes: that element throws when read, and
      the listener reads both tokens straight away. A uint24 or uint160 word
      keeps only its low 24 or 160 bits. Bytes after the eighth word are not
      read. */
  function DecodeSwapParams(payload: seq<Byte>): (r: Result<SwapParams, DecodeError>)
    ensures r.Ok? ==> |payload| >= WORD_BYTES * PARAM_WORDS
    ensures r == Err(PayloadTooShort) <==> |payload| < WORD_BYTES * PARAM_WORDS
    ensures r.Err? && r.error.AddressOutOfRange? ==> r.error.word in {0, 1} && WordAt(payload, r.error.word) >= TWO_160
    ensures r.Ok? <==>
      |payload| >= WORD_BYTES * PARAM_WORDS && WordAt(payload, 0) < TWO_160 && WordAt(payload, 1) < TWO_160
  {
    if |payload| < WORD_BYTES * PARAM_WORDS then Err(PayloadTooShort)
    else if WordAt(payload, 0) >= TWO_160 then Err(AddressOutOfRange(0))
    else if WordAt(payload, 1) >= TWO_160 then Err(AddressOutOfRange(1))
    else
      Ok(SwapParams(
        WordAt(payload, 0),
        WordAt(payload, 1),
        WordAt(payload, 2) % TWO_24,
        WordAt(payload, 3),
        WordAt(payload, 4),
        WordAt(payload, 5),
        WordAt(payload, 6),
        WordAt(payload, 7) % TWO_160))
  }

  /** The tuple's elements as words, in order. */
  function ParamWords(p: SwapParams): (ws: seq<Uint256>)
    ensures |ws| == PARAM_WORDS
  {
    [p.tokenIn, p.tokenOut, p.fee, p.recipient,
     p.amountIn, p.amountOutMinimum, p.amountInMaximum, p.sqrtPriceLimitX96]
  }

  /** Each word written as 32 big-endian bytes, one after the other. */
  function EncodeWords(ws: seq<Uint256>): (b: seq<Byte>)
    ensures |b| == WORD_BYTES * |ws|
  {
    if |ws| == 0 then []
    else
      Pow256Word();
      ToBigEndian(ws[0], WORD_BYTES) + EncodeWords(ws[1..])
  }

  function EncodeSwapParams(p: SwapParams): (b: seq<Byte>)
    ensures |b| == WORD_BYTES * PARAM_WORDS
  {
    EncodeWords(ParamWords(p))
  }

  /** Word i of an encoding is element i. */
  lemma {:induction false} EncodeWordsAt(ws: seq<Uint256>, i: nat)
    requires i < |ws|
    ensures WordAt(EncodeWords(ws), i) == ws[i]
  {
    Pow256Word();
    var b := EncodeWords(ws);
    var head := ToBigEndian(ws[0], WORD_BYTES);
    assert b == head + EncodeWords(ws[1..]);
    if i == 0 {
      assert b[0 .. WORD_BYTES] == head;
      BigEndianOfToBigEndian(ws[0], WORD_BYTES);
    } else {
      EncodeWordsAt(ws[1..], i - 1);
      assert b[WORD_BYTES * i .. WORD_BYTES * i + WORD_BYTES]
          == EncodeWords(ws[1..])[WORD_BYTES * (i - 1) .. WORD_BYTES * (i - 1) + WORD_BYTES];
    }
  }

  /** The words of an encoded tuple are its fields, in order. */
  lemma EncodedParamWords(p: SwapParams)
    ensures forall i :: 0 <= i < PARAM_WORDS ==> WordAt(EncodeSwapParams(p), i) == ParamWords(p)[i]
  {
    forall i | 0 <= i < PARAM_WORDS
      ensures WordAt(EncodeSwapParams(p), i) == ParamWords(p)[i]
    {
      EncodeWordsAt(ParamWords(p), i);
    }
  }

  lemma ModBelow(a: nat, m: nat)
    requires a < m
    ensures a % m == a
  {
  }

  /** Decoding an encoded tuple gives back exactly its fields, in order. */
  lemma SwapParamsRoundTrip(p: SwapParams)
    ensures DecodeSwapParams(EncodeSwapParams(p)) == Ok(p)
  {
    var b := EncodeSwapParams(p);
    EncodedParamWords(p);
    var w := ParamWords(p);
    assert WordAt(b, 0) == p.tokenIn && WordAt(b, 1) == p.tokenOut && WordAt(b, 3) == p.recipient by {
      assert w[0] == p.tokenIn && w[1] == p.tokenOut && w[3] == p.recipient;
    }
    assert WordAt(b, 2) % TWO_24 == p.fee by {
      assert w[2] == p.fee;
      ModBelow(p.fee, TWO_24);
    }
    assert WordAt(b, 7) % TWO_160 == p.sqrtPriceLimitX96 by {
      assert w[7] == p.sqrtPriceLimitX96;
      ModBelow(p.sqrtPriceLimitX96, TWO_160);
    }
    assert WordAt(b, 4) == p.amountIn && WordAt(b, 5) == p.amountOutMinimum && WordAt(b, 6) == p.amountInMaximum by {
      assert w[4] == p.amountIn && w[5] == p.amountOutMinimum && w[6] == p.amountInMaximum;
    }
  }

  /** The words of a payload made of whole words. */
  function Words(b: seq<Byte>): (ws: seq<Uint256>)
    requires |b| % WORD_BYTES == 0
    ensures WORD_BYTES * |ws| == |b|
  {
    if |b| == 0 then [] else [WordAt(b, 0)] + Words(b[WORD_BYTES..])
  }

  lemma {:induction false} WordsAt(b: seq<Byte>, i: nat)
    requires |b| % WORD_BYTES == 0 && WORD_BYTES * i + WORD_BYTES <= |b|
    ensures Words(b)[i] == WordAt(b, i)
  {
    if i > 0 {
      WordsAt(b[WORD_BYTES..], i - 1);
      assert b[WORD_BYTES..][WORD_BYTES * (i - 1) .. WORD_BYTES * (i - 1) + WORD_BYTES]
          == b[WORD_BYTES * i .. WORD_BYTES * i + WORD_BYTES];
    }
  }

  /** Writing out a payload's words gives the payload back. */
  lemma {:induction false} EncodeWordsOfWords(b: seq<Byte>)
    requires |b| % WORD_BYTES == 0
    ensures EncodeWords(Words(b)) == b
  {
    if |b| > 0 {
      Pow256Word();
      var ws := Words(b);
      assert ws[1..] == Words(b[WORD_BYTES..]);
      EncodeWordsOfWords(b[WORD_BYTES..]);
      ToBigEndianOfBigEndian(b[..WORD_BYTES]);
      assert b == b[..WORD_BYTES] + b[WORD_BYTES..];
    }
  }

  /** A canonical eight-word payload (token addresses, fee and price limit within
      their widths) is exactly the encoding of what it decodes to, so the
      decoder loses nothing on it. */
  lemma CanonicalPayloadReencodes(payload: seq<Byte>)
    requires |payload| == WORD_BYTES * PARAM_WORDS
    requires DecodeSwapParams(payload).Ok?
    requires WordAt(payload, 2) < TWO_24 && WordAt(payload, 7) < TWO_160
    ensures EncodeSwapParams(DecodeSwapParams(payload).value) == payload
  {
    var p := DecodeSwapParams(payload).value;
    ModBelow(WordAt(payload, 2), TWO_24);
    ModBelow(WordAt(payload, 7), TWO_160);
    var w := ParamWords(p);
    assert forall i :: 0 <= i < PARAM_WORDS ==> w[i] == WordAt(payload, i);
    var ws := Words(payload);
    forall i | 0 <= i < PARAM_WORDS
      ensures ws[i] == w[i]
    {
      WordsAt(payload, i);
    }
    assert ws == w;
    EncodeWordsOfWords(payload);
  }

  /** The uint24 and uint160 words keep only their low bits: payloads that
      differ only above bit 24 of the fee word and above bit 160 of the
      price-limit word decode alike. */
  lemma MaskedHighBitsIgnored(a: seq<Byte>, b: seq<Byte>)
    requires |a| >= WORD_BYTES * PARAM_WORDS && |b| >= WORD_BYTES * PARAM_WORDS
    requires WordAt(a, 0) == WordAt(b, 0) && WordAt(a, 1) == WordAt(b, 1) && WordAt(a, 3) == WordAt(b, 3)
    requires WordAt(a, 4) == WordAt(b, 4) && WordAt(a, 5) == WordAt(b, 5) && WordAt(a, 6) == WordAt(b, 6)
    requires WordAt(a, 2) % TWO_24 == WordAt(b, 2) % TWO_24
    requires WordAt(a, 7) % TWO_160 == WordAt(b, 7) % TWO_160
    ensures DecodeSwapParams(a) == DecodeSwapParams(b)
  {
  }
}
