/** The pending-transaction callback: fetch result in, verdict out. A
    transaction is considered when it was found, is addressed to the Uniswap
    V3 router and carries 522 characters of call data; its call data is then
    decoded, both tokens' metadata is looked up, and an alert is produced. */
module Listener {
  import opened Wrappers
  import opened Uint
  import opened Text
  import opened Units
  import opened Hex
  import opened Abi
  import opened Alert

  /** The Uniswap V3 SwapRouter address, in its checksummed spelling. */
  const ROUTER: string := "0xE592427A0AEce92De3Edee1F18E0157C05861564"

  const SELECTOR_BYTES: nat := 4

  /** "0x", an 8-digit selector and eight 64-digit words. */
  const SWAP_CALL_DATA_LENGTH: nat := 522

  /** The fields of a fetched transaction the listener reads. */
  datatype PendingTx = PendingTx(hash: string, to: Option<string>, data: Option<string>)

  /** A token contract's symbol() and decimals(). */
  datatype TokenInfo = TokenInfo(symbol: string, decimals: Uint8)

  datatype CallDataError = InvalidHexData | InvalidTuple(error: DecodeError)

  /** Ignored: not a swap of interest. ProcessingError: decoding threw (the
      outer catch). MetadataError: a token lookup failed (the inner catch).
      Notified: the decoded call, the alert and the message to send. */
  datatype Outcome =
    | Ignored
    | ProcessingError
    | MetadataError
    | Notified(params: SwapParams, alert: SwapAlert, message: string)

  /** The destination is the router, compared after lower-casing both sides. */
  predicate IsRouter(to: string)
  {
    ToLower(to) == ToLower(ROUTER)
  }

  /** The transaction passes both filters: it was fetched, goes to the
      router and has call data of the swap length. */
  predicate Considered(fetched: Option<PendingTx>)
  {
    && fetched.Some?
    && fetched.value.to.Some? && IsRouter(fetched.value.to.value)
    && fetched.value.data.Some? && |fetched.value.data.value| == SWAP_CALL_DATA_LENGTH
  }

  /** Drops the 4-byte selector and decodes the rest as the swap tuple.
      Data that is not hex data is an error; otherwise success needs at
      least the selector and eight words. */
  function DecodeCallData(data: string): (r: Result<SwapParams, CallDataError>)
    ensures r == Err(InvalidHexData) <==> !IsHexData(data)
    ensures r.Ok? ==> |DecodeHexData(data).value| >= SELECTOR_BYTES + PARAM_WORDS * WORD_BYTES
  {
    match DecodeHexData(data)
    case None => Err(InvalidHexData)
    case Some(bytes) => DecodeTuple(if |bytes| >= SELECTOR_BYTES then bytes[SELECTOR_BYTES..] else [])
  }

  /** The tuple decoder's verdict, its failures tagged as tuple errors. */
  function DecodeTuple(payload: seq<Byte>): (r: Result<SwapParams, CallDataError>)
    ensures r.Ok? ==> |payload| >= PARAM_WORDS * WORD_BYTES
    ensures r.Err? ==> r.error.InvalidTuple?
  {
    match DecodeSwapParams(payload)
    case Ok(p) => Ok(p)
    case Err(e) => Err(InvalidTuple(e))
  }

  /** amountIn in tokenIn's units, amountOutMinimum in tokenOut's: each
      rendering reads back, with that token's decimals, to the raw amount. */
  function BuildAlert(hash: string, p: SwapParams, infoIn: TokenInfo, infoOut: TokenInfo): (r: SwapAlert)
    ensures r.hash == hash
    ensures r.symbolIn == infoIn.symbol && r.decimalsIn == infoIn.decimals
    ensures r.symbolOut == infoOut.symbol && r.decimalsOut == infoOut.decimals
    ensures ParseUnits(r.amountIn, infoIn.decimals) == Some(p.amountIn)
    ensures ParseUnits(r.amountOutMin, infoOut.decimals) == Some(p.amountOutMinimum)
    ensures IsAmountText(r.amountIn) && IsAmountText(r.amountOutMin)
  {
    FormatUnitsExact(p.amountIn, infoIn.decimals);
    FormatUnitsExact(p.amountOutMinimum, infoOut.decimals);
    SwapAlert(
      hash,
      infoIn.symbol, infoIn.decimals,
      infoOut.symbol, infoOut.decimals,
      FormatUnits(p.amountIn, infoIn.decimals),
      FormatUnits(p.amountOutMinimum, infoOut.decimals))
  }

  /** Looks up both tokens and, when both lookups succeed, builds the alert. */
  function Report(hash: string, p: SwapParams, metadata: map<Address, TokenInfo>): (r: Outcome)
    ensures r.Notified? || r.MetadataError?
    ensures r.Notified? <==> p.tokenIn in metadata && p.tokenOut in metadata
    ensures r.Notified? ==> r.params == p && r.message == Message(r.alert)
    ensures r.Notified? ==> r.alert == BuildAlert(hash, p, metadata[p.tokenIn], metadata[p.tokenOut])
  {
    if p.tokenIn in metadata && p.tokenOut in metadata then
      var alert := BuildAlert(hash, p, metadata[p.tokenIn], metadata[p.tokenOut]);
      Notified(p, alert, Message(alert))
    else MetadataError
  }

  /** Decodes call data of the swap length and reports it; a decoding
      failure is a processing error. */
  function ProcessCallData(hash: string, data: string, metadata: map<Address, TokenInfo>): (r: Outcome)
    ensures !r.Ignored?
    ensures r.ProcessingError? <==> DecodeCallData(data).Err?
    ensures r.Notified? ==> DecodeCallData(data) == Ok(r.params)
  {
    match DecodeCallData(data)
    case Err(_) => ProcessingError
    case Ok(p) => Report(hash, p, metadata)
  }

  /** The whole callback. fetched is what getTransaction returned;
      metadata holds, for each contract whose symbol() and decimals() reads
      both succeed, what they return. */
  function HandlePending(fetched: Option<PendingTx>, metadata: map<Address, TokenInfo>): (r: Outcome)
    ensures r.Ignored? <==> !Considered(fetched)
    ensures r.Notified? ==> DecodeCallData(fetched.value.data.value) == Ok(r.params)
    ensures r.ProcessingError? <==> Considered(fetched) && DecodeCallData(fetched.value.data.value).Err?
    ensures r.MetadataError? <==>
      && Considered(fetched)
      && DecodeCallData(fetched.value.data.value).Ok?
      && var p := DecodeCallData(fetched.value.data.value).value;
         !(p.tokenIn in metadata && p.tokenOut in metadata)
  {
    if fetched.None? then Ignored
    else
      var tx := fetched.value;
      if tx.to.None? || !IsRouter(tx.to.value) then Ignored
      else if tx.data.None? || |tx.data.value| != SWAP_CALL_DATA_LENGTH then Ignored
      else ProcessCallData(tx.hash, tx.data.value, metadata)
  }

  /** A missing transaction, or one without a destination, is ignored. */
  lemma MissingTxIgnored(hash: string, data: Option<string>, metadata: map<Address, TokenInfo>)
    ensures HandlePending(None, metadata) == Ignored
    ensures HandlePending(Some(PendingTx(hash, None, data)), metadata) == Ignored
  {
  }

  /** The router test does not depend on letter case: a destination matches
      exactly when it is the router address with any of its letters in
      either case. */
  lemma RouterMatchIgnoresCase(to: string)
    ensures IsRouter(to) <==> IsCasingOf(to, ROUTER)
  {
    SameLowerIffCasing(to, ROUTER);
  }

  /** Every casing of the router address gets the same verdict as the
      address itself. */
  lemma VerdictIgnoresCase(hash: string, to: string, data: Option<string>, metadata: map<Address, TokenInfo>)
    requires IsCasingOf(to, ROUTER)
    ensures HandlePending(Some(PendingTx(hash, Some(to), data)), metadata)
         == HandlePending(Some(PendingTx(hash, Some(ROUTER), data)), metadata)
  {
    RouterMatchIgnoresCase(to);
    RouterMatchIgnoresCase(ROUTER);
  }

  /** Call data of any other length is ignored, even when sent to the router. */
  lemma WrongLengthIgnored(hash: string, to: string, data: string, metadata: map<Address, TokenInfo>)
    requires |data| != SWAP_CALL_DATA_LENGTH
    ensures HandlePending(Some(PendingTx(hash, Some(to), Some(data))), metadata) == Ignored
  {
  }

  /** 522 characters are "0x" and two digits for each of the selector's 4
      bytes and the eight 32-byte words, so accepted hex data always holds a
      selector followed by exactly eight words. */
  lemma AcceptedDataHoldsEightWords(data: string)
    requires |data| == SWAP_CALL_DATA_LENGTH && IsHexData(data)
    ensures SWAP_CALL_DATA_LENGTH == 2 + 2 * (SELECTOR_BYTES + PARAM_WORDS * WORD_BYTES)
    ensures DecodeHexData(data).Some?
    ensures |DecodeHexData(data).value[SELECTOR_BYTES..]| == PARAM_WORDS * WORD_BYTES
  {
  }

  /** The call data for a selector and a tuple, as a transaction carries it. */
  function SwapCallData(selector: seq<Byte>, p: SwapParams): string
  {
    EncodeHexData(selector + EncodeSwapParams(p))
  }

  /** Call data built from any 4-byte selector and a tuple has the swap
      length and decodes to exactly that tuple. */
  lemma SwapCallDataRoundTrip(selector: seq<Byte>, p: SwapParams)
    requires |selector| == SELECTOR_BYTES
    ensures |SwapCallData(selector, p)| == SWAP_CALL_DATA_LENGTH
    ensures DecodeCallData(SwapCallData(selector, p)) == Ok(p)
  {
    var bytes := selector + EncodeSwapParams(p);
    HexRoundTrip(bytes);
    assert bytes[SELECTOR_BYTES..] == EncodeSwapParams(p);
    SwapParamsRoundTrip(p);
  }

  /** End to end: such a transaction sent to the router is reported with
      exactly the encoded fields, unless a token lookup fails. */
  lemma SwapCallNotified(hash: string, to: string, selector: seq<Byte>, p: SwapParams,
                         metadata: map<Address, TokenInfo>)
    requires IsRouter(to) && |selector| == SELECTOR_BYTES
    ensures var r := HandlePending(Some(PendingTx(hash, Some(to), Some(SwapCallData(selector, p)))), metadata);
      if p.tokenIn in metadata && p.tokenOut in metadata then r.Notified? && r.params == p
      else r == MetadataError
  {
    SwapCallDataRoundTrip(selector, p);
  }

  /** Decoding ignores the selector: call data that differs only in its
      first 4 bytes (8 hex digits) gets the same verdict. */
  lemma SelectorIgnored(hash: string, to: Option<string>, sel1: string, sel2: string, rest: string,
                        metadata: map<Address, TokenInfo>)
    requires |sel1| == 2 * SELECTOR_BYTES && AllHexDigits(sel1)
    requires |sel2| == 2 * SELECTOR_BYTES && AllHexDigits(sel2)
    ensures HandlePending(Some(PendingTx(hash, to, Some("0x" + (sel1 + rest)))), metadata)
         == HandlePending(Some(PendingTx(hash, to, Some("0x" + (sel2 + rest)))), metadata)
  {
    SelectorDropped(sel1, rest);
    SelectorDropped(sel2, rest);
  }

  lemma SelectorDropped(sel: string, rest: string)
    requires |sel| == 2 * SELECTOR_BYTES && AllHexDigits(sel)
    ensures DecodeCallData("0x" + (sel + rest))
         == if |rest| % 2 == 0 && AllHexDigits(rest) then DecodeTuple(PairsToBytes(rest)) else Err(InvalidHexData)
  {
    SelectorHexBytes(sel, rest);
  }

  lemma SelectorHexBytes(sel: string, rest: string)
    requires |sel| == 2 * SELECTOR_BYTES && AllHexDigits(sel)
    ensures var d := DecodeHexData("0x" + (sel + rest));
      if |rest| % 2 == 0 && AllHexDigits(rest)
      then d.Some? && |d.value| >= SELECTOR_BYTES && d.value[SELECTOR_BYTES..] == PairsToBytes(rest)
      else d.None?
  {
    PrefixedHexData(sel, rest);
    if |rest| % 2 == 0 && AllHexDigits(rest) {
      var a, b := PairsToBytes(sel), PairsToBytes(rest);
      assert (a + b)[SELECTOR_BYTES..] == b;
    }
  }

  /** The alert's amounts are exact and use the right token's decimals:
      amountIn read back with tokenIn's decimals is the raw amountIn, and
      amountOutMinimum read back with tokenOut's decimals is the raw
      amountOutMinimum. */
  lemma NotifiedAmountsExact(fetched: Option<PendingTx>, metadata: map<Address, TokenInfo>)
    requires HandlePending(fetched, metadata).Notified?
    ensures var r := HandlePending(fetched, metadata);
      && r.params.tokenIn in metadata && metadata[r.params.tokenIn] == TokenInfo(r.alert.symbolIn, r.alert.decimalsIn)
      && r.params.tokenOut in metadata && metadata[r.params.tokenOut] == TokenInfo(r.alert.symbolOut, r.alert.decimalsOut)
      && ParseUnits(r.alert.amountIn, r.alert.decimalsIn) == Some(r.params.amountIn)
      && ParseUnits(r.alert.amountOutMin, r.alert.decimalsOut) == Some(r.params.amountOutMinimum)
      && r.alert.hash == fetched.value.hash
  {
  }

  /** The message sent has the lines title, Hash, Token In, Token Out,
      Amount In, Amount Out (Min), in that order, when the hash and the
      symbols are single lines. */
  lemma NotifiedMessageLines(fetched: Option<PendingTx>, metadata: map<Address, TokenInfo>)
    requires HandlePending(fetched, metadata).Notified?
    requires SingleLine(fetched.value.hash)
    requires var p := HandlePending(fetched, metadata).params;
      && p.tokenIn in metadata && SingleLine(metadata[p.tokenIn].symbol)
      && p.tokenOut in metadata && SingleLine(metadata[p.tokenOut].symbol)
    ensures var r := HandlePending(fetched, metadata);
      Split(r.message, '\n') == Lines(r.alert)
  {
    var r := HandlePending(fetched, metadata);
    var a := r.alert;
    FormattedSingleLine(a.amountIn);
    FormattedSingleLine(a.amountOutMin);
    MessageLines(a);
  }

  lemma FormattedSingleLine(s: string)
    requires IsAmountText(s)
    ensures SingleLine(s) && !IsWhitespace(s[|s| - 1])
  {
  }
}
