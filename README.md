# Uniswap V3 mempool listener — the swap recognition step

The listener subscribes to pending transactions. For each one it
fetches the transaction. It keeps only those sent to the Uniswap V3
SwapRouter (`0xE592427A0AEce92De3Edee1F18E0157C05861564`, compared after
lower-casing) whose call data is exactly 522 characters long. It drops the
4-byte function selector and decodes the rest as the static tuple
`(address tokenIn, address tokenOut, uint24 fee, address recipient,
uint256 amountIn, uint256 amountOutMinimum, uint256, uint160
sqrtPriceLimitX96)`. It then reads both tokens' `symbol()` and `decimals()`
and renders `amountIn` with tokenIn's decimals and `amountOutMinimum` with
tokenOut's decimals, as `formatUnits` does. Finally it builds a six-line
alert text.

This project models that step as pure functions, one module per concern:

- `Wrappers`: `Option` and `Result`.
- `Uint`: the ABI integer widths and powers of 256.
- `Text`: ASCII lower-casing, JavaScript `trim`, and `split`/`join` on one character.
- `Units`: decimal digits, `formatUnits`, and a reference reading `ParseUnits` that inverts it.
- `Hex`: `0x` hex data to bytes and back.
- `Abi`: 32-byte big-endian words, and decoding and encoding the eight-word swap tuple.
- `Alert`: the template literal and its trimmed message.
- `Listener`: the callback itself. `HandlePending` takes what `getTransaction` returned, as an `Option`, and a map from token address to the (symbol, decimals) pair. It returns one of four verdicts:
  - `Ignored`: filtered out.
  - `ProcessingError`: the outer `catch`.
  - `MetadataError`: the inner `catch`.
  - `Notified`: the decoded call, the alert and the text to send.

## Model

| member | source | states |
|---|---|---|
| Listener.HandlePending | main.js:86-156 | With `Considered` as the three filters (found, `to` present and `IsRouter`, data present with 522 characters): the verdict is Ignored exactly when the transaction is missing, has no `to`, is not for the router or lacks 522 characters of data. Otherwise it is a ProcessingError exactly when the call data does not decode. It is a MetadataError exactly when it decodes but a token's metadata is missing. A Notified verdict carries the decoded call. |
| Listener.ProcessCallData | main.js:93-107 | Considered call data is never ignored. Decoding failure is exactly a processing error. A notification carries what the call data decodes to. |
| Listener.DecodeCallData | main.js:94-107 | `hexDataSlice(data, 4)` followed by the tuple decode: the error is "not hex data" exactly when the data is not `0x` plus an even number of hex digits, and a success needs at least the 4 selector bytes and eight words. |
| Listener.DecodeTuple | main.js:95-107 | A decoded tuple comes from at least eight words, and every failure is reported as a tuple error. |
| Listener.BuildAlert | main.js:126-143 | The alert carries the hash and each token's own symbol and decimals. amountIn read back with tokenIn's decimals, and amountOutMinimum read back with tokenOut's decimals, give the raw amounts, and both are rendered amounts. |
| Listener.Report | main.js:114-147 | The alert is produced exactly when both tokens' metadata is available, otherwise it is a metadata error. The alert is `BuildAlert` of the decoded call and the two tokens' metadata, and the message sent is the trimmed template of that alert. |
| Listener.MissingTxIgnored | main.js:86-90 | A transaction that was not found, or that has no destination, is ignored. |
| Listener.RouterMatchIgnoresCase | main.js:66-90 | `IsRouter`, the `toLowerCase() ===` test: a destination matches the router exactly when it is the router address with each letter in either case. |
| Listener.VerdictIgnoresCase | main.js:90 | Any casing of the router address gets the same verdict as the canonical address. |
| Listener.WrongLengthIgnored | main.js:92 | Call data of any length other than 522 is ignored, even when sent to the router. |
| Listener.AcceptedDataHoldsEightWords | main.js:92-94 | 522 = 2 + 2·(4 + 8·32), so well-formed accepted data leaves exactly eight 32-byte words after the selector. |
| Listener.SwapCallDataRoundTrip | main.js:94-107 | Hex data built from any 4-byte selector and any tuple is 522 characters long and decodes to exactly that tuple. |
| Listener.SwapCallNotified | main.js:90-147 | Such call data sent to the router is reported with exactly the encoded fields, unless a token lookup fails. |
| Listener.SelectorIgnored | main.js:94 | Two call data strings that differ only in the selector's 8 hex digits get the same verdict. |
| Listener.SelectorDropped | main.js:94 | The decoded tuple depends only on the digits after the selector. |
| Listener.NotifiedAmountsExact | main.js:118-127 | In a notification, tokenIn's looked-up decimals go with amountIn and tokenOut's with amountOutMinimum. Reading each rendering back with those decimals gives the raw amount. The hash is the transaction's. |
| Listener.NotifiedMessageLines | main.js:137-144 | When the hash and both token symbols are single lines, the message sent splits on newlines into title, Hash, Token In, Token Out, Amount In, Amount Out (Min), in that order. A symbol containing a newline gives more pieces. |
| Units.FormatUnits | main.js:126-127 | A rendering consists of digits and points, and it ends in a digit. |
| Units.FormatUnitsExact | main.js:126-127 | Reading a rendering back with the same decimals gives the raw amount: nothing is rounded away. |
| Units.FormatOneToken | main.js:126-127 | 10^d at d ≥ 1 decimals renders as "1.0", for example 1000000 at 6 decimals. |
| Units.FormatWholeUnits | main.js:126-127 | With 0 decimals the rendering is the plain integer. |
| Units.NatToDigitsValue | main.js:140-141 | The decimal digits written for a number denote that number. |
| Hex.DecodeHexData | main.js:94 | Hex data is read exactly when it is `0x` plus an even number of hex digits, and it then gives half as many bytes. |
| Hex.HexRoundTrip | main.js:94 | Reading the hex data written for any byte string gives those bytes back. |
| Hex.PrefixedHexData | main.js:94 | Hex data with an even hex prefix reads as the prefix's bytes followed by the rest's, and it is well-formed exactly when the rest is. |
| Abi.DecodeSwapParams | main.js:95-115 | Decoding succeeds exactly when the payload has at least eight words and both token words (0 and 1) fit in 160 bits. A recipient word of any size is accepted, because the listener never reads it. The payload is too short exactly when it has fewer than eight words. An address error names word 0 or 1, and that word does not fit in 160 bits. |
| Abi.MaskedHighBitsIgnored | main.js:99-104 | Payloads that differ only above bit 24 of the fee word and above bit 160 of the price-limit word decode alike, so the uint24 and uint160 words keep only their low bits. |
| Abi.SwapParamsRoundTrip | main.js:95-107 | Encoding any tuple as eight big-endian words and decoding gives it back, field by field in tuple order. |
| Abi.CanonicalPayloadReencodes | main.js:95-107 | An eight-word payload that decodes, with its fee and price-limit words in range, is exactly the encoding of what it decodes to. |
| Abi.EncodeWordsAt | main.js:95-107 | Word i of encoded words is the i-th word. |
| Abi.BigEndianBound | main.js:95-107 | A k-byte big-endian number is below 256^k, so each word fits in uint256. |
| Abi.ToBigEndianOfBigEndian | main.js:95-107 | Big-endian reading and writing are inverse on byte strings. |
| Text.SameLowerIffCasing | main.js:90 | For `ToLower`: two strings lower-case to the same string exactly when one is a casing of the other. |
| Text.TrimPadded | main.js:137-144 | For `Trim`, JavaScript's `trim`: trimming whitespace padding around a text that starts and ends visibly gives that text. |
| Text.SplitJoin | main.js:137-144 | Joining lines that contain no newline and splitting on newline gives the lines back. |
| Alert.MessageLines | main.js:137-144 | `Message`, the `Template` literal after trim, splits on newlines into exactly the six `Lines` of the alert, in order. This holds when the hash, the symbols and both amounts are single lines, and the minimum amount is non-empty and does not end in whitespace, as a rendered amount never does. With an empty minimum amount, trim would also eat the space after "Amount Out (Min):". |

## Left out

- `sendTelegramMessage` (main.js:17-49) is an HTTP POST to an external API. The model stops at the text that would be sent.
- The provider set-up and the websocket `pending` subscription (main.js:57-61, 80) are network transport and event handling. The callback is modelled for one transaction hash.
- `provider.getTransaction` is a remote call. Its result is the `fetched: Option<PendingTx>` input. A rejected fetch lands in the outer `catch` in the source, which the model does not tell apart from a null result.
- The ERC-20 `symbol()` and `decimals()` reads (main.js:114-123) are remote calls. They are the `metadata` map input. An address is in the map exactly when both of its reads succeed, so a failed read is a missing key and gives `MetadataError`.
- All `console.log` and `console.error` output, including printing the decoded tuple (main.js:109-111, 130-134, 150, 155), is left out. The two `catch` blocks are modelled only as the `ProcessingError` and `MetadataError` verdicts.
- `dotenv` loading and the top-level `main()` call are configuration and start-up.
- Text.ToLower: lower-cases ASCII letters only, whereas JavaScript `toLowerCase` also maps other characters. Only the comparison with the router address uses it. No non-ASCII character lower-cases into `0`-`9`, `a`-`f` or `x`, so the verdict for any destination is unchanged.
- String lengths count characters, while JavaScript counts UTF-16 code units. For valid hex data, which is ASCII, the two counts agree. Call data outside the Basic Multilingual Plane can differ: for example, `0x`, 518 hex digits and one emoji is 522 units in JavaScript, so it reaches `hexDataSlice`, which throws into the outer `catch`, while the model counts 521 characters and ignores it. Neither path sends a notification.
- The ethers coder and utility internals are not part of this model. Their behaviour is stated explicitly instead:
  - call data that is not `0x` plus an even number of hex digits is rejected;
  - the coder fails on an address word of 2^160 or more only when that element is read. The listener reads tokenIn and tokenOut at once, inside the outer `try` (main.js:114-115), so such a token word gives `ProcessingError`. It never reads the recipient, so the recipient is kept as its raw word and any value is accepted;
  - a `uint24` or `uint160` word keeps its low bits;
  - a payload shorter than eight words is rejected.

  Address checksumming is not modelled, so an address is the number it denotes.
- Units.FormatUnits: the decimals are the `uint8` that `decimals()` returns. Negative amounts, which `formatUnits` accepts, cannot occur because every decoded amount is unsigned.
- Alert.Template: the template literal is modelled as its lines joined by newlines, between the newline after the opening backtick and the newline plus twelve spaces before the closing one.
- The fields are named as the listener names them: word 4 is read as amountIn and word 5 as amountOutMinimum. The listener matches data by length rather than by selector. Which router function a 522-character call actually is, and what its words mean there, is not part of this model.
