/** The notification text built for a recognised swap: a template literal
    whose surrounding newline and indentation are removed by trim. */
module Alert {
  import opened Uint
  import opened Text
  import opened Units

  const TITLE: string := "*Uniswap V3 Pending Tx*"

  /** The indentation in front of the template's closing backtick. */
  const CLOSING_INDENT: string := "            "

  /** What the alert reports: the transaction hash, each token's symbol and
      decimals, and the two formatted amounts. */
  datatype SwapAlert = SwapAlert(
    hash: string,
    symbolIn: string,
    decimalsIn: Uint8,
    symbolOut: string,
    decimalsOut: Uint8,
    amountIn: string,
    amountOutMin: string)

  /** The alert's lines, in the order a reader sees them. */
  function Lines(a: SwapAlert): seq<string>
  {
    [ TITLE,
      "Hash: " + a.hash,
      "Token In: " + a.symbolIn + " (decimals: " + NatToDigits(a.decimalsIn) + ")",
      "Token Out: " + a.symbolOut + " (decimals: " + NatToDigits(a.decimalsOut) + ")",
      "Amount In: " + a.amountIn,
      "Amount Out (Min): " + a.amountOutMin ]
  }

  /** The template literal before trimming: the lines, one per source
      line of the literal, between the newline after the opening backtick and
      the newline and indentation before the closing one. */
  function Template(a: SwapAlert): string
  {
    "\n" + Join(Lines(a), '\n') + "\n" + CLOSING_INDENT
  }

  function Message(a: SwapAlert): string
  {
    Trim(Template(a))
  }

  predicate SingleLine(s: string)
  {
    '\n' !in s
  }

  lemma DigitsSingleLine(s: string)
    requires AllDigits(s)
    ensures SingleLine(s)
  {
  }

  /** No alert line contains a newline when the interpolated text does not.
      The calls below only hand the solver the digit facts it would
      otherwise search for. */
  lemma LinesSingleLine(a: SwapAlert)
    requires SingleLine(a.hash) && SingleLine(a.symbolIn) && SingleLine(a.symbolOut)
    requires SingleLine(a.amountIn) && SingleLine(a.amountOutMin)
    ensures forall i :: 0 <= i < |Lines(a)| ==> '\n' !in Lines(a)[i]
  {
    DigitsSingleLine(NatToDigits(a.decimalsIn));
    DigitsSingleLine(NatToDigits(a.decimalsOut));
  }

  /** The sent message has exactly the six lines of Lines, in that order,
      whenever the interpolated values are single lines and the minimum
      amount ends in a visible character (as a formatted amount does). */
  lemma MessageLines(a: SwapAlert)
    requires SingleLine(a.hash) && SingleLine(a.symbolIn) && SingleLine(a.symbolOut)
    requires SingleLine(a.amountIn) && SingleLine(a.amountOutMin)
    requires |a.amountOutMin| > 0 && !IsWhitespace(a.amountOutMin[|a.amountOutMin| - 1])
    ensures Split(Message(a), '\n') == Lines(a)
  {
    var body := Join(Lines(a), '\n');
    assert body == TITLE + "\n" + Join(Lines(a)[1..], '\n');
    JoinEndsWithLast(Lines(a), '\n');
    assert body[|body| - 1] == a.amountOutMin[|a.amountOutMin| - 1];
    var trail := "\n" + CLOSING_INDENT;
    assert AllWhitespace("\n") && AllWhitespace(trail);
    assert body[0] == '*';
    assert Template(a) == "\n" + body + trail;
    TrimPadded("\n", body, trail);
    assert Message(a) == body;
    LinesSingleLine(a);
    SplitJoin(Lines(a), '\n');
  }

  lemma {:induction false} JoinEndsWithLast(parts: seq<string>, sep: char)
    requires |parts| >= 1 && |parts[|parts| - 1]| > 0
    ensures var j := Join(parts, sep); var last := parts[|parts| - 1];
      |j| >= |last| && j[|j| - 1] == last[|last| - 1]
  {
    if |parts| > 1 {
      JoinEndsWithLast(parts[1..], sep);
    }
  }
}
