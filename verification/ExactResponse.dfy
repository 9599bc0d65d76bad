/** Parsing one exchange answer for one requested bucket. */
module ExactResponse {
  import opened Results

  /** A decoded K-line row; `None` marks a field that is not a finite number. */
  datatype RawRow = RawRow(
    openTime: Option<int>, open: Option<real>, high: Option<real>, low: Option<real>, close: Option<real>,
    volume: Option<real>, closeTime: Option<int>, quoteVolume: Option<real>, trades: Option<int>,
    takerBuyBase: Option<real>, takerBuyQuote: Option<real>)

  datatype Item = NotARow | Row(row: RawRow)

  datatype Payload = NotJson | NotAList | Items(items: seq<Item>)

  datatype Bar = Bar(
    openTime: int, closeTime: int, open: real, high: real, low: real, close: real,
    volume: real, quoteVolume: real, trades: int, takerBuyBase: real, takerBuyQuote: real, normalized: bool)

  datatype ParseError =
    | ResponseNotJson
    | NotExactlyOneKline
    | SchemaIncompatible
    | BoundsInvalid
    | NotTheRequestedBucket
    | FieldInvalid
    | PricesInconsistent

  function Price(v: Option<real>): Option<real> {
    if v.Some? && v.value > 0.0 then v else None
  }

  function Quantity(v: Option<real>): Option<real> {
    if v.Some? && v.value >= 0.0 then v else None
  }

  function ParsePrices(row: RawRow, openTime: int, closeTime: int, trades: int, normalized: bool): Result<Option<Bar>, ParseError> {
    var open, high, low, close := Price(row.open), Price(row.high), Price(row.low), Price(row.close);
    if open.None? || high.None? || low.None? || close.None? then Failure(FieldInvalid)
    else if high.value < MaxReal(open.value, close.value) then Failure(PricesInconsistent)
    else if low.value > MinReal(open.value, close.value) then Failure(PricesInconsistent)
    else if low.value > high.value then Failure(PricesInconsistent)
    else
      var volume, quote := Quantity(row.volume), Quantity(row.quoteVolume);
      var base, takerQuote := Quantity(row.takerBuyBase), Quantity(row.takerBuyQuote);
      if volume.None? || quote.None? || base.None? || takerQuote.None? then Failure(FieldInvalid)
      else Success(Some(Bar(openTime, closeTime, open.value, high.value, low.value, close.value,
                            volume.value, quote.value, trades, base.value, takerQuote.value, normalized)))
  }

  /** `None` for a confirmed empty bucket, a bar for an exact K-line, an error for everything else. */
  function ParseExactResponse(payload: Payload, expectedOpenMs: int, nextOpenMs: int): Result<Option<Bar>, ParseError> {
    match payload
    case NotJson => Failure(ResponseNotJson)
    case NotAList => Failure(NotExactlyOneKline)
    case Items(items) =>
      if items == [] then Success(None)
      else if |items| != 1 then Failure(NotExactlyOneKline)
      else if items[0].NotARow? then Failure(SchemaIncompatible)
      else
        var row := items[0].row;
        if row.openTime.None? || row.closeTime.None? || row.trades.None? then Failure(BoundsInvalid)
        else if nextOpenMs <= expectedOpenMs then Failure(BoundsInvalid)
        else
          var canonicalClose := nextOpenMs - 1;
          var normalized := expectedOpenMs <= row.closeTime.value < canonicalClose;
          if row.openTime.value != expectedOpenMs || row.trades.value < 0 then Failure(NotTheRequestedBucket)
          else if !normalized && row.closeTime.value != canonicalClose then Failure(NotTheRequestedBucket)
          else ParsePrices(row, row.openTime.value, canonicalClose, row.trades.value, normalized)
  }

  /** The conditions under which a row is an exact K-line of the bucket `[openMs, nextMs)`. */
  ghost predicate IsExactKline(row: RawRow, openMs: int, nextMs: int) {
    && openMs < nextMs
    && row.openTime == Some(openMs)
    && row.closeTime.Some? && openMs <= row.closeTime.value < nextMs
    && row.trades.Some? && row.trades.value >= 0
    && row.open.Some? && row.high.Some? && row.low.Some? && row.close.Some?
    && 0.0 < row.low.value
    && row.low.value <= row.open.value <= row.high.value
    && row.low.value <= row.close.value <= row.high.value
    && row.volume.Some? && row.quoteVolume.Some? && row.takerBuyBase.Some? && row.takerBuyQuote.Some?
    && row.volume.value >= 0.0 && row.quoteVolume.value >= 0.0
    && row.takerBuyBase.value >= 0.0 && row.takerBuyQuote.value >= 0.0
  }

  /** The bar of an exact K-line, field by field, with the canonical close. */
  ghost function BarOfRow(row: RawRow, openMs: int, nextMs: int): Bar
    requires IsExactKline(row, openMs, nextMs)
  {
    Bar(openMs, nextMs - 1, row.open.value, row.high.value, row.low.value, row.close.value, row.volume.value, row.quoteVolume.value,
        row.trades.value, row.takerBuyBase.value, row.takerBuyQuote.value, row.closeTime.value != nextMs - 1)
  }

  /** What an answer body says of the bucket `[openMs, nextMs)`: it is empty, or this is its bar. */
  ghost predicate Says(payload: Payload, openMs: int, nextMs: int, bar: Option<Bar>) {
    match bar
    case None => payload == Items([])
    case Some(b) =>
      && payload.Items? && |payload.items| == 1 && payload.items[0].Row?
      && IsExactKline(payload.items[0].row, openMs, nextMs) && b == BarOfRow(payload.items[0].row, openMs, nextMs)
  }

  /**
   * Exactly three outcomes: an empty list confirms the bucket empty, one exact K-line yields its own
   * values with the canonical close, and nothing else is accepted.
   */
  lemma AcceptsExactly(payload: Payload, openMs: int, nextMs: int)
    ensures forall bar :: ParseExactResponse(payload, openMs, nextMs) == Success(bar) <==> Says(payload, openMs, nextMs, bar)
  {
    if payload.Items? && |payload.items| == 1 && payload.items[0].Row? && IsExactKline(payload.items[0].row, openMs, nextMs) {
      assert ParsePrices(payload.items[0].row, openMs, nextMs - 1, payload.items[0].row.trades.value,
                         payload.items[0].row.closeTime != Some(nextMs - 1)).Success?;
    }
  }
}
