/**
 * Validation of a trade submission (trading_service.py, submit_trade,
 * lines 25-40): an ordered chain of checks on the request body where the
 * first failing check decides the error.
 */
module Validator {
  import opened Trades

  /** The fields every submission must carry, in the order they are checked. */
  const RequiredFields: seq<string> := ["user_id", "ticker", "side", "price", "volume"]

  /** The fields that must be positive numbers, in the order they are checked. */
  const NumericFields: seq<string> := ["price", "volume"]

  datatype ValidationError =
    | MissingField(field: string)
    | InvalidNumeric(field: string)
    | InvalidSide

  /** An int or a float that is strictly greater than zero. */
  predicate PositiveNumber(v: Value)
    ensures PositiveNumber(v) ==> v.Int? || v.Real?
  {
    match v
    case Int(i) => i > 0
    case Real(r) => r > 0.0
    case _ => false
  }

  /** The value of a number as a real; only meaningful for numbers. */
  function AsReal(v: Value): (r: real)
    ensures PositiveNumber(v) ==> r > 0.0
  {
    match v
    case Int(i) => i as real
    case Real(r) => r
    case _ => 0.0
  }

  /** The exact spellings the side field may take: no case folding. */
  predicate IsSide(v: Value)
    ensures IsSide(v) ==> v.Str? && v.s in {"buy", "sell"}
    ensures v.Str? && v.s != "buy" && v.s != "sell" ==> !IsSide(v)
  {
    v == Str("buy") || v == Str("sell")
  }

  /**
   * The index of the first field of `fields` that fails `pass`, or
   * `|fields|` when all of them pass: the loop with an early return.
   */
  function FirstFailing(fields: seq<string>, pass: string -> bool): (k: nat)
    ensures k <= |fields|
    ensures forall j | 0 <= j < k :: pass(fields[j])
    ensures k < |fields| ==> !pass(fields[k])
  {
    if fields == [] then 0
    else if !pass(fields[0]) then 0
    else 1 + FirstFailing(fields[1..], pass)
  }

  /** Every required field is present. */
  predicate AllPresent(p: Payload)
    ensures AllPresent(p) ==>
      "user_id" in p && "ticker" in p && "side" in p && "price" in p && "volume" in p
  {
    assert RequiredFields[0] == "user_id" && RequiredFields[1] == "ticker" && RequiredFields[2] == "side";
    assert RequiredFields[3] == "price" && RequiredFields[4] == "volume";
    forall j | 0 <= j < |RequiredFields| :: RequiredFields[j] in p
  }

  /** The reference definition of an acceptable submission, independent of
      the order in which the checks run. */
  predicate Acceptable(p: Payload)
  {
    && AllPresent(p)
    && PositiveNumber(p["price"])
    && PositiveNumber(p["volume"])
    && IsSide(p["side"])
  }

  /**
   * Validates a request body. Missing fields are reported first, in the
   * order of RequiredFields; then price and volume, in that order, must be
   * positive numbers; then side must be exactly "buy" or "sell". On success
   * the submission carries the payload's values unchanged.
   */
  function Validate(p: Payload): (r: Result<Submission, ValidationError>)
    ensures r.Ok? <==> Acceptable(p)
    ensures forall k | 0 <= k < |RequiredFields| ::
      r == Err(MissingField(RequiredFields[k])) <==>
        (RequiredFields[k] !in p && forall j | 0 <= j < k :: RequiredFields[j] in p)
    ensures r == Err(InvalidNumeric("price")) <==>
      AllPresent(p) && !PositiveNumber(p["price"])
    ensures r == Err(InvalidNumeric("volume")) <==>
      AllPresent(p) && PositiveNumber(p["price"]) && !PositiveNumber(p["volume"])
    ensures r == Err(InvalidSide) <==>
      AllPresent(p) && PositiveNumber(p["price"]) && PositiveNumber(p["volume"]) && !IsSide(p["side"])
    ensures r.Ok? ==>
      && r.value.userId == p["user_id"]
      && r.value.ticker == p["ticker"]
      && (r.value.side == Buy <==> p["side"] == Str("buy"))
      && (r.value.side == Sell <==> p["side"] == Str("sell"))
      && r.value.price == AsReal(p["price"])
      && r.value.volume == AsReal(p["volume"])
  {
    var missing := FirstFailing(RequiredFields, f => f in p);
    if missing < |RequiredFields| then
      Err(MissingField(RequiredFields[missing]))
    else
      var bad := FirstFailing(NumericFields, f => f in p && PositiveNumber(p[f]));
      if bad < |NumericFields| then
        Err(InvalidNumeric(NumericFields[bad]))
      else if !IsSide(p["side"]) then
        Err(InvalidSide)
      else
        Ok(Submission(
          p["user_id"],
          p["ticker"],
          if p["side"] == Str("buy") then Buy else Sell,
          AsReal(p["price"]),
          AsReal(p["volume"])))
  }
}
