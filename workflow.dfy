/**
 * The submission workflow of submit_trade (trading_service.py, lines
 * 20-77): validate, create the record as `Pending`, then confirm it as
 * `Successful` or, when confirming fails, mark it `Failed`.
 */
module Workflow {
  import opened Trades
  import opened Validator
  import opened Store

  /** What the caller is told. Both internal-error paths share one generic
      result; `MarkedFailed` is distinct: its record exists. */
  datatype Outcome =
    | Rejected(reason: ValidationError)
    | Confirmed
    | MarkedFailed
    | InternalError

  /**
   * Runs one submission against `store`. The storage engine's behaviour is
   * given by three flags: whether the create commit succeeds, whether the
   * confirm step (flush, refresh, commit of `Successful`) succeeds, and
   * whether the commit of `Failed` after a failed confirm succeeds.
   */
  method SubmitTrade(
    store: TradeStore, payload: Payload, now: Timestamp,
    createOk: bool, confirmOk: bool, markFailedOk: bool)
    returns (o: Outcome)
    requires store.Valid()
    modifies store
    ensures store.Valid()
    ensures Evolves(old(store.trades), store.trades)
    // A rejected payload never reaches the store.
    ensures o.Rejected? <==> Validate(payload).Err?
    ensures o.Rejected? ==> o.reason == Validate(payload).error && store.trades == old(store.trades)
    // A failed create leaves no record and yields the generic error.
    ensures Validate(payload).Ok? && !createOk ==>
      o == InternalError && store.trades == old(store.trades)
    // Otherwise exactly one record is added, and its final status matches the outcome.
    ensures Validate(payload).Ok? && createOk ==>
      var n := |old(store.trades)|;
      && |store.trades| == n + 1
      && store.trades[..n] == old(store.trades)
      && var t := store.trades[n];
      && t == NewRecord(Validate(payload).value, n, now).(status := t.status)
      && (o == Confirmed <==> t.status == Successful)
      && (o == MarkedFailed <==> t.status == Failed)
      && (o == InternalError <==> t.status == Pending)
      && (t.status == Successful <==> confirmOk)
      && (t.status == Failed <==> !confirmOk && markFailedOk)
  {
    var checked := Validate(payload);
    if checked.Err? {
      return Rejected(checked.error);
    }
    var id := store.Create(checked.value, now, createOk);
    if id.None? {
      // Outer handler: the session is rolled back, nothing was committed.
      return InternalError;
    }
    store.SetStatus(id.value, Successful, confirmOk);
    if confirmOk {
      return Confirmed;
    }
    // Inner handler: mark the committed record as failed.
    store.SetStatus(id.value, Failed, markFailedOk);
    if markFailedOk {
      return MarkedFailed;
    }
    // The failed-status commit raised too: the outer handler rolls back,
    // and the committed record keeps its `Pending` status.
    return InternalError;
  }
}
