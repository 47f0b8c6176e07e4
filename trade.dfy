/**
 * The data model of the trading service: the JSON values a client may
 * send, the validated submission, and the persisted Trade record with its
 * lifecycle status.
 */
module Trades {

  datatype Option<+T> = None | Some(value: T)

  datatype Result<+T, +E> = Ok(value: T) | Err(error: E)

  /** A JSON value as the request body carries it. `Other` stands for
      null, booleans, lists and objects: none of them is a number or a
      string, which is all the validator distinguishes. */
  datatype Value = Str(s: string) | Int(i: int) | Real(r: real) | Other

  /** The decoded request body: field name to value. */
  type Payload = map<string, Value>

  /** Numbers the validator has checked to be strictly positive. */
  type PositiveReal = r: real | r > 0.0 witness 1.0

  /** The moment the store stamps on a new record; opaque to the service. */
  type Timestamp = int

  datatype Side = Buy | Sell

  /** Lifecycle of a record: created `Pending`, then set once to a
      terminal status. */
  datatype Status = Pending | Successful | Failed

  /** A payload that passed validation. `userId` and `ticker` are carried
      as the client sent them: the service never checks their type. */
  datatype Submission = Submission(
    userId: Value,
    ticker: Value,
    side: Side,
    price: PositiveReal,
    volume: PositiveReal)

  /** A persisted trade record (the `trade` table). */
  datatype Trade = Trade(
    id: nat,
    userId: Value,
    ticker: Value,
    side: Side,
    price: PositiveReal,
    volume: PositiveReal,
    timestamp: Timestamp,
    status: Status)

  /** The record the workflow creates for a submission: the submission's
      fields, the store's id and time, and status `Pending`. */
  function NewRecord(sub: Submission, id: nat, now: Timestamp): Trade
  {
    Trade(id, sub.userId, sub.ticker, sub.side, sub.price, sub.volume, now, Pending)
  }
}
