/** Shared vocabulary of the model: optional values, document ids, times and HTTP replies. */
module Common {

  /** A value that may be absent (`null` / `undefined` in the source). */
  datatype Option<+T> = None | Some(value: T)

  /** A document id (MongoDB ObjectId). The stores hand out fresh ids from a counter. */
  type Id = nat

  /** A point in time, in milliseconds since the epoch (`Date.now()`). */
  type Time = int

  /** Milliseconds in one day: `24 * 60 * 60 * 1000`. */
  const DayMs: int := 24 * 60 * 60 * 1000

  /** The status code and message of a JSON reply `{ message }`. */
  datatype Reply = Reply(status: int, message: string)
}
