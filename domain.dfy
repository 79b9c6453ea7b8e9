/** The URL record shared by the service and its gateways, and the
    failure values the gateways and the service return. */
module Domain {

  datatype Option<+T> = None | Some(value: T)

  datatype Result<+T> = Ok(value: T) | Err(error: Error)

  /** Every failure the core can observe. */
  datatype Error =
    | NotFound          // no row matched the short code (sql.ErrNoRows)
    | DuplicateCode     // the UNIQUE constraint on short_code rejected an insert
    | ValueTooLong      // the short code does not fit VARCHAR(10)
    | InvalidText       // a text value holds the NUL character, which Postgres rejects
    | IdsExhausted      // the SERIAL id sequence has passed its maximum
    | OutOfRange        // clicks + 1 does not fit the INTEGER column
    | InvalidLimit      // a negative LIMIT was passed to the top listing
    | CacheMiss         // the key is absent or has expired in the cache
    | Unavailable       // the store or the cache could not be reached

  /** A durable-store timestamp; the clock itself is outside the model. */
  type Timestamp = int

  /** One row of the `urls` table, as scanned into the Go record. */
  datatype Url = Url(
    id: int,
    shortCode: string,
    longUrl: string,
    clicks: int,
    createdAt: Timestamp)
}
