/** The message record the mail code hands to the display layer (src/types/index.ts). */
module Types {
  import opened Wrappers

  /** A point in time as `Date.prototype.getTime()` gives it: milliseconds since the epoch. */
  type Instant = int

  /**
   * One parsed message. `receivedAt` is kept as the instant its ISO-8601 text
   * denotes; `subject` is `None` where the record leaves it `undefined`.
   */
  datatype Email = Email(
    id: string,
    from: string,
    subject: Option<string>,
    body: string,
    receivedAt: Instant,
    s3Key: string)
}
