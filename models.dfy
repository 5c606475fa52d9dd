/**
 * The rows of the tables the governance code reads and writes. The Django
 * model definitions (ip_tracking/models.py) are not part of this model; the
 * fields below are those the middleware and the scan use.
 */
module Models {
  import opened Wrappers

  /**
   * A `RequestLog` row. The address is optional because the address the
   * middleware extracts is `None` when neither the forwarded-for header nor
   * `REMOTE_ADDR` is set. Timestamps are whole seconds.
   */
  datatype LogEntry = LogEntry(ip: Option<string>, path: string, timestamp: int)

  /** The `SuspiciousIP` table: one reason per address, keyed by address alone. */
  type FlagTable = map<Option<string>, string>
}
