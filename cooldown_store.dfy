/**
 * The notification cooldown store: the single persisted "last notified"
 * record (`last_notify.txt`) and `should_notify`, which reads it and, when
 * a notification may go out, overwrites it with the current instant.
 */
module Cooldown {
  import opened Optional
  import opened JstClock

  /** `should_notify`'s default throttling window, in minutes. */
  const DefaultThresholdMinutes: int := 360

  /**
   * What reading the record file can find. `Empty` is a file whose
   * content is only whitespace, `Garbage` one whose stripped content
   * `datetime.fromisoformat` rejects, `Stamp(t)` one that parses to the
   * instant `t`.
   */
  datatype Record = Missing | Empty | Garbage | Stamp(at: int)

  /**
   * The read at the head of `should_notify`: the file is read and stripped,
   * an empty result is rejected, and the rest goes to `fromisoformat`; a
   * missing file, an empty content or a parse failure is caught and yields
   * no instant (fail open).
   */
  function LastNotified(r: Record): Option<int> {
    match r
    case Stamp(t) => Some(t)
    case _ => None
  }

  /**
   * Whether `should_notify(now, threshold)` answers True for the record
   * `r`: no instant could be read, or at least `threshold` minutes have
   * elapsed since it (the source refuses only when the elapsed time is
   * strictly below the threshold).
   */
  predicate Permits(r: Record, now: int, thresholdMinutes: int) {
    match LastNotified(r)
    case None => true
    case Some(last) => !(now - last < thresholdMinutes * SecondsPerMinute)
  }

  /** The record file; `record` is its whole content. */
  class Store {
    var record: Record

    constructor (initial: Record)
      ensures record == initial
    {
      record := initial;
    }

    /**
     * `should_notify`: refuse inside the cooldown window and leave the
     * record alone; otherwise overwrite the record with `now` and say yes.
     */
    method ShouldNotify(now: int, thresholdMinutes: int := DefaultThresholdMinutes) returns (notify: bool)
      modifies this
      ensures notify == Permits(old(record), now, thresholdMinutes)
      ensures notify <==> (old(record).Stamp? ==> now - old(record).at >= thresholdMinutes * SecondsPerMinute)
      ensures notify ==> record == Stamp(now)
      ensures !notify ==> record == old(record)
    {
      match record {
        case Stamp(last) =>
          if now - last < thresholdMinutes * SecondsPerMinute {
            return false;
          }
        case Missing =>
          // FileNotFoundError: the store fails open
        case Empty =>
          // the stripped content is empty: ValueError, fail open
        case Garbage =>
          // fromisoformat raised ValueError: fail open
      }
      record := Stamp(now);
      return true;
    }
  }

  /** Record left behind by one `should_notify` call. */
  function RecordAfter(r: Record, now: int, thresholdMinutes: int): Record {
    if Permits(r, now, thresholdMinutes) then Stamp(now) else r
  }

  /**
   * A missing, empty or unparseable record never blocks a notification,
   * and after the call the record reads back as exactly `now`.
   */
  lemma FailOpen(r: Record, now: int, thresholdMinutes: int)
    requires !r.Stamp?
    ensures Permits(r, now, thresholdMinutes)
    ensures LastNotified(RecordAfter(r, now, thresholdMinutes)) == Some(now)
  {
  }

  /**
   * With a readable record, the store refuses exactly when fewer than
   * `threshold` minutes separate `now` from the recorded instant; a
   * refusal leaves the record as it was, a grant overwrites it with `now`.
   */
  lemma CooldownWindow(last: int, now: int, thresholdMinutes: int)
    ensures !Permits(Stamp(last), now, thresholdMinutes) <==> now - last < thresholdMinutes * SecondsPerMinute
    ensures RecordAfter(Stamp(last), now, thresholdMinutes)
              == if now - last < thresholdMinutes * SecondsPerMinute then Stamp(last) else Stamp(now)
  {
  }

  /** An elapsed time of exactly the threshold already permits a notification. */
  lemma ThresholdBoundary(last: int, thresholdMinutes: int)
    ensures Permits(Stamp(last), last + thresholdMinutes * SecondsPerMinute, thresholdMinutes)
    ensures !Permits(Stamp(last), last + thresholdMinutes * SecondsPerMinute - 1, thresholdMinutes)
  {
  }
}
