/**
 * `analize_pressure_drop`: compare the current reading with the one from
 * 30 minutes earlier and, outside night hours, on a drop of more than
 * 1.0 hPa, ask the cooldown store and push the alert.
 */
module DropDetector {
  import opened Optional
  import opened JstClock
  import opened Cooldown
  import opened Notifier

  /** A drop is significant only when `current - past` is strictly below this (hPa). */
  const DropThreshold: real := -1.0

  /**
   * Which branch one evaluation took. `MissingCurrent` and
   * `MissingPrevious` are the two early `return False`s; every other branch
   * falls off the end of the function.
   */
  datatype Outcome =
    | MissingCurrent
    | MissingPrevious
    | NightSkipped
    | CooldownSkipped
    | Notified
    | NoSignificantChange

  /** One scheduled run's inputs: the current and the 30-minutes-ago reading. */
  datatype Invocation = Invocation(
    currentTime: Option<int>, currentPressure: Option<real>,
    pastTime: Option<int>, pastPressure: Option<real>)

  predicate HasData(inv: Invocation) {
    inv.currentTime.Some? && inv.currentPressure.Some?
    && inv.pastTime.Some? && inv.pastPressure.Some?
  }

  /** The pressure change over the 30 minutes (negative when falling). */
  function Delta(inv: Invocation): real
    requires HasData(inv)
  {
    inv.currentPressure.value - inv.pastPressure.value
  }

  /** The decision taken for `inv` when the record file holds `r`. */
  function Evaluate(inv: Invocation, r: Record): Outcome {
    if inv.currentTime.None? || inv.currentPressure.None? then MissingCurrent
    else if inv.pastTime.None? || inv.pastPressure.None? then MissingPrevious
    else if IsNightHour(inv.currentTime.value) then NightSkipped
    else if Delta(inv) < DropThreshold then
      if Permits(r, inv.currentTime.value, DefaultThresholdMinutes) then Notified else CooldownSkipped
    else NoSignificantChange
  }

  /** The record file after `inv`: only a sent notification writes it. */
  function NextRecord(inv: Invocation, r: Record): Record {
    if Evaluate(inv, r) == Notified then Stamp(inv.currentTime.value) else r
  }

  /** The alert pushed for `inv`. */
  function AlertFor(inv: Invocation): Message
    requires inv.currentPressure.Some?
  {
    PressureDropAlert(inv.currentPressure.value)
  }

  /**
   * `analize_pressure_drop`: the store is consulted, and written, only on a
   * genuine daytime drop; the alert goes out only when the store says yes,
   * after the store has recorded `currentTime`.
   */
  method AnalyzePressureDrop(store: Store, channel: LineChannel, inv: Invocation) returns (outcome: Outcome)
    modifies store, channel
    ensures outcome == Evaluate(inv, old(store.record))
    ensures store.record == NextRecord(inv, old(store.record))
    ensures channel.sent == old(channel.sent)
              + (if outcome == Notified then PushesFor(AlertFor(inv), channel.userIds) else [])
  {
    if inv.currentTime.None? || inv.currentPressure.None? {
      return MissingCurrent;
    }
    if inv.pastTime.None? || inv.pastPressure.None? {
      return MissingPrevious;
    }
    var now := inv.currentTime.value;
    var delta := inv.currentPressure.value - inv.pastPressure.value;
    if IsNightHour(now) {
      outcome := NightSkipped;
    } else if delta < DropThreshold {
      var notify := store.ShouldNotify(now);
      if notify {
        channel.SendMessage(PressureDropAlert(inv.currentPressure.value));
        outcome := Notified;
      } else {
        outcome := CooldownSkipped;
      }
    } else {
      outcome := NoSignificantChange;
    }
  }

  /**
   * Missing data short-circuits before anything else: nothing is sent and
   * the record is not touched.
   */
  lemma MissingDataIsSilent(inv: Invocation, r: Record)
    requires !HasData(inv)
    ensures Evaluate(inv, r) == (if inv.currentTime.None? || inv.currentPressure.None? then MissingCurrent else MissingPrevious)
    ensures NextRecord(inv, r) == r
  {
  }

  /** Night takes priority over the delta and the cooldown record. */
  lemma NightWins(inv: Invocation, r: Record)
    requires HasData(inv) && IsNightHour(inv.currentTime.value)
    ensures Evaluate(inv, r) == NightSkipped
    ensures NextRecord(inv, r) == r
  {
  }

  /** A change of -1.0 hPa or more never notifies and never writes the record. */
  lemma SmallChangeIsSilent(inv: Invocation, r: Record)
    requires HasData(inv) && Delta(inv) >= DropThreshold
    ensures Evaluate(inv, r) in {NightSkipped, NoSignificantChange}
    ensures NextRecord(inv, r) == r
  {
  }

  /**
   * A notification goes out exactly when the data is present, it is day
   * in JST, the drop exceeds 1.0 hPa, and the store permits it.
   */
  lemma NotifiesExactlyWhen(inv: Invocation, r: Record)
    ensures Evaluate(inv, r) == Notified <==>
              HasData(inv) && !IsNightHour(inv.currentTime.value) && Delta(inv) < DropThreshold
              && (r.Stamp? ==> inv.currentTime.value - r.at >= DefaultThresholdMinutes * SecondsPerMinute)
    ensures Evaluate(inv, r) == CooldownSkipped <==>
              HasData(inv) && !IsNightHour(inv.currentTime.value) && Delta(inv) < DropThreshold
              && r.Stamp? && inv.currentTime.value - r.at < DefaultThresholdMinutes * SecondsPerMinute
  {
  }

  /**
   * Re-running the same evaluation: without a notification nothing changed,
   * so the second run decides the same; after a notification the second run
   * at the same instant is held back by the cooldown.
   */
  lemma {:induction false} RepeatedEvaluation(inv: Invocation, r: Record)
    ensures Evaluate(inv, r) != Notified ==> Evaluate(inv, NextRecord(inv, r)) == Evaluate(inv, r)
    ensures Evaluate(inv, r) == Notified ==> Evaluate(inv, NextRecord(inv, r)) == CooldownSkipped
  {
  }

  /** The instants at which a sequence of scheduled runs sends a notification. */
  function NotifyTimes(r: Record, runs: seq<Invocation>): seq<int>
    decreases runs
  {
    if runs == [] then []
    else
      var inv := runs[0];
      (if Evaluate(inv, r) == Notified then [inv.currentTime.value] else [])
      + NotifyTimes(NextRecord(inv, r), runs[1..])
  }

  /** The record file after a sequence of scheduled runs. */
  function FinalRecord(r: Record, runs: seq<Invocation>): Record
    decreases runs
  {
    if runs == [] then r else FinalRecord(NextRecord(runs[0], r), runs[1..])
  }

  /** Consecutive notification instants are at least one cooldown window apart. */
  ghost predicate Spaced(times: seq<int>) {
    forall k :: 0 <= k < |times| - 1 ==>
      times[k + 1] - times[k] >= DefaultThresholdMinutes * SecondsPerMinute
  }

  /**
   * At most one notification per cooldown window: over any sequence of
   * runs, whatever their order in time, each notification comes at least
   * 360 minutes after the previous one, and the first at least 360 minutes
   * after the instant the record held; the record ends up holding the last
   * notification's instant.
   */
  lemma {:induction false} AtMostOncePerWindow(r: Record, runs: seq<Invocation>)
    ensures Spaced(NotifyTimes(r, runs))
    ensures r.Stamp? && NotifyTimes(r, runs) != [] ==>
              NotifyTimes(r, runs)[0] - r.at >= DefaultThresholdMinutes * SecondsPerMinute
    ensures FinalRecord(r, runs)
              == if NotifyTimes(r, runs) == [] then r else Stamp(NotifyTimes(r, runs)[|NotifyTimes(r, runs)| - 1])
    decreases runs
  {
    if runs != [] {
      var inv := runs[0];
      var r' := NextRecord(inv, r);
      AtMostOncePerWindow(r', runs[1..]);
      var rest := NotifyTimes(r', runs[1..]);
      if Evaluate(inv, r) == Notified {
        var t := inv.currentTime.value;
        assert NotifyTimes(r, runs) == [t] + rest;
        assert r' == Stamp(t);
        forall k | 0 <= k < |[t] + rest| - 1
          ensures ([t] + rest)[k + 1] - ([t] + rest)[k] >= DefaultThresholdMinutes * SecondsPerMinute
        {
          if k > 0 {
            assert ([t] + rest)[k] == rest[k - 1];
          }
        }
      } else {
        assert NotifyTimes(r, runs) == rest;
      }
    }
  }
}
