# Barometric pressure-drop notifier — decision and throttling model

A Dafny model of the decision core of `line_notify.py`. Once per
scheduled run the script compares the current barometric reading with the
reading from 30 minutes earlier. It stays silent during the JST night
(00:00–05:59). On a drop of more than 1.0 hPa it asks a one-value cooldown
store (`last_notify.txt`) whether 360 minutes have passed since the last
alert. If they have, it overwrites the store with the current instant and
pushes an alert to every configured LINE user id that is non-blank after
stripping.

Representation choices:

- Instants are whole seconds since the Unix epoch. Cooldown arithmetic
  uses absolute differences, as Python does with timezone-aware datetimes.
  The JST hour is the hour of `t + 9 h`.
- Pressures are exact `real` hPa values.
- The record file is `Missing | Empty | Garbage | Stamp(t)`. `Empty` means
  whitespace-only content and `Garbage` means content that
  `datetime.fromisoformat` rejects. It is the `record` field of
  `Cooldown.Store`, and `ShouldNotify` overwrites it in place.
- Each push request is logged as `Push(to, message)` in the `sent` field of
  `Notifier.LineChannel`. That class also holds the configured `USER_IDS`.
- The Python function returns `False` for missing data and falls through
  (returning `None`) on every other branch. The model instead returns an
  `Outcome` that names the branch taken: `MissingCurrent` and
  `MissingPrevious` are the two `return False` paths.

Modules: `JstClock` (`is_night_hour`), `Cooldown` (`should_notify` and the
record file), `Notifier` (`send_message`'s recipient loop), `DropDetector`
(`analize_pressure_drop`, plus properties over sequences of scheduled runs),
and `Optional` (an `Option` type for readings a provider could not supply).

## Model

| member | source | states |
|---|---|---|
| `JstClock.JstHour` | line_notify.py:186 | the hour of day of an instant seen in UTC+9 always lies in 0..23 |
| `JstClock.IsNightHour` | line_notify.py:177-186 | `is_night_hour`: the JST hour lies in [0, 6); characterised by `NightIsStartOfJstDay` (the first 21600 s of the JST day, both directions), `NightBoundaries` and `NightIsDaily` |
| `JstClock.JstHourOfWallClock` | line_notify.py:186 | the instant showing h:mm:ss on any JST calendar day has JST hour h |
| `JstClock.NightIsStartOfJstDay` | line_notify.py:177-186 | `is_night_hour` holds exactly when the instant falls in the first 6 hours (21600 s) of its JST day, in both directions |
| `JstClock.NightBoundaries` | line_notify.py:186 | 00:00:00 and 05:59:59 JST count as night; 06:00:00 JST does not |
| `JstClock.NightIsDaily` | line_notify.py:186 | shifting an instant by whole days does not change whether it is night |
| `Cooldown.Permits` | line_notify.py:155-166 | the answer `should_notify` gives for a record: yes when no stamp is readable, otherwise yes exactly when the elapsed time is not below the threshold; characterised by `FailOpen`, `CooldownWindow` and `ThresholdBoundary`, and used by `Store.ShouldNotify`'s ensures |
| `Cooldown.Store.ShouldNotify` | line_notify.py:142-174 | answers yes exactly when no stamp is readable or at least `threshold` minutes (default 360) have elapsed since the stamp; a yes overwrites the whole record with `now`, a no leaves it unchanged |
| `Cooldown.FailOpen` | line_notify.py:155-174 | a missing, empty or unparseable record never blocks a notification, and afterwards the record reads back as exactly the current instant |
| `Cooldown.CooldownWindow` | line_notify.py:164-172 | with a readable stamp, the store refuses exactly when the elapsed time is strictly less than the threshold; a refusal keeps the old stamp, a grant replaces it with `now` |
| `Cooldown.ThresholdBoundary` | line_notify.py:142-166 | an elapsed time of exactly the threshold is already allowed, and one second less is refused |
| `Notifier.Strip` | line_notify.py:96 | `uid.strip()` over Python's whitespace set; characterised by `StripIsTrimmedSlice`, `StripBlank` and `StripIdempotent` |
| `Notifier.StripIsTrimmedSlice` | line_notify.py:96 | `uid.strip()` is the contiguous slice left after removing a whitespace prefix and a whitespace suffix, and, when non-empty, neither starts nor ends with whitespace |
| `Notifier.StripBlank` | line_notify.py:96-98 | an id is skipped exactly when it is empty or consists only of whitespace |
| `Notifier.StripIdempotent` | line_notify.py:96 | stripping an already stripped id changes nothing |
| `Notifier.Recipients` | line_notify.py:95-98 | the stripped non-blank ids, in list order; characterised by `RecipientsAppend`, `RecipientsExactly` and `RecipientsAreTrimmed`, and the loop of `LineChannel.SendMessage` is proved to push to exactly these |
| `Notifier.RecipientsAppend` | line_notify.py:95-98 | recipient filtering distributes over concatenation of id lists, so pushes follow the configured order |
| `Notifier.RecipientsExactly` | line_notify.py:95-98 | a string receives a push exactly when it is non-empty and some configured id strips to it |
| `Notifier.RecipientsAreTrimmed` | line_notify.py:95-99 | every push goes to a non-empty id with no leading or trailing whitespace |
| `Notifier.LineChannel.SendMessage` | line_notify.py:84-104 | the sent log grows by exactly one push per non-blank stripped id, in list order, and nothing else changes |
| `DropDetector.Evaluate` | line_notify.py:58-81 | the branch chain of `analize_pressure_drop` in source order: missing current data, missing past data, night, drop below -1.0 with the cooldown answer, otherwise no change; characterised by `MissingDataIsSilent`, `NightWins`, `SmallChangeIsSilent` and `NotifiesExactlyWhen` |
| `DropDetector.AnalyzePressureDrop` | line_notify.py:47-81 | the outcome is `Evaluate` of the inputs and the old record; the final record is rewritten with the current instant only when a notification is sent, and the channel's log grows by the alert pushes only then. The body writes the record before pushing; the contract gives the final record and log |
| `DropDetector.MissingDataIsSilent` | line_notify.py:58-64 | a missing current time or pressure, or a missing past time or pressure, ends the evaluation with no push and no record write (the current pair is checked first) |
| `DropDetector.NightWins` | line_notify.py:72-73 | during JST night nothing is sent and the record is untouched, whatever the delta and the record |
| `DropDetector.SmallChangeIsSilent` | line_notify.py:66-81 | a change of -1.0 hPa or more never sends and never writes the record |
| `DropDetector.NotifiesExactlyWhen` | line_notify.py:72-79 | a notification is sent exactly when data is present, it is daytime in JST, delta < -1.0 and the cooldown has expired or no stamp is readable; the cooldown skip is characterised the same way |
| `DropDetector.RepeatedEvaluation` | line_notify.py:72-79 | re-running the same inputs decides the same unless the first run notified, in which case the rerun is held back by the cooldown |
| `DropDetector.AtMostOncePerWindow` | line_notify.py:75-77 | over any sequence of runs, consecutive notifications are at least 360 minutes apart, and the first is at least 360 minutes after the stamp already stored. The record ends up holding the last notification instant |

## Left out

- Fetching the current reading (`get_api_data`, line_notify.py:107-139) and the historical reading (`get_bme680_data_from_influxdb`, line_notify.py:23-44) are network I/O. Each reading is an input whose time and pressure may independently be absent.
- The `__main__` block (line_notify.py:189-195) unpacks the provider results directly. When a provider returns nothing, Python raises `TypeError` before the evaluation runs. The model only covers the evaluation itself, where each field may be absent.
- The HTTP POST to the LINE push endpoint and its JSON payload (line_notify.py:90-93, 99-104) are not modelled. Each request is a `Push` entry in the sent log; response status is not tracked.
- Notifier.LineChannel.SendMessage: does not model an exception raised by `requests.post` (line_notify.py:101), such as a connection error. In the source that exception ends the loop, so the remaining ids get no push, while the record written at line 172 stays written. The model always logs a push for every recipient.
- Environment configuration, the global InfluxDB client and the `split(",")` of `LINE_USER_IDS` (line_notify.py:7-20) are not modelled; the id list is a constructor argument.
- All `print` logging is left out.
- The message text and its `:.1f` formatting (line_notify.py:76) are not modelled; the message is a value that carries the current pressure.
- Parsing of the stored ISO-8601 text (line_notify.py:164) is abstracted: the record is either a parsed instant or `Garbage`. A `TypeError` from comparing a naive stamp with an aware one, and I/O errors other than a missing file, are not modelled.
- Pressures are exact reals. The source subtracts IEEE doubles, so rounding could move a delta near -1.0 across the threshold.
- Instants have one-second resolution; Python datetimes carry microseconds.
- `Notifier.IsSpace` lists the characters for which Python's `str.isspace()` is true; this list is written out by hand rather than taken from the Unicode database.
