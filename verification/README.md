# pvz device-status read side, in Dafny

This project models the read side of the pvz device-status backend. That is
the logic which turns the live key-value store and the measurement log into
API responses:

- **Key schema** (`RedisKeys`). Keys have the form
  `pvz:{env}:{tenant}:device:{id}:state` and
  `...:humidity_low_streak`, and there are wildcard patterns. The device id can
  be read back out of a scanned key (`extractDeviceId`,
  `extractDeviceIdFromStreakKey`).
- **Field parsers.** These turn the string-valued hash fields into nullable
  typed values. The rules are:
  - `Long` and `Double` read as null when malformed.
  - `int` reads as 0 when malformed.
  - `Boolean` is a lower-cased word match.
- **Store readers** (`RedisDeviceRepository`):
  - `findById`
  - `findAllByTenant`
  - `findRecentSummary` with `emptySummary`
  - `findDroughtStreak`
  - the `findDroughtSummary` fold: a count, a strict-maximum argmax and the
    first non-null threshold
- **Response assembly:**
  - `DeviceStateResponse.from` with its four parsers.
  - `DeviceService`: the delegating getters, and `getRecentSnapshots` with its
    last-seen rule and 32-bit rssi narrowing.
- **Metrics path:**
  - `MetricsBucket`.
  - Range resolution in `DeviceMetricsService.getMetrics`. HOUR and DAY look
    back 24 hours and 30 days. WEEK without a usable explicit range throws.
  - The `aggregateByTime` JPQL query, as a pure group-by.
  - `AggregatedPoint.convertToInstant`.

## How the model represents things

- **Nulls and exceptions.** A Java null is an `Option`. A thrown exception is
  the `Failure` case of a `Result`.
- **The store.** The store is a `map<string, Lookup>`, where a lookup is
  either `Fail`, standing for a `DataAccessException`, or `Ok(fields)`. A
  missing key reads as an empty hash, as `hashOps.entries` returns one.
- **Key scans.** The result of `KEYS pattern` is a parameter: a sequence in
  whatever order the store returned it.
- **Key patterns.** `GlobMatch` follows Redis's glob rules: `*`, `?`,
  bracket classes with `^` negation and ranges, and `\` escapes. The
  pattern lemmas use it to say which keys a scan may return.
- **Time.** An `Instant` is a count of nanoseconds since the epoch. The
  `Instant.MIN`/`Instant.MAX` range checks of `ofEpochSecond` and `minus` are
  explicit.
- **Clock and `date_trunc`.** The clock (`Instant.now()`) is a parameter
  `now`. PostgreSQL's `date_trunc` is a parameter `truncate`. The lemmas that
  need it assume only that `truncate` is at most its argument and monotone.

**There is no time-window filter in `getRecentSnapshots`.** It takes no
window: it returns one snapshot for every device that `findAllByTenant`
lists. The model follows the code, and `DeviceService.GetRecentSnapshots` states that the output has
exactly one entry per listed device.

**`DeviceStateResponse.from` is modelled over raw strings.** `DeviceState`
declares typed fields, but `from` passes each one to a `String` parser. The
model gives `from` a `RawDeviceState` whose measured fields are still the raw
hash strings. `FromAgreesWithFindById` relates the two readings. They agree
field by field, except rssi: `from` keeps rssi only when it fits 32 bits.

## Model

| member | source | states |
|---|---|---|
| RedisKeys.DevicesSetIsNoDeviceKey | pvz-backend/src/main/java/iot/data/platform/devices/infra/RedisKeys.java:7-9 | the devices-set key never equals a state or streak key of the same environment and tenant |
| RedisKeys.DeviceStateInjective | pvz-backend/src/main/java/iot/data/platform/devices/infra/RedisKeys.java:11-13 | for a fixed environment and tenant, different device ids give different state keys |
| RedisKeys.DeviceHumidityLowStreakInjective | pvz-backend/src/main/java/iot/data/platform/devices/infra/RedisKeys.java:15-17 | for a fixed environment and tenant, different device ids give different streak keys |
| RedisKeys.DeviceHumidityLowStreakPattern | pvz-backend/src/main/java/iot/data/platform/devices/infra/RedisKeys.java:19-21 | the streak pattern is the streak key with `*` in place of the device id |
| RedisKeys.StreakKeyMatchesPattern | pvz-backend/src/main/java/iot/data/platform/devices/infra/RedisKeys.java:15-21 | under Redis glob matching, every streak key of an environment and tenant without `[` or `\` matches their streak pattern, whatever the device id |
| RedisKeys.DeviceStatePattern | pvz-backend/src/main/java/iot/data/platform/devices/infra/RedisDeviceRepository.java:29 | the pattern that findAllByTenant scans is the state key with `*` in place of the device id |
| RedisKeys.StateKeyMatchesPattern | pvz-backend/src/main/java/iot/data/platform/devices/infra/RedisDeviceRepository.java:29-30 | every state key of an environment and tenant without `[` or `\` matches the pattern that findAllByTenant scans |
| RedisKeys.UnescapedPatternMissesTenant | pvz-backend/src/main/java/iot/data/platform/devices/infra/RedisDeviceRepository.java:29-30 | for tenant id "[t]" the scanned pattern matches none of the tenant's own state keys and matches those of tenant "t" |
| RedisKeys.GlobMatchEscaped | pvz-backend/src/main/java/iot/data/platform/devices/infra/RedisDeviceRepository.java:29 | a segment spliced into a pattern with its glob-special characters escaped matches exactly that segment |
| RedisKeys.EscapedPatternMatchesEveryKey | pvz-backend/src/main/java/iot/data/platform/devices/infra/RedisDeviceRepository.java:29-30 | with environment and tenant escaped, the state pattern matches every state key of that environment and tenant, whatever characters they hold |
| MetricsBucket.PostgresUnit | pvz-backend/src/main/java/iot/data/platform/devices/core/MetricsBucket.java:4-16 | each bucket's unit is one of hour/day/week, and mapping the unit back gives the bucket |
| MetricsBucket.PostgresUnitInjective | pvz-backend/src/main/java/iot/data/platform/devices/core/MetricsBucket.java:4-6 | distinct buckets are truncated with distinct units |
| MetricsBucket.BucketOfUnitRoundTrip | pvz-backend/src/main/java/iot/data/platform/devices/core/MetricsBucket.java:4-16 | every unit name that names a bucket is that bucket's unit |
| Text.IndexOf | pvz-backend/src/main/java/iot/data/platform/devices/infra/RedisDeviceRepository.java:50 | String.indexOf: the result is -1 or a position where the pattern occurs, and the pattern occurs at no earlier position |
| Text.LastIndexOf | pvz-backend/src/main/java/iot/data/platform/devices/infra/RedisDeviceRepository.java:51 | String.lastIndexOf: the result is -1 or a position where the pattern occurs, and the pattern occurs at no later position |
| Text.ToLower | pvz-backend/src/main/java/iot/data/platform/devices/infra/RedisDeviceRepository.java:92 | lower-casing keeps the length and maps each character on its own |
| Text.Trim | pvz-backend/src/main/java/iot/data/platform/devices/infra/RedisDeviceRepository.java:213 | the trim that Double.parseDouble applies leaves no trimmable character at either end, and leaves a text without such characters unchanged |
| Text.TrimIsSlice | pvz-backend/src/main/java/iot/data/platform/devices/infra/RedisDeviceRepository.java:213 | the trimmed text is one contiguous slice of the original, and everything cut off at either end is trimmable |
| Numerals.ParseBounded | pvz-backend/src/main/java/iot/data/platform/devices/infra/RedisDeviceRepository.java:87 | Long.parseLong and Integer.parseInt succeed exactly when the integer grammar accepts the text and its value is within the type's range |
| Numerals.ParseFormatInteger | pvz-backend/src/main/java/iot/data/platform/devices/infra/RedisDeviceRepository.java:87 | every integer's canonical numeral parses back to that integer |
| Numerals.IntegerIsDecimal | pvz-backend/src/main/java/iot/data/platform/devices/infra/RedisDeviceRepository.java:213 | wherever the integer grammar accepts a text, the decimal grammar accepts it with the same value |
| Numerals.ToInt32 | pvz-backend/src/main/java/iot/data/platform/devices/api/DeviceService.java:61 | Long.intValue gives a 32-bit value congruent to its input modulo 2^32, which equals the input when it fits |
| FieldParsers.ParseLongOrNull | pvz-backend/src/main/java/iot/data/platform/devices/infra/RedisDeviceRepository.java:85-88 | non-null exactly when the value is present, parses as an integer and fits 64 bits; null for missing or blank |
| FieldParsers.ParseLongRoundTrip | pvz-backend/src/main/java/iot/data/platform/devices/infra/RedisDeviceRepository.java:85-88 | a 64-bit value written as a numeral reads back unchanged; one outside the range reads as null |
| FieldParsers.ParseBoolOrNull | pvz-backend/src/main/java/iot/data/platform/devices/infra/RedisDeviceRepository.java:90-97 | true exactly when the lower-cased value is 1/true/yes/on, false exactly when it is 0/false/no/off, null otherwise |
| FieldParsers.BlankIsNoWord | pvz-backend/src/main/java/iot/data/platform/devices/infra/RedisDeviceRepository.java:91-95 | lower-casing a blank value never gives a boolean word, so the blank check agrees with the word match |
| FieldParsers.ParseBoolCaseInsensitive | pvz-backend/src/main/java/iot/data/platform/devices/infra/RedisDeviceRepository.java:92 | two values that lower-case alike read as the same boolean |
| FieldParsers.ParseBoolUpperYes | pvz-backend/src/main/java/iot/data/platform/devices/infra/RedisDeviceRepository.java:92-93 | "YES" reads as true |
| FieldParsers.ParseIntOrZero | pvz-backend/src/main/java/iot/data/platform/devices/infra/RedisDeviceRepository.java:201-208 | the result always fits 32 bits; missing or blank gives 0; a parsable in-range value gives itself; any non-zero result is the parsed value |
| FieldParsers.ParseIntRoundTrip | pvz-backend/src/main/java/iot/data/platform/devices/infra/RedisDeviceRepository.java:201-208 | a 32-bit value written as a numeral reads back unchanged; any other integer numeral reads as 0 |
| FieldParsers.ParseDoubleOrNull | pvz-backend/src/main/java/iot/data/platform/devices/infra/RedisDeviceRepository.java:210-217 | null for missing or blank; otherwise the decimal reading of the value |
| FieldParsers.ParseDoubleOfInteger | pvz-backend/src/main/java/iot/data/platform/devices/infra/RedisDeviceRepository.java:210-217 | an integer numeral reads as that integer |
| RedisDeviceRepository.ExtractSegment | pvz-backend/src/main/java/iot/data/platform/devices/infra/RedisDeviceRepository.java:49-56 | an id is found exactly when ":device:" occurs and the suffix occurs more than 8 characters after it; the id is then the non-empty text between the first ":device:" and the last occurrence of the suffix |
| RedisDeviceRepository.ExtractDeviceIdRoundTrip | pvz-backend/src/main/java/iot/data/platform/devices/infra/RedisDeviceRepository.java:49-56 | extracting from the state key of a non-empty id gives that id back, when env and tenant contain no ':' and are not "device" |
| RedisDeviceRepository.ExtractStreakDeviceIdRoundTrip | pvz-backend/src/main/java/iot/data/platform/devices/infra/RedisDeviceRepository.java:181-186 | the same round trip for streak keys |
| RedisDeviceRepository.ExtractEmptySegment | pvz-backend/src/main/java/iot/data/platform/devices/infra/RedisDeviceRepository.java:52-53 | a key with an empty device segment yields null |
| RedisDeviceRepository.FindById | pvz-backend/src/main/java/iot/data/platform/devices/infra/RedisDeviceRepository.java:58-83 | null exactly when the lookup fails or the hash is empty; otherwise the identity is echoed and each field is its parser applied to the entry of the same name |
| RedisDeviceRepository.FindAllByTenant | pvz-backend/src/main/java/iot/data/platform/devices/infra/RedisDeviceRepository.java:28-47 | no keys gives an empty list; every listed device is the readable device of some scanned key, and every scanned key with an extractable id and readable snapshot contributes its device |
| RedisDeviceRepository.FindAllByTenantDistinct | pvz-backend/src/main/java/iot/data/platform/devices/infra/RedisDeviceRepository.java:28-47 | distinct scanned keys, each either yielding no id or a well-formed state key, give a list in which no device id repeats |
| RedisDeviceRepository.FindAllByTenantListsDevice | pvz-backend/src/main/java/iot/data/platform/devices/infra/RedisDeviceRepository.java:37-45 | a device whose state key was scanned and whose state hash is readable is on the list, as findById's snapshot |
| RedisDeviceRepository.StateKeyWellFormed | pvz-backend/src/main/java/iot/data/platform/devices/infra/RedisDeviceRepository.java:38-41 | a state key built from a plain environment and tenant and a non-empty id is well-formed: the id extracted from it rebuilds the same key |
| RedisDeviceRepository.EmptySummary | pvz-backend/src/main/java/iot/data/platform/devices/infra/RedisDeviceRepository.java:188-199 | the empty rollup has window 600, zero counts and null averages |
| RedisDeviceRepository.FindRecentSummary | pvz-backend/src/main/java/iot/data/platform/devices/infra/RedisDeviceRepository.java:99-119 | the window is always 600 and the counts always fit 32 bits; an unreadable key gives the empty summary; otherwise counts read unusable values as 0 and averages as null |
| RedisDeviceRepository.RecentSummaryRoundTrip | pvz-backend/src/main/java/iot/data/platform/devices/infra/RedisDeviceRepository.java:99-119 | a rollup hash whose counts are 32-bit numerals and whose averages are integer numerals reads back as exactly those values |
| RedisDeviceRepository.RecentSummaryMalformed | pvz-backend/src/main/java/iot/data/platform/devices/infra/RedisDeviceRepository.java:106-116 | a count that is not a numeral reads as 0, whereas an average that is not a number reads as null |
| RedisDeviceRepository.FindDroughtStreak | pvz-backend/src/main/java/iot/data/platform/devices/infra/RedisDeviceRepository.java:121-143 | null exactly when the streak hash is unreadable; otherwise the identity is echoed and each field comes from its named entry |
| RedisDeviceRepository.DroughtStreakRoundTrip | pvz-backend/src/main/java/iot/data/platform/devices/infra/RedisDeviceRepository.java:121-143 | a streak hash with threshold and streak_days as integer numerals and a 64-bit last_ts reads back as those values, with the unwritten fields null |
| RedisDeviceRepository.DroughtStreakZeroVersusAbsent | pvz-backend/src/main/java/iot/data/platform/devices/infra/RedisDeviceRepository.java:121-143 | a hash holding only streak_days "0" gives a record with streak 0; a missing key or a failing lookup gives null |
| RedisDeviceRepository.ReadStreak | pvz-backend/src/main/java/iot/data/platform/devices/infra/RedisDeviceRepository.java:157-167 | a streak key is skipped exactly when its lookup fails or its hash is empty; otherwise threshold and streak_days are parsed |
| RedisDeviceRepository.Scan | pvz-backend/src/main/java/iot/data/platform/devices/infra/RedisDeviceRepository.java:151-176 | the loop's count is between 0 and the number of keys, its maximum is non-negative, and a zero maximum names no device |
| RedisDeviceRepository.FindDroughtSummary | pvz-backend/src/main/java/iot/data/platform/devices/infra/RedisDeviceRepository.java:145-179 | no keys gives (null, 0, 0.0, null); the count is bounded by the keys; a zero maximum names no device |
| RedisDeviceRepository.ScanCountsInDrought | pvz-backend/src/main/java/iot/data/platform/devices/infra/RedisDeviceRepository.java:167-170 | the loop counts exactly the positions whose streak_days parses to a positive value |
| RedisDeviceRepository.DroughtSummaryCount | pvz-backend/src/main/java/iot/data/platform/devices/infra/RedisDeviceRepository.java:145-179 | devicesInDrought is the number of scanned records whose streak_days parses to a positive value |
| RedisDeviceRepository.ScanDominates | pvz-backend/src/main/java/iot/data/platform/devices/infra/RedisDeviceRepository.java:172-175 | the loop's maximum is at least every parsed streak |
| RedisDeviceRepository.ScanArgMax | pvz-backend/src/main/java/iot/data/platform/devices/infra/RedisDeviceRepository.java:172-175 | a positive maximum is reached by a key that no earlier key reaches, and the reported device is the id extracted from that key |
| RedisDeviceRepository.DroughtSummaryMax | pvz-backend/src/main/java/iot/data/platform/devices/infra/RedisDeviceRepository.java:151-178 | maxStreakDays bounds every streak; when positive, maxDeviceId is the device of the first key in scan order that reaches it; when zero, maxDeviceId is null |
| RedisDeviceRepository.ScanThreshold | pvz-backend/src/main/java/iot/data/platform/devices/infra/RedisDeviceRepository.java:165 | the loop keeps the first parsed threshold in scan order, and is null exactly when no readable record has one |
| RedisDeviceRepository.DroughtSummaryThreshold | pvz-backend/src/main/java/iot/data/platform/devices/infra/RedisDeviceRepository.java:154-178 | the summary's threshold is that of the first record carrying one, whether or not that record has a streak |
| DeviceStateResponse.ParseDouble | pvz-backend/src/main/java/iot/data/platform/devices/api/DeviceStateResponse.java:38-45 | non-null exactly when the value is present, not blank, and decimal |
| DeviceStateResponse.ParseLong | pvz-backend/src/main/java/iot/data/platform/devices/api/DeviceStateResponse.java:47-54 | non-null exactly when the value is present, not blank, an integer and within 64 bits |
| DeviceStateResponse.ParseInt | pvz-backend/src/main/java/iot/data/platform/devices/api/DeviceStateResponse.java:56-63 | non-null exactly when the value is present, not blank, an integer and within 32 bits |
| DeviceStateResponse.ParseBool | pvz-backend/src/main/java/iot/data/platform/devices/api/DeviceStateResponse.java:65-72 | true and false exactly on the lower-cased word lists; null otherwise |
| DeviceStateResponse.From | pvz-backend/src/main/java/iot/data/platform/devices/api/DeviceStateResponse.java:20-36 | identity is copied; rssi fits 32 bits and the timestamps fit 64 bits; each field uses the parser of its declared type |
| DeviceStateResponse.ParseDoubleAgrees | pvz-backend/src/main/java/iot/data/platform/devices/api/DeviceStateResponse.java:38-45 | the response's decimal parser agrees with the repository's on every value |
| DeviceStateResponse.ParseLongAgrees | pvz-backend/src/main/java/iot/data/platform/devices/api/DeviceStateResponse.java:47-54 | the response's 64-bit parser agrees with the repository's on every value |
| DeviceStateResponse.ParseBoolAgrees | pvz-backend/src/main/java/iot/data/platform/devices/api/DeviceStateResponse.java:65-72 | the response's boolean parser agrees with the repository's on every value |
| DeviceStateResponse.ParseIntVersusZeroDefault | pvz-backend/src/main/java/iot/data/platform/devices/api/DeviceStateResponse.java:56-63 | the repository's parseInt is the response's parseInt with null read as 0 |
| DeviceStateResponse.ParseIntRoundTrip | pvz-backend/src/main/java/iot/data/platform/devices/api/DeviceStateResponse.java:56-63 | a 32-bit numeral reads back unchanged; any other integer numeral reads as null, not 0 |
| DeviceStateResponse.FromAgreesWithFindById | pvz-backend/src/main/java/iot/data/platform/devices/api/DeviceStateResponse.java:20-36 | from over a device's raw hash equals findById's snapshot field by field, except that rssi is kept only when it fits 32 bits |
| DeviceService.GetAllDevices | pvz-backend/src/main/java/iot/data/platform/devices/api/DeviceService.java:19-21 | delegates to findAllByTenant; every device belongs to the requested environment and tenant |
| DeviceService.GetDevice | pvz-backend/src/main/java/iot/data/platform/devices/api/DeviceService.java:23-25 | delegates to findById; null exactly when the state hash is unreadable |
| DeviceService.GetRecentSummary | pvz-backend/src/main/java/iot/data/platform/devices/api/DeviceService.java:27-29 | delegates to findRecentSummary; the window is 600 |
| DeviceService.GetDroughtStreak | pvz-backend/src/main/java/iot/data/platform/devices/api/DeviceService.java:31-33 | delegates to findDroughtStreak; null exactly when the streak hash is unreadable |
| DeviceService.GetDroughtSummary | pvz-backend/src/main/java/iot/data/platform/devices/api/DeviceService.java:35-37 | delegates to findDroughtSummary; the count is bounded by the keys |
| DeviceService.LastSeen | pvz-backend/src/main/java/iot/data/platform/devices/api/DeviceService.java:48-53 | lastSeen is at least each present timestamp and at least 0 when tsHt is null, and it is one of them (or 0 when tsHt is null) |
| DeviceService.LastSeenVersusNullAsZero | pvz-backend/src/main/java/iot/data/platform/devices/api/DeviceService.java:51-53 | lastSeen equals max(tsHt or 0, tsState or 0) exactly unless tsHt alone is present and negative |
| DeviceService.LastSeenBothPresent | pvz-backend/src/main/java/iot/data/platform/devices/api/DeviceService.java:51-53 | two present timestamps give the later one |
| DeviceService.Snapshot | pvz-backend/src/main/java/iot/data/platform/devices/api/DeviceService.java:55-64 | the snapshot copies the measured fields, takes lastSeen, and narrows rssi to 32 bits modulo 2^32, unchanged when it fits |
| DeviceService.SnapshotRssiWraps | pvz-backend/src/main/java/iot/data/platform/devices/api/DeviceService.java:61 | rssi 2^31 becomes -2^31 |
| DeviceService.GetRecentSnapshots | pvz-backend/src/main/java/iot/data/platform/devices/api/DeviceService.java:39-68 | one snapshot per listed device, in order, with no window filter; each names a device findById can read; distinct scanned keys that are well-formed wherever they yield an id give distinct device ids |
| Instants.OfEpochSecond | pvz-backend/src/main/java/iot/data/platform/devices/core/DeviceMetricsService.java:34-35 | Instant.ofEpochSecond succeeds exactly within the Instant range, and gives that many whole seconds |
| Instants.MinusSeconds | pvz-backend/src/main/java/iot/data/platform/devices/core/DeviceMetricsService.java:39-40 | Instant.minus succeeds exactly when the earlier instant is in range, and is strictly earlier |
| Instants.OfEpochSecondMonotonic | pvz-backend/src/main/java/iot/data/platform/devices/core/DeviceMetricsService.java:33-35 | ordered seconds give ordered instants, and conversely |
| Instants.EpochSecondMonotonic | pvz-backend/src/main/java/iot/data/platform/devices/core/DeviceMetricsService.java:56 | getEpochSecond never decreases as the instant grows |
| DeviceMetricsService.LookbackSeconds | pvz-backend/src/main/java/iot/data/platform/devices/core/DeviceMetricsService.java:39-40 | the HOUR and DAY defaults look back a positive whole number of days |
| DeviceMetricsService.ResolveRange | pvz-backend/src/main/java/iot/data/platform/devices/core/DeviceMetricsService.java:33-43 | an ordered pair of seconds in range resolves to exactly those whole-second instants; otherwise the range ends at now, HOUR and DAY look back 24 hours and 30 days, and WEEK throws UnsupportedTemporalType; every resolved range has from < to |
| DeviceMetricsService.ToPoints | pvz-backend/src/main/java/iot/data/platform/devices/core/DeviceMetricsService.java:54-60 | one point per aggregated row, in order, with the bucket start in epoch seconds and the averages copied |
| DeviceMetricsService.GetMetrics | pvz-backend/src/main/java/iot/data/platform/devices/core/DeviceMetricsService.java:21-63 | fails exactly when range resolution fails, with its error; otherwise echoes device and bucket and maps the aggregation over the bucket's unit and the resolved range |
| DeviceMetricsService.WeekDefaultFails | pvz-backend/src/main/java/iot/data/platform/devices/core/DeviceMetricsService.java:41 | WEEK metrics without a usable explicit range always fail |
| DeviceMetricsService.ExplicitRangeSucceeds | pvz-backend/src/main/java/iot/data/platform/devices/core/DeviceMetricsService.java:33-35 | an ordered explicit range within the Instant range always succeeds, for every bucket |
| DeviceMetricsService.PointsInOrder | pvz-backend/src/main/java/iot/data/platform/devices/core/DeviceMetricsService.java:54-60 | the response's timestamps never decrease |
| DeviceMetricsService.ExplicitRangeBoundsPoints | pvz-backend/src/main/java/iot/data/platform/devices/core/DeviceMetricsService.java:33-52 | with an explicit range, every point's second lies between that of the bucket of fromTs and toTs |
| DeviceMeasurementRepository.Insert | pvz-backend/src/main/java/iot/data/platform/devices/infra/DeviceMeasurementRepository.java:26-27 | adding a bucket start keeps the starts strictly ascending, with exactly the old starts and the new one |
| DeviceMeasurementRepository.BucketStarts | pvz-backend/src/main/java/iot/data/platform/devices/infra/DeviceMeasurementRepository.java:26-27 | the GROUP BY keys are strictly ascending and are exactly the truncated timestamps of the rows |
| DeviceMeasurementRepository.Average | pvz-backend/src/main/java/iot/data/platform/devices/infra/DeviceMeasurementRepository.java:15-16 | avg is null exactly when no value is non-null |
| DeviceMeasurementRepository.AverageWithin | pvz-backend/src/main/java/iot/data/platform/devices/infra/DeviceMeasurementRepository.java:15-16 | avg is null exactly when every value is null, and otherwise lies within any bounds of the non-null values |
| DeviceMeasurementRepository.PointOf | pvz-backend/src/main/java/iot/data/platform/devices/infra/DeviceMeasurementRepository.java:14-19 | totalCount is the number of rows in the bucket, okCount and errorCount the number with status OK and ERROR, and each average is null exactly when all its column's values are null and is otherwise the mean of the non-null ones |
| DeviceMeasurementRepository.OkErrorDisjoint | pvz-backend/src/main/java/iot/data/platform/devices/infra/DeviceMeasurementRepository.java:18-19 | the OK tally plus the ERROR tally never exceeds the number of rows |
| DeviceMeasurementRepository.StartsCoverSelected | pvz-backend/src/main/java/iot/data/platform/devices/infra/DeviceMeasurementRepository.java:22-27 | every bucket start is the truncated timestamp of a matching row, and every matching row's bucket start is present |
| DeviceMeasurementRepository.AggregateByTime | pvz-backend/src/main/java/iot/data/platform/devices/infra/DeviceMeasurementRepository.java:12-36 | there is one point per distinct bucket start of the matching rows, in strictly ascending order, and none is empty; every point comes from a matching row, and every matching row (device, and from <= ts <= to) has its bucket |
| DeviceMeasurementRepository.AggregatePointsAreBuckets | pvz-backend/src/main/java/iot/data/platform/devices/infra/DeviceMeasurementRepository.java:12-27 | each point is the aggregate (counts and averages) of its own bucket's group of matching rows |
| DeviceMeasurementRepository.GroupIsBucket | pvz-backend/src/main/java/iot/data/platform/devices/infra/DeviceMeasurementRepository.java:21-26 | the rows aggregated into a bucket are exactly the log's rows that pass the WHERE clause and truncate to that bucket's start, in log order |
| DeviceMeasurementRepository.PointAggregatesBucket | pvz-backend/src/main/java/iot/data/platform/devices/infra/DeviceMeasurementRepository.java:14-26 | a bucket's point counts one per log position in the bucket, tallies its OK and ERROR rows, and has a null average exactly when the bucket's column is all null |
| DeviceMeasurementRepository.AggregateBucketValues | pvz-backend/src/main/java/iot/data/platform/devices/infra/DeviceMeasurementRepository.java:12-27 | every point of the result aggregates exactly its bucket's rows of the log |
| DeviceMeasurementRepository.BucketRowsFollowStart | pvz-backend/src/main/java/iot/data/platform/devices/infra/DeviceMeasurementRepository.java:14 | under date_trunc's contract, no row aggregated into a point precedes the point's bucket start |
| DeviceMeasurementRepository.AggregateCountsEveryRow | pvz-backend/src/main/java/iot/data/platform/devices/infra/DeviceMeasurementRepository.java:17-27 | the totalCounts sum to the number of rows the WHERE clause keeps |
| DeviceMeasurementRepository.AggregateWithinRange | pvz-backend/src/main/java/iot/data/platform/devices/infra/DeviceMeasurementRepository.java:14-25 | under date_trunc's contract, every bucket start lies between the bucket of from and to |
| AggregatedPoints.ConvertToInstant | pvz-backend/src/main/java/iot/data/platform/devices/core/AggregatedPoint.java:32-42 | an Instant passes through and a Timestamp becomes its instant; any other class is an IllegalArgumentException, and null a NullPointerException |
| AggregatedPoints.NewAggregatedPoint | pvz-backend/src/main/java/iot/data/platform/devices/core/AggregatedPoint.java:14-30 | the row succeeds exactly when the bucket start converts, and then copies the averages and counts unchanged |
| AggregatedPoints.InstantAndTimestampAgree | pvz-backend/src/main/java/iot/data/platform/devices/core/AggregatedPoint.java:32-38 | the same moment as an Instant or as a Timestamp gives the same point |
| AggregatedPoints.NewAggregatedPointRoundTrip | pvz-backend/src/main/java/iot/data/platform/devices/core/AggregatedPoint.java:14-30 | a point passed through the untyped constructor, with an Instant bucket start, comes back unchanged |

## Findings

| source | as written | input that shows it | evidently intended | confidence | as-written member | corrected member |
|---|---|---|---|---|---|---|
| pvz-backend/src/main/java/iot/data/platform/devices/infra/RedisDeviceRepository.java:29 | the scan pattern splices env and tenant id in unescaped, so `[`, `]`, `\`, `*` and `?` in them act as glob syntax | tenant id "[t]", environment "e": the pattern matches "pvz:e:t:device:d:state" and not "pvz:e:[t]:device:d:state" | the pattern matches the keys of exactly the requested tenant, with env and tenant escaped | not executed; only matters for tenant ids holding glob characters | RedisKeys.UnescapedPatternMissesTenant | RedisKeys.EscapedPatternMatchesEveryKey |

The same splice builds the streak pattern (`RedisKeys.java:19-21`). The key
scans stay parameters of the readers, so the correction affects only which
keys a scan is expected to return.

## Left out

- Redis and JPA I/O, Spring wiring and the HTTP controller. The store is a
  map and the measurement log is a sequence.
- `redisTemplate.keys` returning null. The code would throw a
  NullPointerException there; the model always receives a sequence.
- RedisKeys.StateKeyMatchesPattern: holds only for environments and tenant
  ids without `[` or `\`. With those characters the unescaped pattern reads
  them as a class or an escape (see Findings).
- RedisKeys.StreakKeyMatchesPattern: the same restriction, for the same
  reason.
- RedisKeys.EscapedPatternMatchesEveryKey: states that every key of the
  tenant matches, not that only that tenant's keys match. A device id may
  itself contain ':'.
- Concurrency and key-scan iteration. Scans are sequences in an unspecified
  order. The count and maximum do not depend on that order. The reported
  maxDeviceId is that of the first key in scan order to reach the maximum.
- Floating point. Doubles are exact reals, so there is no NaN, no infinity
  and no rounding. Comparisons such as `days > 0` and `days > maxDays` are
  real comparisons.
- FieldParsers.ParseDoubleOrNull: accepts a decimal subset of
  Double.parseDouble after the trim. That is a sign, digits and an optional
  fraction. Exponents, hexadecimal, "NaN", "Infinity" and d/f suffixes read as
  null here, though Java accepts them.
- DeviceStateResponse.ParseDouble: the same decimal subset.
- Numerals.ParseInteger: only ASCII digits. Java's parsers also accept other
  Unicode decimal digits.
- Text.ToLower: ASCII letters only, with no locale. This is exact for the
  boolean word lists, which are ASCII.
- The hash field write format, and the writers of the store (the emulator and
  the ingest side).
- DeviceStatus.java is not part of this model. A measurement's status is the
  stored enum constant name, compared with "OK" and "ERROR".
- DeviceMetricsPointResponse.java is not part of this model. Its shape
  (epoch seconds and two averages) is `Records.MetricsPoint`.
- PostgreSQL `date_trunc` calendar and time-zone rules. Truncation is a
  parameter. Only the range lemmas assume it is at most its argument and
  monotone.
- DeviceMeasurementRepository.AggregateByTime: the driver's choice of class
  for the truncated timestamp is not modelled. The query yields typed
  instants, and `AggregatedPoints.ConvertToInstant` covers the conversion
  separately.
- java.sql.Timestamp's own range and its millisecond/nanosecond split. A
  Timestamp is represented by the instant it denotes.
- Overflow of the `int` drought counter. It would need more than 2^31 keys.
- Instant.now(). The clock is the parameter `now`.
- The web front end.
