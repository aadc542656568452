/** RedisDeviceRepository: the readers over the live key-value store. The
    store maps keys to hash lookups; a lookup either fails (a
    DataAccessException) or yields the hash's fields, and a missing key
    reads as an empty hash. Key scans (`KEYS pattern`) are handed in as a
    sequence, in whatever order the store produced them. */
module RedisDeviceRepository {
  import opened Wrappers
  import opened Text
  import opened FieldParsers
  import opened Records
  import RedisKeys
  import Seqs

  datatype Lookup = Ok(fields: map<string, string>) | Fail
  type Store = map<string, Lookup>

  /** hashOps.entries: the lookup stored under `key`, or an empty hash. */
  function Entries(store: Store, key: string): Lookup {
    if key in store then store[key] else Ok(map[])
  }

  /** map.get: the named field of a hash, or null. */
  function Field(fields: map<string, string>, name: string): Option<string> {
    if name in fields then Some(fields[name]) else None
  }

  /** The lookup of `key` succeeds and the hash holds at least one field. */
  predicate Readable(store: Store, key: string) {
    Entries(store, key).Ok? && |Entries(store, key).fields| > 0
  }

  const DeviceMarker: string := ":device:"

  /** extractDeviceId / extractDeviceIdFromStreakKey: the text between the
      first ":device:" and the last `tail`, or null when either is missing
      or nothing lies between them. */
  function ExtractSegment(key: string, tail: string): (r: Option<string>)
    ensures r.Some? <==> exists i, j :: OccursAt(key, DeviceMarker, i) && OccursAt(key, tail, j) && i + 8 < j
    ensures r.Some? ==> |r.value| > 0
    ensures r.Some? ==> r.value == key[IndexOf(key, DeviceMarker) + 8..LastIndexOf(key, tail)]
  {
    var deviceIdx := IndexOf(key, DeviceMarker);
    var tailIdx := LastIndexOf(key, tail);
    if deviceIdx < 0 || tailIdx < 0 || tailIdx <= deviceIdx + 8 then None
    else Some(key[deviceIdx + 8..tailIdx])
  }

  function ExtractDeviceId(stateKey: string): Option<string> {
    ExtractSegment(stateKey, RedisKeys.StateSuffix)
  }

  function ExtractDeviceIdFromStreakKey(streakKey: string): Option<string> {
    ExtractSegment(streakKey, RedisKeys.StreakSuffix)
  }

  /** Environment and tenant segments from which a device id can be read
      back: no ':' inside, and not the word "device" itself. */
  predicate PlainSegment(s: string) {
    ':' !in s && s != "device"
  }

  /** Where the schema puts each part of a per-device key. */
  lemma DevicePrefixLayout(env: string, tenantId: string, rest: string)
    ensures var key := RedisKeys.DevicePrefix(env, tenantId) + rest;
      var e, t := |env|, |tenantId|;
      && |key| == e + t + 13 + |rest|
      && key[..4] == "pvz:"
      && key[4..4 + e] == env
      && key[4 + e] == ':'
      && key[5 + e..5 + e + t] == tenantId
      && key[5 + e + t..13 + e + t] == DeviceMarker
  {
  }

  /** In a per-device key of plain environment and tenant segments, the
      first ":device:" is the one the key schema put after the tenant. */
  lemma FirstDeviceMarker(env: string, tenantId: string, rest: string)
    requires PlainSegment(env) && PlainSegment(tenantId)
    ensures IndexOf(RedisKeys.DevicePrefix(env, tenantId) + rest, DeviceMarker) == |env| + |tenantId| + 5
  {
    var key := RedisKeys.DevicePrefix(env, tenantId) + rest;
    var e, t := |env|, |tenantId|;
    var p0 := e + t + 5;
    DevicePrefixLayout(env, tenantId, rest);
    assert OccursAt(key, DeviceMarker, p0);
    forall j | 0 <= j < p0
      ensures !OccursAt(key, DeviceMarker, j)
    {
      NoMarkerBefore(env, tenantId, key, j);
    }
    var r := IndexOf(key, DeviceMarker);
    assert r != -1 && r <= p0;
    assert !(r < p0);
  }

  /** An occurrence of ":device:" before the tenant's end is impossible. */
  lemma NoMarkerBefore(env: string, tenantId: string, key: string, j: int)
    requires PlainSegment(env) && PlainSegment(tenantId)
    requires var e, t := |env|, |tenantId|;
      && |key| >= e + t + 13
      && key[..4] == "pvz:"
      && key[4..4 + e] == env
      && key[4 + e] == ':'
      && key[5 + e..5 + e + t] == tenantId
      && key[5 + e + t] == ':'
    requires 0 <= j < |env| + |tenantId| + 5
    ensures !OccursAt(key, DeviceMarker, j)
  {
    var e, t := |env|, |tenantId|;
    var w := key[j..j + 8];
    assert forall i :: 0 <= i < e ==> key[4 + i] == env[i];
    assert forall i :: 0 <= i < t ==> key[5 + e + i] == tenantId[i];
    if j < 3 {
      assert w[0] == "pvz:"[j] != DeviceMarker[0];
    } else if j == 3 {
      if e < 6 {
        assert w[1 + e] == ':' != DeviceMarker[1 + e];
      } else if e > 6 {
        assert env[6] in env;
        assert w[7] == env[6] != DeviceMarker[7];
      } else {
        assert env != DeviceMarker[1..7];
        var i :| 0 <= i < 6 && env[i] != DeviceMarker[1..7][i];
        assert w[1 + i] == env[i] != DeviceMarker[1 + i];
      }
    } else if j < 4 + e {
      assert env[j - 4] in env;
      assert w[0] == env[j - 4] != DeviceMarker[0];
    } else if j == 4 + e {
      if t < 6 {
        assert w[1 + t] == ':' != DeviceMarker[1 + t];
      } else if t > 6 {
        assert tenantId[6] in tenantId;
        assert w[7] == tenantId[6] != DeviceMarker[7];
      } else {
        assert tenantId != DeviceMarker[1..7];
        var i :| 0 <= i < 6 && tenantId[i] != DeviceMarker[1..7][i];
        assert w[1 + i] == tenantId[i] != DeviceMarker[1 + i];
      }
    } else {
      assert tenantId[j - 5 - e] in tenantId;
      assert w[0] == tenantId[j - 5 - e] != DeviceMarker[0];
    }
  }

  /** Reading the device back out of a per-device key built by the schema. */
  lemma ExtractSegmentRoundTrip(env: string, tenantId: string, deviceId: string, tail: string)
    requires PlainSegment(env) && PlainSegment(tenantId) && |deviceId| > 0
    ensures ExtractSegment(RedisKeys.DevicePrefix(env, tenantId) + deviceId + tail, tail) == Some(deviceId)
  {
    var pre := RedisKeys.DevicePrefix(env, tenantId);
    var key := pre + deviceId + tail;
    assert key == pre + (deviceId + tail);
    FirstDeviceMarker(env, tenantId, deviceId + tail);
    LastIndexOfSuffix(pre + deviceId, tail);
    assert key[|pre|..|pre| + |deviceId|] == deviceId;
  }

  /** extractDeviceId inverts deviceState. */
  lemma ExtractDeviceIdRoundTrip(env: string, tenantId: string, deviceId: string)
    requires PlainSegment(env) && PlainSegment(tenantId) && |deviceId| > 0
    ensures ExtractDeviceId(RedisKeys.DeviceState(env, tenantId, deviceId)) == Some(deviceId)
  {
    ExtractSegmentRoundTrip(env, tenantId, deviceId, RedisKeys.StateSuffix);
  }

  /** extractDeviceIdFromStreakKey inverts deviceHumidityLowStreak. */
  lemma ExtractStreakDeviceIdRoundTrip(env: string, tenantId: string, deviceId: string)
    requires PlainSegment(env) && PlainSegment(tenantId) && |deviceId| > 0
    ensures ExtractDeviceIdFromStreakKey(RedisKeys.DeviceHumidityLowStreak(env, tenantId, deviceId)) == Some(deviceId)
  {
    ExtractSegmentRoundTrip(env, tenantId, deviceId, RedisKeys.StreakSuffix);
  }

  /** An empty device segment is not read back as an id. */
  lemma ExtractEmptySegment(env: string, tenantId: string)
    requires PlainSegment(env) && PlainSegment(tenantId)
    ensures ExtractDeviceId(RedisKeys.DeviceState(env, tenantId, "")) == None
  {
    var pre := RedisKeys.DevicePrefix(env, tenantId);
    var key := RedisKeys.DeviceState(env, tenantId, "");
    assert key == pre + RedisKeys.StateSuffix;
    FirstDeviceMarker(env, tenantId, RedisKeys.StateSuffix);
    LastIndexOfSuffix(pre, RedisKeys.StateSuffix);
  }

  // ---------------------------------------------------------------- devices

  /** Every measured field of `s` is its parser applied to the hash entry
      of the same name. */
  predicate ParsedFrom(s: DeviceState, m: map<string, string>) {
    && s.lat == ParseDoubleOrNull(Field(m, "lat"))
    && s.lon == ParseDoubleOrNull(Field(m, "lon"))
    && s.h == ParseDoubleOrNull(Field(m, "h"))
    && s.t == ParseDoubleOrNull(Field(m, "t"))
    && s.tsHt == ParseLongOrNull(Field(m, "ts_ht"))
    && s.rssi == ParseLongOrNull(Field(m, "rssi"))
    && s.snr == ParseDoubleOrNull(Field(m, "snr"))
    && s.bat == ParseDoubleOrNull(Field(m, "bat"))
    && s.online == ParseBoolOrNull(Field(m, "online"))
    && s.tsState == ParseLongOrNull(Field(m, "ts_state"))
  }

  /** findById: the typed snapshot of one device, or null when the lookup
      fails or the hash is empty. Each field is parsed from its named entry. */
  function FindById(store: Store, env: string, tenantId: string, deviceId: string): (r: Option<DeviceState>)
    ensures r.None? <==> !Readable(store, RedisKeys.DeviceState(env, tenantId, deviceId))
    ensures r.Some? ==> r.value.deviceId == deviceId && r.value.env == env && r.value.tenantId == tenantId
    ensures r.Some? ==> ParsedFrom(r.value, Entries(store, RedisKeys.DeviceState(env, tenantId, deviceId)).fields)
  {
    match Entries(store, RedisKeys.DeviceState(env, tenantId, deviceId))
    case Fail => None
    case Ok(m) =>
      if |m| == 0 then None
      else Some(DeviceState(
        deviceId, env, tenantId,
        ParseDoubleOrNull(Field(m, "lat")),
        ParseDoubleOrNull(Field(m, "lon")),
        ParseDoubleOrNull(Field(m, "h")),
        ParseDoubleOrNull(Field(m, "t")),
        ParseLongOrNull(Field(m, "ts_ht")),
        ParseLongOrNull(Field(m, "rssi")),
        ParseDoubleOrNull(Field(m, "snr")),
        ParseDoubleOrNull(Field(m, "bat")),
        ParseBoolOrNull(Field(m, "online")),
        ParseLongOrNull(Field(m, "ts_state"))))
  }

  /** The device a scanned state key stands for, as findAllByTenant reads it:
      the id extracted from the key, then findById under that id. */
  function DeviceAt(store: Store, env: string, tenantId: string, stateKey: string): Option<DeviceState> {
    match ExtractDeviceId(stateKey)
    case None => None
    case Some(id) => FindById(store, env, tenantId, id)
  }

  /** findAllByTenant: the device of every scanned state key whose id can be
      extracted and whose snapshot is readable, in scan order; the others are
      silently omitted. */
  function FindAllByTenant(store: Store, env: string, tenantId: string, keys: seq<string>): (r: seq<DeviceState>)
    ensures |keys| == 0 ==> r == []
    ensures |r| <= |keys|
    ensures forall s :: s in r ==> s.env == env && s.tenantId == tenantId
    ensures forall s :: s in r ==> exists k :: 0 <= k < |keys| && DeviceAt(store, env, tenantId, keys[k]) == Some(s)
    ensures forall k :: 0 <= k < |keys| && DeviceAt(store, env, tenantId, keys[k]).Some? ==>
      DeviceAt(store, env, tenantId, keys[k]).value in r
  {
    if |keys| == 0 then []
    else Seqs.FilterMap(k => DeviceAt(store, env, tenantId, k), keys)
  }

  /** A scanned key that is the state key of the device its id names. */
  predicate WellFormedStateKey(env: string, tenantId: string, key: string) {
    ExtractDeviceId(key).Some? && RedisKeys.DeviceState(env, tenantId, ExtractDeviceId(key).value) == key
  }

  /** findAllByTenant lists each device at most once when the scanned keys
      are distinct, well-formed state keys, as a KEYS result is. */
  lemma FindAllByTenantDistinct(store: Store, env: string, tenantId: string, keys: seq<string>)
    requires forall k :: 0 <= k < |keys| && ExtractDeviceId(keys[k]).Some? ==> WellFormedStateKey(env, tenantId, keys[k])
    requires Seqs.Distinct(keys)
    ensures var r := FindAllByTenant(store, env, tenantId, keys);
      forall a, b :: 0 <= a < b < |r| ==> r[a].deviceId != r[b].deviceId
  {
    if |keys| > 0 {
      var f := k => DeviceAt(store, env, tenantId, k);
      var key := (s: DeviceState) => RedisKeys.DeviceState(env, tenantId, s.deviceId);
      Seqs.FilterMapKeysDistinct(f, key, keys);
      var r := FindAllByTenant(store, env, tenantId, keys);
      assert Seqs.DistinctKeys(key, r);
      forall a, b | 0 <= a < b < |r|
        ensures r[a].deviceId != r[b].deviceId
      {
        assert key(r[a]) != key(r[b]);
      }
    }
  }

  /** Every state key the schema builds from a plain environment and tenant
      and a non-empty id is well-formed. */
  lemma StateKeyWellFormed(env: string, tenantId: string, deviceId: string)
    requires PlainSegment(env) && PlainSegment(tenantId) && |deviceId| > 0
    ensures WellFormedStateKey(env, tenantId, RedisKeys.DeviceState(env, tenantId, deviceId))
  {
    ExtractDeviceIdRoundTrip(env, tenantId, deviceId);
  }

  /** A device whose state key was scanned and whose state hash is readable
      is on the list findAllByTenant returns, as findById reads it. */
  lemma FindAllByTenantListsDevice(store: Store, env: string, tenantId: string, keys: seq<string>, deviceId: string)
    requires PlainSegment(env) && PlainSegment(tenantId) && |deviceId| > 0
    requires RedisKeys.DeviceState(env, tenantId, deviceId) in keys
    requires Readable(store, RedisKeys.DeviceState(env, tenantId, deviceId))
    ensures FindById(store, env, tenantId, deviceId).value in FindAllByTenant(store, env, tenantId, keys)
  {
    var key := RedisKeys.DeviceState(env, tenantId, deviceId);
    ExtractDeviceIdRoundTrip(env, tenantId, deviceId);
    var k :| 0 <= k < |keys| && keys[k] == key;
    assert DeviceAt(store, env, tenantId, keys[k]) == FindById(store, env, tenantId, deviceId);
  }

  // ---------------------------------------------------------- recent summary

  /** The rollup's fixed window length in seconds. */
  const RecentWindowSeconds: int := 600

  /** emptySummary: the zero-filled rollup returned when none can be read. */
  function EmptySummary(env: string, tenantId: string): (r: RecentSummaryResponse)
    ensures r.env == env && r.tenantId == tenantId && r.windowSeconds == RecentWindowSeconds
    ensures r.totalDevices == 0 && r.onlineDevices == 0 && r.offlineDevices == 0
    ensures r.avgTemp.None? && r.avgHumidity.None?
  {
    RecentSummaryResponse(env, tenantId, RecentWindowSeconds, 0, 0, 0, None, None)
  }

  /** The key the rollup is read from: `{env}:{tenant}`, outside the `pvz:` schema. */
  function RecentSummaryKey(env: string, tenantId: string): string {
    env + ":" + tenantId
  }

  /** findRecentSummary: the rollup, or the empty summary when the lookup
      fails or the hash is empty. The window is always 600 seconds, the
      counts are never null (unusable ones read as 0) and the averages may be. */
  function FindRecentSummary(store: Store, env: string, tenantId: string): (r: RecentSummaryResponse)
    ensures r.env == env && r.tenantId == tenantId && r.windowSeconds == RecentWindowSeconds
    ensures Numerals.InIntRange(r.totalDevices) && Numerals.InIntRange(r.onlineDevices)
            && Numerals.InIntRange(r.offlineDevices)
    ensures !Readable(store, RecentSummaryKey(env, tenantId)) ==> r == EmptySummary(env, tenantId)
    ensures Readable(store, RecentSummaryKey(env, tenantId)) ==>
      var m := Entries(store, RecentSummaryKey(env, tenantId)).fields;
      && r.totalDevices == ParseIntOrZero(Field(m, "totalDevices"))
      && r.onlineDevices == ParseIntOrZero(Field(m, "onlineDevices"))
      && r.offlineDevices == ParseIntOrZero(Field(m, "offlineDevices"))
      && r.avgTemp == ParseDoubleOrNull(Field(m, "avgTemp"))
      && r.avgHumidity == ParseDoubleOrNull(Field(m, "avgHumidity"))
  {
    match Entries(store, RecentSummaryKey(env, tenantId))
    case Fail => EmptySummary(env, tenantId)
    case Ok(m) =>
      if |m| == 0 then EmptySummary(env, tenantId)
      else RecentSummaryResponse(
        env, tenantId, RecentWindowSeconds,
        ParseIntOrZero(Field(m, "totalDevices")),
        ParseIntOrZero(Field(m, "onlineDevices")),
        ParseIntOrZero(Field(m, "offlineDevices")),
        ParseDoubleOrNull(Field(m, "avgTemp")),
        ParseDoubleOrNull(Field(m, "avgHumidity")))
  }

  /** Write-then-read for the rollup: counts written as numerals within the
      32-bit range, and averages written as integer numerals, read back
      unchanged. */
  lemma RecentSummaryRoundTrip(env: string, tenantId: string, total: int, online: int, offline: int,
                               temp: int, humidity: int)
    requires Numerals.InIntRange(total) && Numerals.InIntRange(online) && Numerals.InIntRange(offline)
    ensures var m := map["totalDevices" := Numerals.FormatInteger(total),
                         "onlineDevices" := Numerals.FormatInteger(online),
                         "offlineDevices" := Numerals.FormatInteger(offline),
                         "avgTemp" := Numerals.FormatInteger(temp),
                         "avgHumidity" := Numerals.FormatInteger(humidity)];
      FindRecentSummary(map[RecentSummaryKey(env, tenantId) := Ok(m)], env, tenantId)
        == RecentSummaryResponse(env, tenantId, RecentWindowSeconds, total, online, offline,
                                 Some(temp as real), Some(humidity as real))
  {
    var m := map["totalDevices" := Numerals.FormatInteger(total),
                 "onlineDevices" := Numerals.FormatInteger(online),
                 "offlineDevices" := Numerals.FormatInteger(offline),
                 "avgTemp" := Numerals.FormatInteger(temp),
                 "avgHumidity" := Numerals.FormatInteger(humidity)];
    var store := map[RecentSummaryKey(env, tenantId) := Ok(m)];
    assert Entries(store, RecentSummaryKey(env, tenantId)) == Ok(m);
    assert "totalDevices" in m;
    IntFieldReads(m, "totalDevices", total);
    IntFieldReads(m, "onlineDevices", online);
    IntFieldReads(m, "offlineDevices", offline);
    DoubleFieldReads(m, "avgTemp", temp);
    DoubleFieldReads(m, "avgHumidity", humidity);
  }

  /** A hash field holding a 32-bit numeral reads back as its value. */
  lemma IntFieldReads(m: map<string, string>, name: string, n: int)
    requires name in m && m[name] == Numerals.FormatInteger(n) && Numerals.InIntRange(n)
    ensures ParseIntOrZero(Field(m, name)) == n
  {
    ParseIntRoundTrip(n);
  }

  /** A hash field holding a 64-bit numeral reads back as its value. */
  lemma LongFieldReads(m: map<string, string>, name: string, n: int)
    requires name in m && m[name] == Numerals.FormatInteger(n) && Numerals.InLongRange(n)
    ensures ParseLongOrNull(Field(m, name)) == Some(n)
  {
    ParseLongRoundTrip(n);
  }

  /** A hash field holding an integer numeral reads back as that number. */
  lemma DoubleFieldReads(m: map<string, string>, name: string, n: int)
    requires name in m && m[name] == Numerals.FormatInteger(n)
    ensures ParseDoubleOrNull(Field(m, name)) == Some(n as real)
  {
    ParseDoubleOfInteger(n);
  }

  /** A count that is not a numeral reads as 0, never as null, while an
      average that is not a number reads as null. */
  lemma RecentSummaryMalformed(env: string, tenantId: string)
    ensures var m := map["totalDevices" := "n/a", "avgTemp" := "n/a"];
      var r := FindRecentSummary(map[RecentSummaryKey(env, tenantId) := Ok(m)], env, tenantId);
      r.totalDevices == 0 && r.avgTemp.None?
  {
    var m := map["totalDevices" := "n/a", "avgTemp" := "n/a"];
    assert "totalDevices" in m;
    assert !IsBlank("n/a") by { assert !IsWhitespace("n/a"[0]); }
    assert Numerals.ParseInteger("n/a").None?;
    assert Text.Trim("n/a") == "n/a";
    assert Numerals.ParseDecimal("n/a").None?;
  }

  // ----------------------------------------------------------- drought streak

  /** findDroughtStreak: one device's streak record, or null when the lookup
      fails or the hash is empty. A record whose fields are all malformed is
      still returned, with null fields. */
  function FindDroughtStreak(store: Store, env: string, tenantId: string, deviceId: string): (r: Option<DroughtStreakResponse>)
    ensures r.None? <==> !Readable(store, RedisKeys.DeviceHumidityLowStreak(env, tenantId, deviceId))
    ensures r.Some? ==> r.value.env == env && r.value.tenantId == tenantId && r.value.deviceId == deviceId
    ensures r.Some? ==>
      var m := Entries(store, RedisKeys.DeviceHumidityLowStreak(env, tenantId, deviceId)).fields;
      && r.value.threshold == ParseDoubleOrNull(Field(m, "threshold"))
      && r.value.lastTs == ParseLongOrNull(Field(m, "last_ts"))
      && r.value.lastOkTs == ParseLongOrNull(Field(m, "last_ok_ts"))
      && r.value.streakDays == ParseDoubleOrNull(Field(m, "streak_days"))
      && r.value.lastH == ParseDoubleOrNull(Field(m, "last_h"))
  {
    match Entries(store, RedisKeys.DeviceHumidityLowStreak(env, tenantId, deviceId))
    case Fail => None
    case Ok(m) =>
      if |m| == 0 then None
      else Some(DroughtStreakResponse(
        env, tenantId, deviceId,
        ParseDoubleOrNull(Field(m, "threshold")),
        ParseLongOrNull(Field(m, "last_ts")),
        ParseLongOrNull(Field(m, "last_ok_ts")),
        ParseDoubleOrNull(Field(m, "streak_days")),
        ParseDoubleOrNull(Field(m, "last_h"))))
  }

  /** Write-then-read for a streak record: a threshold and a streak written as
      integer numerals and a 64-bit last timestamp read back unchanged; the
      fields not written read as null. */
  lemma DroughtStreakRoundTrip(env: string, tenantId: string, deviceId: string,
                               threshold: int, lastTs: int, days: int)
    requires Numerals.InLongRange(lastTs)
    ensures var m := map["threshold" := Numerals.FormatInteger(threshold),
                         "last_ts" := Numerals.FormatInteger(lastTs),
                         "streak_days" := Numerals.FormatInteger(days)];
      var store := map[RedisKeys.DeviceHumidityLowStreak(env, tenantId, deviceId) := Ok(m)];
      FindDroughtStreak(store, env, tenantId, deviceId)
        == Some(DroughtStreakResponse(env, tenantId, deviceId, Some(threshold as real), Some(lastTs), None,
                                      Some(days as real), None))
  {
    var m := map["threshold" := Numerals.FormatInteger(threshold),
                 "last_ts" := Numerals.FormatInteger(lastTs),
                 "streak_days" := Numerals.FormatInteger(days)];
    var key := RedisKeys.DeviceHumidityLowStreak(env, tenantId, deviceId);
    assert Entries(map[key := Ok(m)], key) == Ok(m);
    assert "threshold" in m && "last_ok_ts" !in m && "last_h" !in m;
    DoubleFieldReads(m, "threshold", threshold);
    LongFieldReads(m, "last_ts", lastTs);
    DoubleFieldReads(m, "streak_days", days);
    var r := FindDroughtStreak(map[key := Ok(m)], env, tenantId, deviceId);
    assert r.Some?;
    assert r.value.threshold == Some(threshold as real) && r.value.lastTs == Some(lastTs);
    assert r.value.lastOkTs.None? && r.value.streakDays == Some(days as real) && r.value.lastH.None?;
  }

  /** A record holding only a zero streak is returned, with streak 0; only a
      missing or failing record reads as null. */
  lemma DroughtStreakZeroVersusAbsent(env: string, tenantId: string, deviceId: string)
    ensures var key := RedisKeys.DeviceHumidityLowStreak(env, tenantId, deviceId);
      && FindDroughtStreak(map[key := Ok(map["streak_days" := "0"])], env, tenantId, deviceId)
           == Some(DroughtStreakResponse(env, tenantId, deviceId, None, None, None, Some(0.0), None))
      && FindDroughtStreak(map[], env, tenantId, deviceId).None?
      && FindDroughtStreak(map[key := Fail], env, tenantId, deviceId).None?
  {
    var key := RedisKeys.DeviceHumidityLowStreak(env, tenantId, deviceId);
    var m := map["streak_days" := "0"];
    assert Numerals.FormatInteger(0) == "0";
    assert "streak_days" in m && "threshold" !in m && "last_ts" !in m && "last_ok_ts" !in m && "last_h" !in m;
    DoubleFieldReads(m, "streak_days", 0);
    assert Entries(map[key := Ok(m)], key) == Ok(m);
    var r := FindDroughtStreak(map[key := Ok(m)], env, tenantId, deviceId);
    assert r.Some?;
    assert r.value.threshold.None? && r.value.lastTs.None? && r.value.lastOkTs.None?;
    assert r.value.streakDays == Some(0.0) && r.value.lastH.None?;
    assert !Readable(map[], key) && !Readable(map[key := Fail], key);
  }

  // ---------------------------------------------------------- drought summary

  /** What one iteration of findDroughtSummary reads from a streak key: nothing
      when the lookup fails or the hash is empty, else the two parsed fields. */
  datatype StreakRecord = Unreadable | Record(threshold: Option<real>, days: Option<real>)

  function ReadStreak(store: Store, key: string): (r: StreakRecord)
    ensures r.Unreadable? <==> !Readable(store, key)
    ensures r.Record? ==> r.threshold == ParseDoubleOrNull(Field(Entries(store, key).fields, "threshold"))
    ensures r.Record? ==> r.days == ParseDoubleOrNull(Field(Entries(store, key).fields, "streak_days"))
  {
    if !Readable(store, key) then Unreadable
    else
      var m := Entries(store, key).fields;
      Record(ParseDoubleOrNull(Field(m, "threshold")), ParseDoubleOrNull(Field(m, "streak_days")))
  }

  /** The store seen through ReadStreak, one record per key. */
  function Reader(store: Store): string -> StreakRecord {
    k => ReadStreak(store, k)
  }

  /** The parsed streak of a record, if it has one. */
  function DaysOf(r: StreakRecord): Option<real> {
    if r.Record? then r.days else None
  }

  /** The parsed threshold of a record, if it has one. */
  function ThresholdOf(r: StreakRecord): Option<real> {
    if r.Record? then r.threshold else None
  }

  /** The record counts as a device in drought. */
  predicate InDrought(r: StreakRecord) {
    DaysOf(r).Some? && DaysOf(r).value > 0.0
  }

  /** The loop variables of findDroughtSummary. */
  datatype Tally = Tally(threshold: Option<real>, inDrought: int, maxDays: real, maxDeviceId: Option<string>)

  const NoTally: Tally := Tally(None, 0, 0.0, None)

  /** One iteration of the loop of findDroughtSummary on `key`, whose record
      is `rec`. The threshold is taken before the streak_days null-skip. */
  function Visit(t: Tally, key: string, rec: StreakRecord): Tally {
    match rec
    case Unreadable => t
    case Record(th, d) =>
      var threshold := if t.threshold.None? then th else t.threshold;
      match d
      case None => t.(threshold := threshold)
      case Some(days) =>
        Tally(threshold,
              if days > 0.0 then t.inDrought + 1 else t.inDrought,
              if days > t.maxDays then days else t.maxDays,
              if days > t.maxDays then ExtractDeviceIdFromStreakKey(key) else t.maxDeviceId)
  }

  /** The loop of findDroughtSummary over the scanned streak keys, in scan order. */
  function Scan(read: string -> StreakRecord, keys: seq<string>): (t: Tally)
    ensures 0 <= t.inDrought <= |keys|
    ensures t.maxDays >= 0.0
    ensures t.maxDays == 0.0 ==> t.maxDeviceId.None?
  {
    if |keys| == 0 then NoTally
    else
      var last := keys[|keys| - 1];
      Visit(Scan(read, keys[..|keys| - 1]), last, read(last))
  }

  /** findDroughtSummary over the keys a scan of the streak pattern returned. */
  function FindDroughtSummary(store: Store, env: string, tenantId: string, keys: seq<string>): (r: DroughtSummaryResponse)
    ensures r.env == env && r.tenantId == tenantId
    ensures |keys| == 0 ==> r == DroughtSummaryResponse(env, tenantId, None, 0, 0.0, None)
    ensures 0 <= r.devicesInDrought <= |keys|
    ensures r.maxStreakDays >= 0.0
    ensures r.maxStreakDays == 0.0 ==> r.maxDeviceId.None?
  {
    if |keys| == 0 then DroughtSummaryResponse(env, tenantId, None, 0, 0.0, None)
    else
      var t := Scan(Reader(store), keys);
      DroughtSummaryResponse(env, tenantId, t.threshold, t.inDrought, t.maxDays, t.maxDeviceId)
  }

  /** The positions of the scanned keys whose records are in drought. */
  function InDroughtPositions(read: string -> StreakRecord, keys: seq<string>): set<int> {
    Seqs.Positions(k => InDrought(read(k)), keys)
  }

  /** The loop counts exactly the records in drought. */
  lemma {:induction false} ScanCountsInDrought(read: string -> StreakRecord, keys: seq<string>)
    ensures Scan(read, keys).inDrought == |InDroughtPositions(read, keys)|
  {
    var n := |keys|;
    if n == 0 {
      assert InDroughtPositions(read, keys) == {};
    } else {
      ScanCountsInDrought(read, keys[..n - 1]);
      Seqs.PositionsSnoc(k => InDrought(read(k)), keys);
    }
  }

  /** devicesInDrought is the number of readable records whose streak_days
      parses to a positive value. */
  lemma DroughtSummaryCount(store: Store, env: string, tenantId: string, keys: seq<string>)
    ensures FindDroughtSummary(store, env, tenantId, keys).devicesInDrought
            == |InDroughtPositions(Reader(store), keys)|
  {
    if |keys| == 0 {
      assert InDroughtPositions(Reader(store), keys) == {};
    } else {
      ScanCountsInDrought(Reader(store), keys);
    }
  }

  /** No parsed streak among `keys` exceeds `m`. */
  predicate Dominates(read: string -> StreakRecord, keys: seq<string>, m: real) {
    forall i :: 0 <= i < |keys| && DaysOf(read(keys[i])).Some? ==> DaysOf(read(keys[i])).value <= m
  }

  /** Position `j` holds streak `m`, and no earlier position holds `m` or more. */
  predicate FirstReaching(read: string -> StreakRecord, keys: seq<string>, j: int, m: real) {
    && 0 <= j < |keys|
    && DaysOf(read(keys[j])) == Some(m)
    && forall i :: 0 <= i < j && DaysOf(read(keys[i])).Some? ==> DaysOf(read(keys[i])).value < m
  }

  /** The loop's maximum bounds every parsed streak. */
  lemma {:induction false} ScanDominates(read: string -> StreakRecord, keys: seq<string>)
    ensures Dominates(read, keys, Scan(read, keys).maxDays)
  {
    var n := |keys|;
    if n > 0 {
      var front := keys[..n - 1];
      ScanDominates(read, front);
      assert forall i :: 0 <= i < n - 1 ==> front[i] == keys[i];
    }
  }

  /** When positive, the loop's maximum is the streak of the first key
      reaching it, and the reported device id is that key's. */
  lemma {:induction false} ScanArgMax(read: string -> StreakRecord, keys: seq<string>)
    ensures var t := Scan(read, keys);
      t.maxDays > 0.0 ==> exists j :: FirstReaching(read, keys, j, t.maxDays)
                                      && t.maxDeviceId == ExtractDeviceIdFromStreakKey(keys[j])
  {
    var n := |keys|;
    if n > 0 {
      var front := keys[..n - 1];
      var last := keys[n - 1];
      ScanArgMax(read, front);
      ScanDominates(read, front);
      var t0 := Scan(read, front);
      var t := Scan(read, keys);
      assert forall i :: 0 <= i < n - 1 ==> front[i] == keys[i];
      if DaysOf(read(last)).Some? && DaysOf(read(last)).value > t0.maxDays {
        assert FirstReaching(read, keys, n - 1, t.maxDays);
      } else if t.maxDays > 0.0 {
        var j :| FirstReaching(read, front, j, t0.maxDays)
                 && t0.maxDeviceId == ExtractDeviceIdFromStreakKey(front[j]);
        assert FirstReaching(read, keys, j, t.maxDays);
      }
    }
  }

  /** maxStreakDays bounds every parsed streak; when positive it is reached,
      and maxDeviceId is the device of the first key in scan order that
      reaches it; when zero, no device is reported. */
  lemma DroughtSummaryMax(store: Store, env: string, tenantId: string, keys: seq<string>)
    ensures var r := FindDroughtSummary(store, env, tenantId, keys);
      && Dominates(Reader(store), keys, r.maxStreakDays)
      && (r.maxStreakDays > 0.0 ==> exists j :: FirstReaching(Reader(store), keys, j, r.maxStreakDays)
                                         && r.maxDeviceId == ExtractDeviceIdFromStreakKey(keys[j]))
      && (r.maxStreakDays == 0.0 ==> r.maxDeviceId.None?)
  {
    if |keys| > 0 {
      ScanDominates(Reader(store), keys);
      ScanArgMax(Reader(store), keys);
    }
  }

  /** Position `j` is the first whose record carries a parsed threshold. */
  predicate FirstThreshold(read: string -> StreakRecord, keys: seq<string>, j: int) {
    && 0 <= j < |keys|
    && ThresholdOf(read(keys[j])).Some?
    && forall i :: 0 <= i < j ==> ThresholdOf(read(keys[i])).None?
  }

  /** The loop reports the threshold of the first record that has one, or
      null when none does, whether or not that record has a streak. */
  lemma {:induction false} ScanThreshold(read: string -> StreakRecord, keys: seq<string>)
    ensures var th := Scan(read, keys).threshold;
      && (th.None? <==> forall i :: 0 <= i < |keys| ==> ThresholdOf(read(keys[i])).None?)
      && (th.Some? ==> exists j :: FirstThreshold(read, keys, j) && th == ThresholdOf(read(keys[j])))
  {
    var n := |keys|;
    if n > 0 {
      var front := keys[..n - 1];
      ScanThreshold(read, front);
      var t0 := Scan(read, front);
      assert forall i :: 0 <= i < n - 1 ==> front[i] == keys[i];
      if t0.threshold.Some? {
        var j :| FirstThreshold(read, front, j) && t0.threshold == ThresholdOf(read(front[j]));
        assert FirstThreshold(read, keys, j);
      } else if ThresholdOf(read(keys[n - 1])).Some? {
        assert FirstThreshold(read, keys, n - 1);
      }
    }
  }

  /** The summary's threshold is that of the first record carrying one. */
  lemma DroughtSummaryThreshold(store: Store, env: string, tenantId: string, keys: seq<string>)
    ensures var th := FindDroughtSummary(store, env, tenantId, keys).threshold;
      && (th.None? <==> forall i :: 0 <= i < |keys| ==> ThresholdOf(Reader(store)(keys[i])).None?)
      && (th.Some? ==> exists j :: FirstThreshold(Reader(store), keys, j)
                                   && th == ThresholdOf(Reader(store)(keys[j])))
  {
    if |keys| > 0 {
      ScanThreshold(Reader(store), keys);
    }
  }
}
