/** DeviceStateResponse: the external shape of one device, built by `From`
    from a snapshot whose measured fields are still the raw strings of the
    hash. Its four private parsers mirror the repository's, except that the
    32-bit `ParseInt` reads an unusable value as null rather than 0. */
module DeviceStateResponse {
  import opened Wrappers
  import opened Text
  import opened Numerals
  import opened FieldParsers
  import opened Records
  import RedisKeys
  import RedisDeviceRepository

  /** parseDouble: null for a missing, blank or malformed value. */
  function ParseDouble(v: Option<string>): (r: Option<real>)
    ensures r.Some? <==> Usable(v) && ParseDecimal(v.value).Some?
    ensures r.Some? ==> r == ParseDecimal(v.value)
  {
    if v.None? || IsBlank(v.value) then None
    else ParseDecimal(v.value)
  }

  /** parseLong: null for a missing, blank, malformed or out-of-range value. */
  function ParseLong(v: Option<string>): (r: Option<int>)
    ensures r.Some? <==> Usable(v) && ParseInteger(v.value).Some? && InLongRange(ParseInteger(v.value).value)
    ensures r.Some? ==> r == ParseInteger(v.value)
  {
    if v.None? || IsBlank(v.value) then None
    else ParseBounded(v.value, LongMin, LongMax)
  }

  /** parseInt: null for a missing, blank, malformed or out-of-range value;
      the range is that of a 32-bit Integer. */
  function ParseInt(v: Option<string>): (r: Option<int>)
    ensures r.Some? <==> Usable(v) && ParseInteger(v.value).Some? && InIntRange(ParseInteger(v.value).value)
    ensures r.Some? ==> r == ParseInteger(v.value)
  {
    if v.None? || IsBlank(v.value) then None
    else ParseBounded(v.value, IntMin, IntMax)
  }

  /** parseBool: the lower-cased value decides; blank and unknown words are null. */
  function ParseBool(v: Option<string>): (r: Option<bool>)
    ensures r == Some(true) <==> v.Some? && ToLower(v.value) in TrueWords
    ensures r == Some(false) <==> v.Some? && ToLower(v.value) in FalseWords
  {
    if v.None? || IsBlank(v.value) then
      BlankIsNoWord(if v.None? then "" else v.value);
      None
    else
      var lower := ToLower(v.value);
      if lower in TrueWords then Some(true)
      else if lower in FalseWords then Some(false)
      else None
  }

  /** from: identity fields are copied, every measured field is parsed with
      the parser of its declared type. */
  function From(raw: RawDeviceState): (r: DeviceStateResponse)
    ensures r.deviceId == raw.deviceId && r.env == raw.env && r.tenantId == raw.tenantId
    ensures r.rssi.Some? ==> InIntRange(r.rssi.value)
    ensures r.tsHt.Some? ==> InLongRange(r.tsHt.value)
    ensures r.tsState.Some? ==> InLongRange(r.tsState.value)
    ensures r.lat == ParseDouble(raw.lat) && r.lon == ParseDouble(raw.lon)
    ensures r.h == ParseDouble(raw.h) && r.t == ParseDouble(raw.t)
    ensures r.snr == ParseDouble(raw.snr) && r.bat == ParseDouble(raw.bat)
    ensures r.tsHt == ParseLong(raw.tsHt) && r.tsState == ParseLong(raw.tsState)
    ensures r.rssi == ParseInt(raw.rssi) && r.online == ParseBool(raw.online)
  {
    DeviceStateResponse(
      raw.deviceId, raw.env, raw.tenantId,
      ParseDouble(raw.lat), ParseDouble(raw.lon), ParseDouble(raw.h), ParseDouble(raw.t),
      ParseLong(raw.tsHt), ParseInt(raw.rssi), ParseDouble(raw.snr), ParseDouble(raw.bat),
      ParseBool(raw.online), ParseLong(raw.tsState))
  }

  /** The response's decimal parser agrees with the repository's. */
  lemma ParseDoubleAgrees(v: Option<string>)
    ensures ParseDouble(v) == ParseDoubleOrNull(v)
  {
  }

  /** The response's 64-bit parser agrees with the repository's. */
  lemma ParseLongAgrees(v: Option<string>)
    ensures ParseLong(v) == ParseLongOrNull(v)
  {
  }

  /** The response's boolean parser agrees with the repository's. */
  lemma ParseBoolAgrees(v: Option<string>)
    ensures ParseBool(v) == ParseBoolOrNull(v)
  {
  }

  /** The two 32-bit parsers agree wherever the response's is non-null; where
      it is null, the repository's reads 0. */
  lemma ParseIntVersusZeroDefault(v: Option<string>)
    ensures ParseIntOrZero(v) == ParseInt(v).GetOr(0)
  {
  }

  /** A 32-bit value written as a numeral reads back unchanged; any other
      integer numeral reads as null, not as 0. */
  lemma ParseIntRoundTrip(n: int)
    ensures ParseInt(Some(FormatInteger(n))) == (if InIntRange(n) then Some(n) else None)
  {
    ParseFormatInteger(n);
    assert !IsBlank(FormatInteger(n)) by {
      var s := FormatInteger(n);
      if n < 0 {
        assert s[0] == '-';
      } else {
        assert IsDigit(s[0]);
      }
      assert !IsWhitespace(s[0]);
    }
  }

  /** The raw snapshot of a hash: each measured field is its named entry. */
  function RawOf(deviceId: string, env: string, tenantId: string, m: map<string, string>): (raw: RawDeviceState)
    ensures raw.deviceId == deviceId && raw.env == env && raw.tenantId == tenantId
  {
    var f := (name: string) => RedisDeviceRepository.Field(m, name);
    RawDeviceState(
      deviceId, env, tenantId,
      f("lat"), f("lon"), f("h"), f("t"),
      f("ts_ht"), f("rssi"), f("snr"), f("bat"),
      f("online"), f("ts_state"))
  }

  /** Reading a device's hash as raw strings and passing it through `from`
      gives what findById gives, field by field, except rssi: `from` keeps it
      only when it fits 32 bits and reads it as null otherwise. */
  lemma FromAgreesWithFindById(store: RedisDeviceRepository.Store, env: string, tenantId: string, deviceId: string)
    requires RedisDeviceRepository.Readable(store, RedisKeys.DeviceState(env, tenantId, deviceId))
    ensures var s := RedisDeviceRepository.FindById(store, env, tenantId, deviceId).value;
      var m := RedisDeviceRepository.Entries(store, RedisKeys.DeviceState(env, tenantId, deviceId)).fields;
      var r := From(RawOf(deviceId, env, tenantId, m));
      && r.deviceId == s.deviceId && r.env == s.env && r.tenantId == s.tenantId
      && r.lat == s.lat && r.lon == s.lon && r.h == s.h && r.t == s.t
      && r.tsHt == s.tsHt && r.snr == s.snr && r.bat == s.bat
      && r.online == s.online && r.tsState == s.tsState
      && r.rssi == (if s.rssi.Some? && InIntRange(s.rssi.value) then s.rssi else None)
  {
    var key := RedisKeys.DeviceState(env, tenantId, deviceId);
    var m := RedisDeviceRepository.Entries(store, key).fields;
    var raw := RawOf(deviceId, env, tenantId, m);
    ParseDoubleAgrees(raw.lat);
    ParseDoubleAgrees(raw.lon);
    ParseDoubleAgrees(raw.h);
    ParseDoubleAgrees(raw.t);
    ParseDoubleAgrees(raw.snr);
    ParseDoubleAgrees(raw.bat);
    ParseLongAgrees(raw.tsHt);
    ParseLongAgrees(raw.tsState);
    ParseBoolAgrees(raw.online);
  }
}
