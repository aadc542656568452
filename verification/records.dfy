/** The value records the read side returns. Every boxed Java field
    (Double, Long, Integer, Boolean) is an Option; primitives are plain. */
module Records {
  import opened Wrappers
  import opened Instants
  import opened MetricsBucket

  /** DeviceState: a device's last-known snapshot, typed by the repository. */
  datatype DeviceState = DeviceState(
    deviceId: string, env: string, tenantId: string,
    lat: Option<real>, lon: Option<real>, h: Option<real>, t: Option<real>,
    tsHt: Option<int>, rssi: Option<int>, snr: Option<real>, bat: Option<real>,
    online: Option<bool>, tsState: Option<int>)

  /** The snapshot as DeviceStateResponse.from reads it: every measured
      field still the raw string of the hash. */
  datatype RawDeviceState = RawDeviceState(
    deviceId: string, env: string, tenantId: string,
    lat: Option<string>, lon: Option<string>, h: Option<string>, t: Option<string>,
    tsHt: Option<string>, rssi: Option<string>, snr: Option<string>, bat: Option<string>,
    online: Option<string>, tsState: Option<string>)

  /** DeviceStateResponse: the external shape of one device; rssi is 32-bit. */
  datatype DeviceStateResponse = DeviceStateResponse(
    deviceId: string, env: string, tenantId: string,
    lat: Option<real>, lon: Option<real>, h: Option<real>, t: Option<real>,
    tsHt: Option<int>, rssi: Option<int>, snr: Option<real>, bat: Option<real>,
    online: Option<bool>, tsState: Option<int>)

  /** RecentSummaryResponse: the tenant-wide rolling rollup. */
  datatype RecentSummaryResponse = RecentSummaryResponse(
    env: string, tenantId: string, windowSeconds: int,
    totalDevices: int, onlineDevices: int, offlineDevices: int,
    avgTemp: Option<real>, avgHumidity: Option<real>)

  /** DroughtStreakResponse: one device's low-humidity streak record. */
  datatype DroughtStreakResponse = DroughtStreakResponse(
    env: string, tenantId: string, deviceId: string,
    threshold: Option<real>, lastTs: Option<int>, lastOkTs: Option<int>,
    streakDays: Option<real>, lastH: Option<real>)

  /** DroughtSummaryResponse: the tenant-wide drought rollup. */
  datatype DroughtSummaryResponse = DroughtSummaryResponse(
    env: string, tenantId: string, threshold: Option<real>,
    devicesInDrought: int, maxStreakDays: real, maxDeviceId: Option<string>)

  /** RecentDeviceSnapshotResponse: one device on the recent-devices list. */
  datatype RecentDeviceSnapshotResponse = RecentDeviceSnapshotResponse(
    deviceId: string, lastSeenTs: int, t: Option<real>, h: Option<real>,
    online: Option<bool>, rssi: Option<int>, snr: Option<real>, bat: Option<real>)

  /** DeviceMetricsPointResponse: one bucket of the metrics response. */
  datatype MetricsPoint = MetricsPoint(ts: int, tAvg: Option<real>, hAvg: Option<real>)

  /** DeviceMetricsResponse: the metrics of one device in one granularity. */
  datatype DeviceMetricsResponse = DeviceMetricsResponse(
    deviceId: string, bucket: Bucket, points: seq<MetricsPoint>)

  /** AggregatedPoint: one non-empty time bucket of the measurement log. */
  datatype AggregatedPoint = AggregatedPoint(
    bucketStart: Instant, tAvg: Option<real>, hAvg: Option<real>,
    totalCount: int, okCount: int, errorCount: int)

  /** DeviceMeasurement: one row of the measurement log. The status is the
      stored enum constant name. */
  datatype DeviceMeasurement = DeviceMeasurement(
    env: string, tenantId: string, deviceId: string, ts: Instant,
    temperature: Option<real>, humidity: Option<real>, status: string)
}
