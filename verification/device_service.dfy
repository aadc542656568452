/** DeviceService: the service layer over the repository. All getters but
    one delegate unchanged; getRecentSnapshots projects every listed device
    onto the recent-devices shape. It applies no time-window filter. */
module DeviceService {
  import opened Wrappers
  import opened Numerals
  import opened Records
  import RedisKeys
  import Repo = RedisDeviceRepository
  import Seqs

  function GetAllDevices(store: Repo.Store, env: string, tenantId: string, keys: seq<string>): (r: seq<DeviceState>)
    ensures r == Repo.FindAllByTenant(store, env, tenantId, keys)
    ensures forall s :: s in r ==> s.env == env && s.tenantId == tenantId
  {
    Repo.FindAllByTenant(store, env, tenantId, keys)
  }

  function GetDevice(store: Repo.Store, env: string, tenantId: string, deviceId: string): (r: Option<DeviceState>)
    ensures r == Repo.FindById(store, env, tenantId, deviceId)
    ensures r.None? <==> !Repo.Readable(store, RedisKeys.DeviceState(env, tenantId, deviceId))
  {
    Repo.FindById(store, env, tenantId, deviceId)
  }

  function GetRecentSummary(store: Repo.Store, env: string, tenantId: string): (r: RecentSummaryResponse)
    ensures r == Repo.FindRecentSummary(store, env, tenantId)
    ensures r.windowSeconds == 600
  {
    Repo.FindRecentSummary(store, env, tenantId)
  }

  function GetDroughtStreak(store: Repo.Store, env: string, tenantId: string, deviceId: string): (r: Option<DroughtStreakResponse>)
    ensures r == Repo.FindDroughtStreak(store, env, tenantId, deviceId)
    ensures r.None? <==> !Repo.Readable(store, RedisKeys.DeviceHumidityLowStreak(env, tenantId, deviceId))
  {
    Repo.FindDroughtStreak(store, env, tenantId, deviceId)
  }

  function GetDroughtSummary(store: Repo.Store, env: string, tenantId: string, keys: seq<string>): (r: DroughtSummaryResponse)
    ensures r == Repo.FindDroughtSummary(store, env, tenantId, keys)
    ensures 0 <= r.devicesInDrought <= |keys|
  {
    Repo.FindDroughtSummary(store, env, tenantId, keys)
  }

  /** The last-seen time of a snapshot: 0 to start with, replaced by tsHt
      when present, then raised to tsState when present and larger. It is the
      largest of the present timestamps, with 0 taking part exactly when tsHt
      is absent. */
  function LastSeen(tsHt: Option<int>, tsState: Option<int>): (r: int)
    ensures tsHt.Some? ==> r >= tsHt.value
    ensures tsState.Some? ==> r >= tsState.value
    ensures tsHt.None? ==> r >= 0
    ensures (tsHt.None? && r == 0) || (tsHt.Some? && r == tsHt.value) || (tsState.Some? && r == tsState.value)
  {
    var afterHt := if tsHt.Some? then tsHt.value else 0;
    if tsState.Some? then (if afterHt >= tsState.value then afterHt else tsState.value) else afterHt
  }

  function Max(a: int, b: int): int {
    if a >= b then a else b
  }

  /** The last-seen time equals the larger of the two timestamps read with 0
      for null exactly when it is not the case that tsHt alone is present and
      negative; in that case it is tsHt, not 0. */
  lemma LastSeenVersusNullAsZero(tsHt: Option<int>, tsState: Option<int>)
    ensures LastSeen(tsHt, tsState) == Max(tsHt.GetOr(0), tsState.GetOr(0))
            <==> !(tsHt.Some? && tsHt.value < 0 && tsState.None?)
  {
  }

  /** Two recorded timestamps give the later of the two. */
  lemma LastSeenBothPresent(tsHt: int, tsState: int)
    ensures LastSeen(Some(tsHt), Some(tsState)) == Max(tsHt, tsState)
  {
  }

  /** The recent-devices shape of one snapshot; rssi narrowed by intValue(). */
  function Snapshot(s: DeviceState): (r: RecentDeviceSnapshotResponse)
    ensures r.deviceId == s.deviceId && r.lastSeenTs == LastSeen(s.tsHt, s.tsState)
    ensures r.t == s.t && r.h == s.h && r.online == s.online && r.snr == s.snr && r.bat == s.bat
    ensures r.rssi.Some? <==> s.rssi.Some?
    ensures r.rssi.Some? ==> InIntRange(r.rssi.value) && (r.rssi.value - s.rssi.value) % 0x1_0000_0000 == 0
    ensures r.rssi.Some? && InIntRange(s.rssi.value) ==> r.rssi == s.rssi
  {
    RecentDeviceSnapshotResponse(
      s.deviceId,
      LastSeen(s.tsHt, s.tsState),
      s.t, s.h, s.online,
      if s.rssi.None? then None else Some(ToInt32(s.rssi.value)),
      s.snr, s.bat)
  }

  /** An rssi outside the 32-bit range wraps: 2^31 reads as -2^31. */
  lemma SnapshotRssiWraps(s: DeviceState)
    requires s.rssi == Some(0x8000_0000)
    ensures Snapshot(s).rssi == Some(-0x8000_0000)
  {
  }

  /** getRecentSnapshots: one snapshot per device findAllByTenant lists, in
      the same order; no device is dropped for being stale. Each names a device
      findById can read, and when the scanned keys are distinct well-formed
      state keys no device appears twice. */
  method GetRecentSnapshots(store: Repo.Store, env: string, tenantId: string, keys: seq<string>)
    returns (result: seq<RecentDeviceSnapshotResponse>)
    ensures var states := Repo.FindAllByTenant(store, env, tenantId, keys);
      && |result| == |states|
      && forall i :: 0 <= i < |result| ==> result[i] == Snapshot(states[i])
    ensures forall a :: 0 <= a < |result| ==> Repo.FindById(store, env, tenantId, result[a].deviceId).Some?
    ensures (forall k :: 0 <= k < |keys| && Repo.ExtractDeviceId(keys[k]).Some? ==> Repo.WellFormedStateKey(env, tenantId, keys[k]))
            && Seqs.Distinct(keys)
            ==> forall a, b :: 0 <= a < b < |result| ==> result[a].deviceId != result[b].deviceId
  {
    var states := Repo.FindAllByTenant(store, env, tenantId, keys);
    result := [];
    var i := 0;
    while i < |states|
      invariant 0 <= i <= |states|
      invariant |result| == i
      invariant forall j :: 0 <= j < i ==> result[j] == Snapshot(states[j])
    {
      result := result + [Snapshot(states[i])];
      i := i + 1;
    }
    forall a | 0 <= a < |result|
      ensures Repo.FindById(store, env, tenantId, result[a].deviceId).Some?
    {
      assert states[a] in states;
      var k :| 0 <= k < |keys| && Repo.DeviceAt(store, env, tenantId, keys[k]) == Some(states[a]);
    }
    if (forall k :: 0 <= k < |keys| && Repo.ExtractDeviceId(keys[k]).Some? ==> Repo.WellFormedStateKey(env, tenantId, keys[k]))
       && Seqs.Distinct(keys) {
      Repo.FindAllByTenantDistinct(store, env, tenantId, keys);
    }
  }
}
