/** RedisKeys: the key schema of the live store, and the glob matching that
    Redis KEYS applies to the wildcard patterns built from it. */
module RedisKeys {

  /** The part every per-device key of one environment and tenant shares:
      `pvz:{env}:{tenant}:device:`. */
  function DevicePrefix(env: string, tenantId: string): (r: string)
    ensures |r| == |env| + |tenantId| + 13
  {
    "pvz:" + env + ":" + tenantId + ":device:"
  }

  const StateSuffix: string := ":state"
  const StreakSuffix: string := ":humidity_low_streak"

  /** devicesSet: `pvz:{env}:{tenant}:devices`. No read path uses it. */
  function DevicesSet(env: string, tenantId: string): string {
    "pvz:" + env + ":" + tenantId + ":devices"
  }

  /** The devices-set key is never a per-device key of the same tenant: it
      has "s" where every per-device key has ':' after "device". */
  lemma DevicesSetIsNoDeviceKey(env: string, tenantId: string, deviceId: string)
    ensures DevicesSet(env, tenantId) != DeviceState(env, tenantId, deviceId)
    ensures DevicesSet(env, tenantId) != DeviceHumidityLowStreak(env, tenantId, deviceId)
  {
    var n := |DevicePrefix(env, tenantId)| - 1;
    assert DevicesSet(env, tenantId)[n] == 's';
    assert DeviceState(env, tenantId, deviceId)[n] == ':';
    assert DeviceHumidityLowStreak(env, tenantId, deviceId)[n] == ':';
  }

  /** deviceState: `pvz:{env}:{tenant}:device:{id}:state`. */
  function DeviceState(env: string, tenantId: string, deviceId: string): (r: string)
    ensures |r| == |DevicePrefix(env, tenantId)| + |deviceId| + |StateSuffix|
  {
    DevicePrefix(env, tenantId) + deviceId + StateSuffix
  }

  /** deviceHumidityLowStreak: `pvz:{env}:{tenant}:device:{id}:humidity_low_streak`. */
  function DeviceHumidityLowStreak(env: string, tenantId: string, deviceId: string): (r: string)
    ensures |r| == |DevicePrefix(env, tenantId)| + |deviceId| + |StreakSuffix|
  {
    DevicePrefix(env, tenantId) + deviceId + StreakSuffix
  }

  /** deviceHumidityLowStreakPattern: the streak key with `*` as the device. */
  function DeviceHumidityLowStreakPattern(env: string, tenantId: string): (r: string)
    ensures r == DeviceHumidityLowStreak(env, tenantId, "*")
  {
    "pvz:" + env + ":" + tenantId + ":device:*:humidity_low_streak"
  }

  /** The state-key pattern that findAllByTenant builds inline. */
  function DeviceStatePattern(env: string, tenantId: string): (r: string)
    ensures r == DeviceState(env, tenantId, "*")
  {
    "pvz:" + env + ":" + tenantId + ":device:*:state"
  }

  /** Redis glob matching as KEYS applies it (case-sensitive): `*` matches
      any run of characters (also none), `?` any one character, `[...]` one
      character of a class, `\` makes the next character literal, and every
      other character matches itself. */
  predicate GlobMatch(pattern: string, s: string)
    decreases |pattern| + |s|
  {
    if |pattern| == 0 then |s| == 0
    else if pattern[0] == '*' then
      GlobMatch(pattern[1..], s) || (|s| > 0 && GlobMatch(pattern, s[1..]))
    else if |s| == 0 then false
    else if pattern[0] == '?' then GlobMatch(pattern[1..], s[1..])
    else if pattern[0] == '[' then
      var body := pattern[1..];
      var negated := |body| > 0 && body[0] == '^';
      var cls := ClassScan(if negated then body[1..] else body, s[0]);
      cls.hit != negated && GlobMatch(cls.rest, s[1..])
    else if pattern[0] == '\\' && |pattern| >= 2 then
      pattern[1] == s[0] && GlobMatch(pattern[2..], s[1..])
    else
      pattern[0] == s[0] && GlobMatch(pattern[1..], s[1..])
  }

  /** Whether a character lies in a class, and the pattern after the class. */
  datatype ClassResult = ClassResult(hit: bool, rest: string)

  /** One character class, read from just after its `[` (and `^`): `\x` is
      the character x, `a-z` the characters from a to z (either order), any
      other character itself, up to the first unescaped `]`. A class that is
      never closed runs to the end of the pattern. */
  function ClassScan(body: string, c: char): (r: ClassResult)
    ensures |r.rest| <= |body|
    ensures |body| == 0 ==> r == ClassResult(false, [])
    ensures |body| > 0 && body[0] == ']' ==> r == ClassResult(false, body[1..])
    ensures |body| > 0 && body[0] != '\\' && body[0] != ']' && (|body| < 3 || body[1] != '-') && body[0] == c ==> r.hit
    decreases |body|
  {
    if |body| == 0 then ClassResult(false, [])
    else if body[0] == '\\' && |body| >= 2 then
      var r := ClassScan(body[2..], c);
      ClassResult(r.hit || body[1] == c, r.rest)
    else if body[0] == ']' then ClassResult(false, body[1..])
    else if |body| >= 3 && body[1] == '-' then
      var lo := if body[0] <= body[2] then body[0] else body[2];
      var hi := if body[0] <= body[2] then body[2] else body[0];
      var r := ClassScan(body[3..], c);
      ClassResult(r.hit || (lo <= c <= hi), r.rest)
    else
      var r := ClassScan(body[1..], c);
      ClassResult(r.hit || body[0] == c, r.rest)
  }

  /** A string with no class opener and no escape: read as a pattern, each of
      its characters matches at least itself. */
  predicate Literal(s: string) {
    '[' !in s && '\\' !in s
  }

  /** Every literal string matches itself read as a pattern. */
  lemma {:induction false} GlobMatchSelf(s: string)
    requires Literal(s)
    ensures GlobMatch(s, s)
  {
    if |s| > 0 {
      assert forall c :: c in s[1..] ==> c in s;
      GlobMatchSelf(s[1..]);
      if s[0] == '*' {
        assert GlobMatch(s[1..], s[1..]);
        assert GlobMatch(s, s[1..]);
      }
    }
  }

  /** A common literal prefix preserves a match. */
  lemma {:induction false} GlobMatchPrefix(a: string, p: string, s: string)
    requires Literal(a)
    requires GlobMatch(p, s)
    ensures GlobMatch(a + p, a + s)
  {
    if |a| > 0 {
      var p', s' := a + p, a + s;
      assert forall c :: c in a[1..] ==> c in a;
      GlobMatchPrefix(a[1..], p, s);
      assert p'[1..] == a[1..] + p;
      assert s'[1..] == a[1..] + s;
      assert GlobMatch(p'[1..], s'[1..]);
      assert a[0] in a;
      if a[0] == '*' {
        assert GlobMatch(p', s'[1..]) by {
          assert |p'| > 0 && p'[0] == '*';
        }
      } else {
        assert p'[0] == s'[0];
      }
    } else {
      assert a + p == p && a + s == s;
    }
  }

  /** A leading `*` absorbs any run of characters. */
  lemma {:induction false} GlobMatchStar(run: string, p: string, s: string)
    requires GlobMatch(p, s)
    ensures GlobMatch("*" + p, run + s)
  {
    var sp := "*" + p;
    assert sp[1..] == p;
    if |run| == 0 {
      assert run + s == s;
    } else {
      GlobMatchStar(run[1..], p, s);
      assert (run + s)[1..] == run[1..] + s;
    }
  }

  /** A pattern with one `*` between a literal prefix and suffix matches
      that prefix and suffix around any run. */
  lemma WildcardMatches(pre: string, run: string, suffix: string)
    requires Literal(pre) && Literal(suffix)
    ensures GlobMatch(pre + "*" + suffix, pre + run + suffix)
  {
    GlobMatchSelf(suffix);
    GlobMatchStar(run, suffix, suffix);
    GlobMatchPrefix(pre, "*" + suffix, run + suffix);
    assert pre + ("*" + suffix) == pre + "*" + suffix;
    assert pre + (run + suffix) == pre + run + suffix;
  }

  /** The shared key prefix is literal when the environment and tenant are. */
  lemma DevicePrefixLiteral(env: string, tenantId: string)
    requires Literal(env) && Literal(tenantId)
    ensures Literal(DevicePrefix(env, tenantId))
  {
    var pre := DevicePrefix(env, tenantId);
    forall c | c in pre
      ensures c != '[' && c != '\\'
    {
      var i :| 0 <= i < |pre| && pre[i] == c;
      if 4 <= i < 4 + |env| {
        assert c == env[i - 4];
      } else if 5 + |env| <= i < 5 + |env| + |tenantId| {
        assert c == tenantId[i - 5 - |env|];
      }
    }
  }

  /** Every streak key of an environment and tenant without class openers or
      escapes matches the streak pattern of that environment and tenant,
      whatever the device id. */
  lemma StreakKeyMatchesPattern(env: string, tenantId: string, deviceId: string)
    requires Literal(env) && Literal(tenantId)
    ensures GlobMatch(DeviceHumidityLowStreakPattern(env, tenantId),
                      DeviceHumidityLowStreak(env, tenantId, deviceId))
  {
    DevicePrefixLiteral(env, tenantId);
    WildcardMatches(DevicePrefix(env, tenantId), deviceId, StreakSuffix);
  }

  /** The same holds for state keys and the state pattern. */
  lemma StateKeyMatchesPattern(env: string, tenantId: string, deviceId: string)
    requires Literal(env) && Literal(tenantId)
    ensures GlobMatch(DeviceStatePattern(env, tenantId), DeviceState(env, tenantId, deviceId))
  {
    DevicePrefixLiteral(env, tenantId);
    WildcardMatches(DevicePrefix(env, tenantId), deviceId, StateSuffix);
  }

  /** The state pattern splices the tenant id in unescaped, so a tenant id
      holding a class reads as a class: for tenant "[t]" the pattern misses
      the tenant's own keys and matches those of tenant "t" instead, in every
      environment without glob-special characters. */
  lemma UnescapedPatternMissesTenant(env: string, deviceId: string)
    requires Literal(env) && '*' !in env && '?' !in env && ':' !in env
    ensures !GlobMatch(DeviceStatePattern(env, "[t]"), DeviceState(env, "[t]", deviceId))
    ensures GlobMatch(DeviceStatePattern(env, "[t]"), DeviceState(env, "t", deviceId))
  {
    var pre := "pvz:" + env + ":";
    assert Literal(pre) && '*' !in pre && '?' !in pre by {
      forall c | c in pre
        ensures c != '[' && c != '\\' && c != '*' && c != '?'
      {
        var i :| 0 <= i < |pre| && pre[i] == c;
        if 4 <= i < 4 + |env| {
          assert c == env[i - 4];
        }
      }
    }
    var tail := ":device:*:state";
    var sfx := ":device:" + deviceId + ":state";
    StateTailMatches(deviceId);
    ClassTenant(pre, tail, sfx);
    assert DeviceStatePattern(env, "[t]") == pre + ("[t]" + tail);
    assert DeviceState(env, "[t]", deviceId) == pre + ("[t]" + sfx);
    assert DeviceState(env, "t", deviceId) == pre + ("t" + sfx);
  }

  /** The part of the state pattern after the tenant matches the part of
      every state key after the tenant. */
  lemma StateTailMatches(deviceId: string)
    ensures GlobMatch(":device:*:state", ":device:" + deviceId + ":state")
  {
    WildcardMatches(":device:", deviceId, ":state");
    assert ":device:*:state" == ":device:" + "*" + ":state";
  }

  /** After a literal prefix, the class `[t]` rejects a literal `[` and
      accepts `t`. */
  lemma ClassTenant(pre: string, tail: string, sfx: string)
    requires Literal(pre) && '*' !in pre && '?' !in pre
    requires GlobMatch(tail, sfx)
    ensures !GlobMatch(pre + ("[t]" + tail), pre + ("[t]" + sfx))
    ensures GlobMatch(pre + ("[t]" + tail), pre + ("t" + sfx))
  {
    GlobMatchAfterLiteral(pre, "[t]" + tail, "[t]" + sfx);
    var p := "[t]" + tail;
    assert p[0] == '[' && p[1..] == "t]" + tail;
    assert ("t]" + tail)[0] == 't' && ("t]" + tail)[1..] == "]" + tail;
    assert ("]" + tail)[0] == ']' && ("]" + tail)[1..] == tail;
    assert ClassScan("]" + tail, '[') == ClassResult(false, tail);
    assert ClassScan("t]" + tail, '[') == ClassResult(false, tail);
    assert ClassScan("]" + tail, 't') == ClassResult(false, tail);
    assert ClassScan("t]" + tail, 't') == ClassResult(true, tail);
    assert ("t" + sfx)[0] == 't' && ("t" + sfx)[1..] == sfx;
    assert GlobMatch(p, "t" + sfx);
    GlobMatchPrefix(pre, p, "t" + sfx);
  }

  /** Past a literal prefix shared by pattern and string, matching is decided
      by what follows it. */
  lemma {:induction false} GlobMatchAfterLiteral(a: string, p: string, s: string)
    requires Literal(a) && '*' !in a && '?' !in a
    ensures GlobMatch(a + p, a + s) == GlobMatch(p, s)
  {
    if |a| > 0 {
      assert forall c :: c in a[1..] ==> c in a;
      assert a[0] in a;
      GlobMatchAfterLiteral(a[1..], p, s);
      assert (a + p)[1..] == a[1..] + p;
      assert (a + s)[1..] == a[1..] + s;
    } else {
      assert a + p == p && a + s == s;
    }
  }

  /** A glob-special character: one that must be escaped to match itself. */
  predicate GlobSpecial(c: char) {
    c == '*' || c == '?' || c == '[' || c == ']' || c == '\\'
  }

  /** `s` escaped for a glob: every special character gets a `\` before it. */
  function EscapeGlob(s: string): (r: string)
    ensures |r| >= |s|
  {
    if |s| == 0 then ""
    else (if GlobSpecial(s[0]) then ['\\', s[0]] else [s[0]]) + EscapeGlob(s[1..])
  }

  /** An escaped prefix matches exactly itself, whatever characters it holds. */
  lemma {:induction false} GlobMatchEscaped(a: string, p: string, s: string)
    requires GlobMatch(p, s)
    ensures GlobMatch(EscapeGlob(a) + p, a + s)
  {
    if |a| > 0 {
      GlobMatchEscaped(a[1..], p, s);
      var rest := EscapeGlob(a[1..]) + p;
      var pat := EscapeGlob(a) + p;
      assert (a + s)[0] == a[0] && (a + s)[1..] == a[1..] + s;
      if GlobSpecial(a[0]) {
        assert pat == ['\\', a[0]] + rest;
        assert pat[2..] == rest;
      } else {
        assert pat == [a[0]] + rest;
        assert pat[1..] == rest;
      }
    } else {
      assert EscapeGlob(a) + p == p;
      assert a + s == s;
    }
  }

  /** The state pattern with the environment and tenant escaped. */
  function EscapedStatePattern(env: string, tenantId: string): (r: string)
    ensures |r| >= |DeviceStatePattern(env, tenantId)|
  {
    "pvz:" + EscapeGlob(env) + ":" + EscapeGlob(tenantId) + ":device:*:state"
  }

  /** Escaping both spliced segments makes the pattern match whatever they hold. */
  lemma EscapedSegmentsMatch(pre: string, env: string, mid: string, tenantId: string, tail: string, sfx: string)
    requires Literal(pre) && Literal(mid) && GlobMatch(tail, sfx)
    ensures GlobMatch(pre + (EscapeGlob(env) + (mid + (EscapeGlob(tenantId) + tail))),
                      pre + (env + (mid + (tenantId + sfx))))
  {
    GlobMatchEscaped(tenantId, tail, sfx);
    GlobMatchPrefix(mid, EscapeGlob(tenantId) + tail, tenantId + sfx);
    GlobMatchEscaped(env, mid + (EscapeGlob(tenantId) + tail), mid + (tenantId + sfx));
    GlobMatchPrefix(pre, EscapeGlob(env) + (mid + (EscapeGlob(tenantId) + tail)), env + (mid + (tenantId + sfx)));
  }

  /** The escaped pattern matches every state key of its environment and
      tenant, whatever characters the two hold. */
  lemma EscapedPatternMatchesEveryKey(env: string, tenantId: string, deviceId: string)
    ensures GlobMatch(EscapedStatePattern(env, tenantId), DeviceState(env, tenantId, deviceId))
  {
    StateTailMatches(deviceId);
    EscapedSegmentsMatch("pvz:", env, ":", tenantId, ":device:*:state", ":device:" + deviceId + ":state");
    EscapedKeyShapes(env, tenantId, deviceId);
  }

  /** The escaped pattern and the state key, regrouped segment by segment. */
  lemma EscapedKeyShapes(env: string, tenantId: string, deviceId: string)
    ensures EscapedStatePattern(env, tenantId)
            == "pvz:" + (EscapeGlob(env) + (":" + (EscapeGlob(tenantId) + ":device:*:state")))
    ensures DeviceState(env, tenantId, deviceId)
            == "pvz:" + (env + (":" + (tenantId + (":device:" + deviceId + ":state"))))
  {
    Regroup5("pvz:", EscapeGlob(env), ":", EscapeGlob(tenantId), ":device:*:state");
    Regroup7("pvz:", env, ":", tenantId, ":device:", deviceId, StateSuffix);
  }

  /** Concatenation regrouped to the right, over opaque segments. */
  lemma Regroup5(a: string, b: string, c: string, d: string, e: string)
    ensures a + b + c + d + e == a + (b + (c + (d + e)))
  {
  }

  /** The same for the seven segments of a state key. */
  lemma Regroup7(a: string, b: string, c: string, d: string, e: string, f: string, g: string)
    ensures a + b + c + d + e + f + g == a + (b + (c + (d + (e + f + g))))
  {
  }

  /** For a fixed environment and tenant, distinct devices get distinct state keys. */
  lemma DeviceStateInjective(env: string, tenantId: string, a: string, b: string)
    ensures DeviceState(env, tenantId, a) == DeviceState(env, tenantId, b) ==> a == b
  {
    var pre := DevicePrefix(env, tenantId);
    if DeviceState(env, tenantId, a) == DeviceState(env, tenantId, b) {
      assert a == DeviceState(env, tenantId, a)[|pre|..|pre| + |a|];
    }
  }

  /** The same holds for streak keys. */
  lemma DeviceHumidityLowStreakInjective(env: string, tenantId: string, a: string, b: string)
    ensures DeviceHumidityLowStreak(env, tenantId, a) == DeviceHumidityLowStreak(env, tenantId, b) ==> a == b
  {
    var pre := DevicePrefix(env, tenantId);
    if DeviceHumidityLowStreak(env, tenantId, a) == DeviceHumidityLowStreak(env, tenantId, b) {
      assert a == DeviceHumidityLowStreak(env, tenantId, a)[|pre|..|pre| + |a|];
    }
  }
}
