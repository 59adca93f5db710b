/** `src/middlewares/metrics.ts`: the arithmetic applied to the numbers read
    from the system, and the body `getMetrics` sends. The shell commands,
    their parsing and the ipinfo.io request are inputs. */
module Metrics {
  import opened Wrappers
  import opened Json
  import opened Http
  import opened FormatBytes

  const StorageUnits: seq<string> := ["B", "KB", "MB", "GB", "TB", "PB", "EB", "ZB", "YB"]

  function Max(a: real, b: real): real
  {
    if a >= b then a else b
  }

  /** `getStorageUsage`'s loop: `used` and `total` are divided together
      while either is at least 1024. */
  function ScaleStorage(used: real, total: real): (r: StorageScaled)
    decreases if Max(used, total) < 0.0 then 0 else Max(used, total).Floor
    ensures r.used < 1024.0 && r.total < 1024.0
  {
    if used >= 1024.0 || total >= 1024.0 then
      FloorShrinks(Max(used, total));
      assert Max(used / 1024.0, total / 1024.0) == Max(used, total) / 1024.0;
      var inner := ScaleStorage(used / 1024.0, total / 1024.0);
      StorageScaled(inner.used, inner.total, inner.unit + 1)
    else StorageScaled(used, total, 0)
  }

  /** The scaled figures times `1024^unit` give back the originals: both
      were divided by the same power of 1024. */
  lemma {:induction false} ScaleStorageExact(used: real, total: real)
    decreases if Max(used, total) < 0.0 then 0 else Max(used, total).Floor
    ensures Exact(ScaleStorage(used, total), used, total)
  {
    if used >= 1024.0 || total >= 1024.0 {
      FloorShrinks(Max(used, total));
      assert Max(used / 1024.0, total / 1024.0) == Max(used, total) / 1024.0;
      var inner := ScaleStorage(used / 1024.0, total / 1024.0);
      ScaleStorageExact(used / 1024.0, total / 1024.0);
      ExactStep(inner, used, total);
    } else {
      assert Pow1024(0) == 1.0;
    }
  }

  predicate Exact(r: StorageScaled, used: real, total: real)
  {
    r.used * Pow1024(r.unit) == used && r.total * Pow1024(r.unit) == total
  }

  lemma ExactStep(inner: StorageScaled, used: real, total: real)
    requires Exact(inner, used / 1024.0, total / 1024.0)
    ensures Exact(StorageScaled(inner.used, inner.total, inner.unit + 1), used, total)
  {
    var p := Pow1024(inner.unit);
    MultiplyOut(inner.used, p, used);
    MultiplyOut(inner.total, p, total);
  }

  datatype StorageScaled = StorageScaled(used: real, total: real, unit: nat)

  lemma MultiplyOut(x: real, p: real, v: real)
    requires x * p == v / 1024.0
    ensures x * (1024.0 * p) == v
  {
    assert x * (1024.0 * p) == 1024.0 * (x * p);
  }

  /** The storage unit is the one `formatBytes` would choose for the larger
      of the two figures: the least in which it drops below 1024. */
  lemma {:induction false} StorageUnitOfMax(used: real, total: real)
    decreases if Max(used, total) < 0.0 then 0 else Max(used, total).Floor
    ensures ScaleStorage(used, total).unit == Scale(Max(used, total)).unit
  {
    if used >= 1024.0 || total >= 1024.0 {
      FloorShrinks(Max(used, total));
      assert Max(used / 1024.0, total / 1024.0) == Max(used, total) / 1024.0;
      StorageUnitOfMax(used / 1024.0, total / 1024.0);
    }
  }

  /** Both figures share one divisor, so their proportion is kept: the
      displayed `used of total` is the real usage ratio. */
  lemma StorageRatioKept(used: real, total: real)
    ensures var r := ScaleStorage(used, total); r.used * total == r.total * used
  {
    var r := ScaleStorage(used, total);
    var p := Pow1024(r.unit);
    ScaleStorageExact(used, total);
    calc {
      r.used * total;
      r.used * (r.total * p);
      { assert r.used * (r.total * p) == r.total * (r.used * p); }
      r.total * (r.used * p);
      r.total * used;
    }
  }

  /** For figures of at least 1 the unit brackets the larger one:
      `1024^k <= max(used, total) < 1024^(k+1)`. */
  lemma StorageUnitBrackets(used: real, total: real)
    requires Max(used, total) >= 1.0
    ensures var k := ScaleStorage(used, total).unit;
      Pow1024(k) <= Max(used, total) < Pow1024(k + 1)
  {
    StorageUnitOfMax(used, total);
    ScaleBrackets(Max(used, total));
  }

  /** `${used.toFixed(2)}${unit} of ${total.toFixed(2)}${unit}`. */
  function StorageText(used: real, total: real): (text: seq<Piece>)
    ensures |text| == 5 && text[1] == text[4] && text[2] == Lit(" of ")
    ensures text[1] == Lit(UnitName(StorageUnits, ScaleStorage(used, total).unit))
    ensures text[0] == Fixed(Finite(ScaleStorage(used, total).used), 2)
    ensures text[3] == Fixed(Finite(ScaleStorage(used, total).total), 2)
  {
    var r := ScaleStorage(used, total);
    var unit := Lit(UnitName(StorageUnits, r.unit));
    [Fixed(Finite(r.used), 2), unit, Lit(" of "), Fixed(Finite(r.total), 2), unit]
  }

  /** `getStorageUsage` uses the decimal-looking `KB`, `MB`, ... for the same
      steps of 1024 that `formatBytes` calls `KiB`, `MiB`, ... */
  lemma StorageSuffixesDiffer(k: nat)
    requires 1 <= k < 9
    ensures UnitName(StorageUnits, k) != UnitName(Units, k)
    ensures |UnitName(Units, k)| == |UnitName(StorageUnits, k)| + 1
  {
  }

  /** `((total - available) / total) * 100` on the `/proc/meminfo` figures
      in kB after both were divided by 1024. Division by zero follows IEEE
      754: `0/0` is NaN, a negative numerator over zero is -Infinity. */
  function RamUsage(totalKb: nat, availableKb: nat): (r: Num)
    ensures totalKb > 0 ==>
      r == Finite((totalKb as real - availableKb as real) / totalKb as real * 100.0)
    ensures totalKb > 0 && availableKb <= totalKb ==> 0.0 <= r.value <= 100.0
    ensures totalKb == 0 ==> r == (if availableKb == 0 then NaN else NegInfinity)
  {
    var total := totalKb as real / 1024.0;
    var available := availableKb as real / 1024.0;
    if total == 0.0 then (if available == 0.0 then NaN else NegInfinity)
    else
      var usage := (total - available) / total * 100.0;
      assert (total - available) / total == (totalKb as real - availableKb as real) / totalKb as real;
      Finite(usage)
  }

  /** The two temperature strings of `getCPUTemperature`. */
  datatype Temperatures = Temperatures(celsius: seq<Piece>, fahrenheit: seq<Piece>)

  /** `c * 9 / 5 + 32`. */
  function Fahrenheit(c: real): (f: real)
    ensures (f - 32.0) * 5.0 / 9.0 == c
  {
    c * 9.0 / 5.0 + 32.0
  }

  /** `getCPUTemperature`, given the number after `Tctl:` when the `sensors`
      output has one. */
  function CpuTemperature(tctl: Option<real>): (t: Temperatures)
    ensures tctl.None? ==> t.celsius == [Lit("N/A"), Lit("°C")] && t.fahrenheit == [Lit("N/A"), Lit("°F")]
    ensures |t.celsius| == 2 && |t.fahrenheit| == 2
    ensures t.celsius[1] == Lit("°C") && t.fahrenheit[1] == Lit("°F")
    ensures tctl.Some? ==> t.celsius[0] == Fixed(Finite(tctl.value), 1)
    ensures tctl.Some? ==> t.fahrenheit[0].Fixed? && t.fahrenheit[0].num.Finite?
                           && (t.fahrenheit[0].num.value - 32.0) * 5.0 / 9.0 == tctl.value
  {
    match tctl
    case None => Temperatures([Lit("N/A"), Lit("°C")], [Lit("N/A"), Lit("°F")])
    case Some(c) =>
      Temperatures([Fixed(Finite(c), 1), Lit("°C")], [Fixed(Finite(Fahrenheit(c)), 1), Lit("°F")])
  }

  /** What `getMetrics` reads from the system and the clock. `failure` is
      the error thrown by the first read that fails: `execSync` throws when
      a command exits non-zero (`sensors` missing, `systemd-detect-virt` on
      bare metal), and a `/proc/meminfo` without its `MemTotal` or
      `MemAvailable` line makes the `match(...)!` access throw. */
  datatype MetricsInputs = MetricsInputs(
    failure: Option<string>,
    cpuUsage: string, cores: string,
    memTotalKb: nat, memAvailableKb: nat,
    storageUsed: real, storageTotal: real,
    tctl: Option<real>,
    os: string, virtualization: string, ipv4: string, timezone: string,
    isoRead: int, unixRead: int)

  /** The `Metrics` object; the optional statistics are always included. */
  function MetricsBody(m: MetricsInputs): (body: JsonObject)
    ensures body.Keys == {"cpu", "ram", "storage", "cpu_temperature", "os", "virtualization",
                          "ipv4_address", "timezone", "timestamp", "timestamp_unix"}
    ensures body["cpu_temperature"] == JText(CpuTemperature(m.tctl).celsius)
    ensures body["timestamp"] == JText([IsoTime(m.isoRead)])
    ensures body["timestamp_unix"] == JInt(m.unixRead / 1000)
    ensures body["cpu"] == JObject(map["usage" := JText([Lit(m.cpuUsage), Lit("%")]), "cores" := Str(m.cores)])
    ensures body["ram"] == JText([Fixed(RamUsage(m.memTotalKb, m.memAvailableKb), 1), Lit("%")])
    ensures body["storage"] == JText(StorageText(m.storageUsed, m.storageTotal))
    ensures body["os"] == Str(m.os) && body["virtualization"] == Str(m.virtualization)
    ensures body["ipv4_address"] == Str(m.ipv4) && body["timezone"] == Str(m.timezone)
  {
    map[
      "cpu" := JObject(map["usage" := JText([Lit(m.cpuUsage), Lit("%")]), "cores" := Str(m.cores)]),
      "ram" := JText([Fixed(RamUsage(m.memTotalKb, m.memAvailableKb), 1), Lit("%")]),
      "storage" := JText(StorageText(m.storageUsed, m.storageTotal)),
      "cpu_temperature" := JText(CpuTemperature(m.tctl).celsius),
      "os" := Str(m.os),
      "virtualization" := Str(m.virtualization),
      "ipv4_address" := Str(m.ipv4),
      "timezone" := Str(m.timezone),
      "timestamp" := JText([IsoTime(m.isoRead)]),
      "timestamp_unix" := JInt(m.unixRead / 1000)]
  }

  /** `getMetrics`: a failed system read rejects the handler's promise
      before anything is sent. Otherwise the body is serialized by hand and
      sent with `res.send`, so the `res.json` wrapper never sees it; `send`
      adds the charset to the `application/json` type set beforehand. */
  function GetMetrics(m: MetricsInputs): (reply: Reply)
    ensures m.failure.Some? <==> reply.Rejected?
    ensures m.failure.Some? ==> reply.reason == m.failure.value
    ensures m.failure.None? ==>
      && reply.SendReply? && reply.status == 200
      && reply.contentType == "application/json; charset=utf-8"
      && reply.payload == JsonText(MetricsBody(m))
  {
    match m.failure
    case Some(e) => Rejected(e)
    case None => SendReply(200, "application/json; charset=utf-8", JsonText(MetricsBody(m)))
  }

  /** Only the Celsius reading reaches the body: two readings with the same
      Celsius text give the same body, whatever their Fahrenheit text. */
  lemma FahrenheitDiscarded(m: MetricsInputs, t: Option<real>)
    requires CpuTemperature(t).celsius == CpuTemperature(m.tctl).celsius
    ensures MetricsBody(m.(tctl := t)) == MetricsBody(m)
  {
  }
}
