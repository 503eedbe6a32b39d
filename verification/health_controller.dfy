/** The `/health` endpoint: detail maps built from the host readings, the overall verdict drawn from the
    memory and disk statuses, and the response that carries it. */
module HealthController {
  import opened Wrappers
  import opened JavaNumbers
  import opened Decimal
  import opened Metrics
  import opened UptimeText

  const ServiceName: string := "DemoService"

  /** `MEMORY_THRESHOLD * 100` and `DISK_THRESHOLD * 100`; the double products of 0.90 and 0.95 with
      100 are exactly 90.0 and 95.0. */
  const MemoryThresholdPercent: int := 90
  const DiskThresholdPercent: int := 95

  /** `formatBytes`: below 1024 the exact count and `" B"`; otherwise the count scaled by the largest
      power of 1024 not above it, with that power's letter from `"KMGTPE"`. */
  function FormatBytes(bytes: Long): (t: ByteText)
    ensures bytes < 1024 ==> t.amount.Whole? && ParseInt(t.amount.digits) == Some(bytes) && t.suffix == " B"
    ensures bytes >= 1024 ==> t.amount.Scaled? && t.amount.bytes == bytes
    ensures bytes >= 1024 ==>
              var e := t.amount.exponent;
              && 1 <= e <= 6
              && Pow1024(e) <= bytes < Pow1024(e + 1)
              && t.suffix == [' ', UnitLetters[e - 1], 'B']
  {
    if bytes < 1024 then
      IntToStringRoundTrip(bytes);
      ByteText(Whole(IntToString(bytes)), " B")
    else
      var exp := UnitExponent(bytes);
      LongUnitExponentInRange(bytes);
      ByteText(Scaled(bytes, exp), [' ', UnitLetters[exp - 1], 'B'])
  }

  /** Examples: 512 bytes stay exact, 1536 bytes are shown in KB and 2^30 bytes in GB. */
  lemma FormatBytesExamples()
    ensures FormatBytes(512) == ByteText(Whole("512"), " B")
    ensures FormatBytes(1536) == ByteText(Scaled(1536, 1), " KB")
    ensures FormatBytes(1073741824) == ByteText(Scaled(1073741824, 3), " GB")
  {
    UnitExponentUnique(1536, 1);
    UnitExponentUnique(1073741824, 3);
  }

  /** `formatUptime`: seconds, minutes, hours and days by truncating division, then the largest non-zero
      unit and every unit below it, each below the leading one taken modulo its parent. */
  function FormatUptime(uptimeMillis: Long): (t: string)
    ensures |t| >= 2 && t[|t| - 1] == 's'
  {
    var seconds := Quot(uptimeMillis, 1000);
    var minutes := Quot(seconds, 60);
    var hours := Quot(minutes, 60);
    var days := Quot(hours, 24);
    if days > 0 then
      IntToString(days) + "d " + IntToString(Rem(hours, 24)) + "h " +
      IntToString(Rem(minutes, 60)) + "m " + IntToString(Rem(seconds, 60)) + "s"
    else if hours > 0 then
      IntToString(hours) + "h " + IntToString(Rem(minutes, 60)) + "m " + IntToString(Rem(seconds, 60)) + "s"
    else if minutes > 0 then
      IntToString(minutes) + "m " + IntToString(Rem(seconds, 60)) + "s"
    else
      IntToString(seconds) + "s"
  }

  /** The fields `formatUptime` shows for a non-negative uptime: the leading one is non-zero unless it
      is the only one, the others are within their unit, and together they denote the whole seconds. */
  function UptimeFields(ms: nat): (fs: seq<Field>)
    ensures 1 <= |fs| <= 4 && UnitsAreLetters(fs)
    ensures FieldsSeconds(fs) == Some(ms / 1000)
    ensures |fs| > 1 ==> fs[0].amount > 0
    ensures fs[0].unit != 'd' ==> fs[0].amount < if fs[0].unit == 'h' then 24 else 60
    ensures forall i :: 1 <= i < |fs| ==> fs[i].amount < if fs[i].unit == 'h' then 24 else 60
  {
    var s := ms / 1000;
    var m := s / 60;
    var h := m / 60;
    var d := h / 24;
    assert m * 60 + s % 60 == s;
    assert h * 60 + m % 60 == m;
    assert d * 24 + h % 24 == h;
    if d > 0 then [Field(d, 'd'), Field(h % 24, 'h'), Field(m % 60, 'm'), Field(s % 60, 's')]
    else if h > 0 then [Field(h, 'h'), Field(m % 60, 'm'), Field(s % 60, 's')]
    else if m > 0 then [Field(m, 'm'), Field(s % 60, 's')]
    else [Field(s, 's')]
  }

  lemma ConcatAssoc(a: string, b: string, c: string)
    ensures a + (b + c) == (a + b) + c
  {
  }

  lemma RenderFieldsCons(f: Field, fs: seq<Field>)
    requires |fs| >= 1
    ensures RenderFields([f] + fs) == RenderField(f) + " " + RenderFields(fs)
  {
    assert ([f] + fs)[1..] == fs;
  }

  lemma RenderTwoFields(m: nat, s: nat)
    ensures RenderFields([Field(m, 'm'), Field(s, 's')]) == NatToString(m) + "m " + NatToString(s) + "s"
  {
    RenderFieldsCons(Field(m, 'm'), [Field(s, 's')]);
    assert [Field(m, 'm')] + [Field(s, 's')] == [Field(m, 'm'), Field(s, 's')];
    assert RenderField(Field(m, 'm')) + " " == NatToString(m) + "m ";
  }

  lemma RenderThreeFields(h: nat, m: nat, s: nat)
    ensures RenderFields([Field(h, 'h'), Field(m, 'm'), Field(s, 's')]) ==
            NatToString(h) + "h " + NatToString(m) + "m " + NatToString(s) + "s"
  {
    RenderFieldsCons(Field(h, 'h'), [Field(m, 'm'), Field(s, 's')]);
    assert [Field(h, 'h')] + [Field(m, 'm'), Field(s, 's')] == [Field(h, 'h'), Field(m, 'm'), Field(s, 's')];
    RenderTwoFields(m, s);
    var head := NatToString(h) + "h ";
    assert RenderField(Field(h, 'h')) + " " == head;
    var c, e := NatToString(m), NatToString(s);
    ConcatAssoc(head, c + "m " + e, "s");
    ConcatAssoc(head, c + "m ", e);
    ConcatAssoc(head, c, "m ");
  }

  lemma RenderFourFields(d: nat, h: nat, m: nat, s: nat)
    ensures RenderFields([Field(d, 'd'), Field(h, 'h'), Field(m, 'm'), Field(s, 's')]) ==
            NatToString(d) + "d " + NatToString(h) + "h " + NatToString(m) + "m " + NatToString(s) + "s"
  {
    var three := [Field(h, 'h'), Field(m, 'm'), Field(s, 's')];
    var head := NatToString(d) + "d ";
    calc {
      RenderFields([Field(d, 'd'), Field(h, 'h'), Field(m, 'm'), Field(s, 's')]);
      { assert [Field(d, 'd'), Field(h, 'h'), Field(m, 'm'), Field(s, 's')] == [Field(d, 'd')] + three; }
      RenderFields([Field(d, 'd')] + three);
      { RenderFieldsCons(Field(d, 'd'), three); }
      RenderField(Field(d, 'd')) + " " + RenderFields(three);
      { assert RenderField(Field(d, 'd')) + " " == head; }
      head + RenderFields(three);
      { RenderThreeFields(h, m, s); }
      head + (NatToString(h) + "h " + NatToString(m) + "m " + NatToString(s) + "s");
      { RegroupThreeFields(head, NatToString(h), NatToString(m), NatToString(s)); }
      head + NatToString(h) + "h " + NatToString(m) + "m " + NatToString(s) + "s";
    }
  }

  lemma RegroupThreeFields(head: string, a: string, c: string, e: string)
    ensures head + (a + "h " + c + "m " + e + "s") == head + a + "h " + c + "m " + e + "s"
  {
    ConcatAssoc(head, a + "h " + c + "m " + e, "s");
    ConcatAssoc(head, a + "h " + c + "m ", e);
    ConcatAssoc(head, a + "h " + c, "m ");
    ConcatAssoc(head, a + "h ", c);
    ConcatAssoc(head, a, "h ");
  }

  /** The decomposition `formatUptime` performs, for a non-negative uptime. */
  lemma UptimeUnits(ms: Long)
    requires ms >= 0
    ensures Quot(ms, 1000) == ms / 1000
    ensures Quot(ms / 1000, 60) == ms / 1000 / 60
    ensures Quot(ms / 1000 / 60, 60) == ms / 1000 / 60 / 60
    ensures Quot(ms / 1000 / 60 / 60, 24) == ms / 1000 / 60 / 60 / 24
    ensures Rem(ms / 1000, 60) == ms / 1000 % 60
    ensures Rem(ms / 1000 / 60, 60) == ms / 1000 / 60 % 60
    ensures Rem(ms / 1000 / 60 / 60, 24) == ms / 1000 / 60 / 60 % 24
  {
    QuotRemIdentity(ms, 1000);
    QuotRemIdentity(ms / 1000, 60);
    QuotRemIdentity(ms / 1000 / 60, 60);
    QuotRemIdentity(ms / 1000 / 60 / 60, 24);
  }

  lemma FormatUptimeIsRenderedFields(ms: Long)
    requires ms >= 0
    ensures FormatUptime(ms) == RenderFields(UptimeFields(ms))
  {
    UptimeUnits(ms);
    var s := ms / 1000;
    var m := s / 60;
    var h := m / 60;
    var d := h / 24;
    if d > 0 {
      RenderFourFields(d, h % 24, m % 60, s % 60);
    } else if h > 0 {
      RenderThreeFields(h, m % 60, s % 60);
    } else if m > 0 {
      RenderTwoFields(m, s % 60);
    }
  }

  /** The uptime string reads back as the whole seconds of the uptime, so no two different second
      counts are shown alike. */
  lemma UptimeRoundTrip(ms: Long)
    requires ms >= 0
    ensures ParseUptime(FormatUptime(ms)) == Some(ms / 1000)
  {
    FormatUptimeIsRenderedFields(ms);
    ParseRenderFields(UptimeFields(ms));
  }

  /** Under a minute only the whole seconds are shown. */
  lemma FormatUptimeUnderAMinuteIsSeconds(ms: Long)
    requires 0 <= ms < 60000
    ensures FormatUptime(ms) == NatToString(ms / 1000) + "s"
  {
    UptimeUnits(ms);
  }

  /** Examples under a minute, and the shape a negative reading would take. */
  lemma FormatUptimeUnderAMinute()
    ensures FormatUptime(0) == "0s"
    ensures FormatUptime(999) == "0s"
    ensures FormatUptime(-61000) == "-61s"
  {
    assert NatToString(0) == "0";
    assert Quot(-61000, 1000) == -61;
    assert NatToString(61) == "61";
  }

  lemma FormatUptimeMinutes()
    ensures FormatUptime(61000) == "1m 1s"
  {
    FormatUptimeIsRenderedFields(61000);
    assert UptimeFields(61000) == [Field(1, 'm'), Field(1, 's')];
    RenderTwoFields(1, 1);
    assert NatToString(1) == "1";
  }

  /** 25 hours are one day, one hour, no minutes and no seconds. */
  lemma DayAndHourFields()
    ensures UptimeFields(90000000) == [Field(1, 'd'), Field(1, 'h'), Field(0, 'm'), Field(0, 's')]
  {
  }

  lemma FormatUptimeDays()
    ensures FormatUptime(90000000) == "1d 1h 0m 0s"
  {
    FormatUptimeIsRenderedFields(90000000);
    DayAndHourFields();
    RenderFourFields(1, 1, 0, 0);
    assert NatToString(1) == "1";
    assert NatToString(0) == "0";
  }

  function StatusValue(healthy: bool): Value {
    Text(if healthy then "healthy" else "critical")
  }

  /** The memory section: heap sizes, the used amount `total - free`, its percentage, and a status that
      is healthy exactly when usage is below 90 percent. */
  function MemoryInformation(maxMemory: Long, totalMemory: Long, freeMemory: Long): (info: Details)
    ensures info.Keys == {"max", "total", "free", "used", "usagePercent", "status"}
    ensures info["status"] == Text("healthy") <==>
              BelowPercent(LongSub(totalMemory, freeMemory), totalMemory, MemoryThresholdPercent)
    ensures info["status"] != Text("healthy") ==> info["status"] == Text("critical")
  {
    var usedMemory := LongSub(totalMemory, freeMemory);
    map[
      "max" := Size(FormatBytes(maxMemory)),
      "total" := Size(FormatBytes(totalMemory)),
      "free" := Size(FormatBytes(freeMemory)),
      "used" := Size(FormatBytes(usedMemory)),
      "usagePercent" := Percent(usedMemory, totalMemory),
      "status" := StatusValue(BelowPercent(usedMemory, totalMemory, MemoryThresholdPercent))
    ]
  }

  /** At a positive total, memory is healthy strictly below 90 percent: exactly 90 is critical. */
  lemma MemoryThresholdEdge(totalMemory: Long, freeMemory: Long)
    requires totalMemory > 0 && 0 <= freeMemory
    ensures var used := totalMemory - freeMemory;
            MemoryInformation(0, totalMemory, freeMemory)["status"] == Text("healthy") <==>
              used * 100 < 90 * totalMemory
    ensures (totalMemory - freeMemory) * 100 == 90 * totalMemory ==>
              MemoryInformation(0, totalMemory, freeMemory)["status"] == Text("critical")
  {
  }

  function JvmInformation(h: HostReadings): (info: Details)
    ensures info.Keys == {"name", "vendor", "version", "uptime"}
    ensures info["uptime"] == Text(FormatUptime(h.uptimeMillis))
  {
    map[
      "name" := Text(h.vmName),
      "vendor" := Text(h.vmVendor),
      "version" := Text(h.javaVersion),
      "uptime" := Text(FormatUptime(h.uptimeMillis))
    ]
  }

  /** The load average is shown with two decimals, or as `N/A` when the host reports a negative value. */
  function OperatingSystemInformation(h: HostReadings): (info: Details)
    ensures info.Keys == {"name", "version", "architecture", "systemLoadAverage"}
    ensures info["systemLoadAverage"].Text? <==> h.loadAverage < 0.0
    ensures h.loadAverage < 0.0 ==> info["systemLoadAverage"] == Text("N/A")
    ensures h.loadAverage >= 0.0 ==> info["systemLoadAverage"] == TwoDecimals(h.loadAverage)
  {
    map[
      "name" := Text(h.osName),
      "version" := Text(h.osVersion),
      "architecture" := Text(h.osArch),
      "systemLoadAverage" := if h.loadAverage >= 0.0 then TwoDecimals(h.loadAverage) else Text("N/A")
    ]
  }

  function CpuInformation(h: HostReadings): (info: Details)
    ensures info.Keys == {"availableProcessors"}
    ensures info["availableProcessors"] == Count(h.availableProcessors)
  {
    map["availableProcessors" := Count(h.availableProcessors)]
  }

  /** The disk section: sizes of the root file system, plus a percentage and a status only when the
      total is positive; the status is healthy exactly when usage is below 95 percent. */
  function DiskInformation(totalSpace: Long, freeSpace: Long, usableSpace: Long): (info: Details)
    ensures info.Keys == if totalSpace > 0 then {"total", "free", "usable", "used", "usagePercent", "status"}
                         else {"total", "free", "usable", "used"}
    ensures "usagePercent" in info <==> totalSpace > 0
    ensures "status" in info <==> totalSpace > 0
    ensures totalSpace > 0 ==>
              (info["status"] == Text("healthy") <==>
                 BelowPercent(LongSub(totalSpace, freeSpace), totalSpace, DiskThresholdPercent))
    ensures totalSpace > 0 && info["status"] != Text("healthy") ==> info["status"] == Text("critical")
  {
    var usedSpace := LongSub(totalSpace, freeSpace);
    var sizes := DiskSizes(totalSpace, freeSpace, usableSpace, usedSpace);
    if totalSpace > 0 then
      var info := DiskUsage(sizes, usedSpace, totalSpace);
      assert info.Keys == {"total", "free", "usable", "used", "usagePercent", "status"};
      info
    else
      assert "status" !in sizes.Keys && "usagePercent" !in sizes.Keys;
      sizes
  }

  /** The percentage and status entries added to the disk section for a positive total. */
  function DiskUsage(sizes: Details, usedSpace: int, totalSpace: int): (info: Details)
    ensures info.Keys == sizes.Keys + {"usagePercent", "status"}
    ensures info["status"] == StatusValue(BelowPercent(usedSpace, totalSpace, DiskThresholdPercent))
  {
    sizes["usagePercent" := Percent(usedSpace, totalSpace)]
         ["status" := StatusValue(BelowPercent(usedSpace, totalSpace, DiskThresholdPercent))]
  }

  /** The four size entries of the disk section. */
  function DiskSizes(totalSpace: Long, freeSpace: Long, usableSpace: Long, usedSpace: Long): (sizes: Details)
    ensures sizes.Keys == {"total", "free", "usable", "used"}
  {
    map[
      "total" := Size(FormatBytes(totalSpace)),
      "free" := Size(FormatBytes(freeSpace)),
      "usable" := Size(FormatBytes(usableSpace)),
      "used" := Size(FormatBytes(usedSpace))
    ]
  }

  /** `getSystemInformation`: the five sections, the memory one always with a status, the disk one with
      a status only when the disk total is positive. */
  function SystemInformation(h: HostReadings): (sys: SystemInfo)
    ensures sys.memory.Keys == {"max", "total", "free", "used", "usagePercent", "status"}
    ensures sys.jvm.Keys == {"name", "vendor", "version", "uptime"}
    ensures sys.os.Keys == {"name", "version", "architecture", "systemLoadAverage"}
    ensures sys.cpu.Keys == {"availableProcessors"}
    ensures {"total", "free", "usable", "used"} <= sys.disk.Keys
    ensures "status" in sys.disk <==> h.diskTotal > 0
  {
    SystemInfo(
      MemoryInformation(h.maxMemory, h.totalMemory, h.freeMemory),
      JvmInformation(h),
      OperatingSystemInformation(h),
      CpuInformation(h),
      DiskInformation(h.diskTotal, h.diskFree, h.diskUsable))
  }

  /** The `status` entry of a section; `None` when the section has none (Java `null`). */
  function StatusOf(section: Details): Option<Value> {
    if "status" in section then Some(section["status"]) else None
  }

  /** `checkHealthStatus`: both the memory and the disk status must be the string `healthy`; a missing
      status is `null`, which never equals it. */
  function CheckHealthStatus(sys: SystemInfo): (healthy: bool)
    ensures healthy ==> "status" in sys.memory && "status" in sys.disk
    ensures healthy <==> StatusOf(sys.memory) == Some(Text("healthy")) && StatusOf(sys.disk) == Some(Text("healthy"))
  {
    var memoryStatus := StatusOf(sys.memory);
    var diskStatus := StatusOf(sys.disk);
    memoryStatus == Some(Text("healthy")) && diskStatus == Some(Text("healthy"))
  }

  predicate MemoryHealthy(h: HostReadings) {
    BelowPercent(LongSub(h.totalMemory, h.freeMemory), h.totalMemory, MemoryThresholdPercent)
  }

  /** Disk health needs a positive total: with none, the section has no status and cannot be healthy. */
  predicate DiskHealthy(h: HostReadings) {
    h.diskTotal > 0 && LongSub(h.diskTotal, h.diskFree) * 100 < DiskThresholdPercent * h.diskTotal
  }

  /** The verdict over the gathered sections, stated on the readings themselves. */
  lemma GatheredVerdict(h: HostReadings)
    ensures CheckHealthStatus(SystemInformation(h)) <==> MemoryHealthy(h) && DiskHealthy(h)
  {
  }

  /** The four combinations of memory and disk status: only healthy with healthy is healthy, and a disk
      section without a status is never healthy. */
  lemma VerdictTable(other: Details, memory: Value, disk: Value)
    ensures var sys := SystemInfo(map["status" := memory], other, other, other, map["status" := disk]);
            CheckHealthStatus(sys) <==> memory == Text("healthy") && disk == Text("healthy")
    ensures !CheckHealthStatus(SystemInfo(map["status" := memory], other, other, other, map[]))
  {
  }

  datatype HealthBody = HealthBody(
    service: string, timestamp: string, status: string, message: string,
    system: Option<SystemInfo>, error: Option<string>)

  datatype HealthResponse = HealthResponse(body: HealthBody, httpStatus: int)

  /** `getHealth`. A failure while reading the host yields the `Health check failed` report with the
      error text and no system block; otherwise the report is UP with HTTP 200 exactly when memory and
      disk are healthy, and DOWN with HTTP 503 otherwise. */
  function GetHealth(timestamp: string, gathered: Result<HostReadings, string>): (resp: HealthResponse)
    ensures resp.body.service == ServiceName && resp.body.timestamp == timestamp
    ensures resp.body.status == "UP" <==>
              gathered.Success? && MemoryHealthy(gathered.value) && DiskHealthy(gathered.value)
    ensures resp.body.status != "UP" ==> resp.body.status == "DOWN"
    ensures resp.httpStatus == if resp.body.status == "UP" then 200 else 503
    ensures gathered.Failure? ==>
              && resp.body.message == "Health check failed"
              && resp.body.error == Some(gathered.error)
              && resp.body.system.None?
    ensures gathered.Success? ==>
              && resp.body.system == Some(SystemInformation(gathered.value))
              && resp.body.error.None?
              && resp.body.message == if resp.body.status == "UP" then "Service is running successfully"
                                      else "Service is experiencing issues"
  {
    match gathered
    case Failure(message) =>
      HealthResponse(HealthBody(ServiceName, timestamp, "DOWN", "Health check failed", None, Some(message)), 503)
    case Success(h) =>
      var systemInfo := SystemInformation(h);
      var isHealthy := CheckHealthStatus(systemInfo);
      GatheredVerdict(h);
      HealthResponse(
        HealthBody(ServiceName, timestamp,
                   if isHealthy then "UP" else "DOWN",
                   if isHealthy then "Service is running successfully" else "Service is experiencing issues",
                   Some(systemInfo), None),
        if isHealthy then 200 else 503)
  }
}
