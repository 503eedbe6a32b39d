/** The actuator health indicator: the same detail sections as the `/health` endpoint, but without
    status entries, and UP whenever the details can be gathered. */
module SystemHealthIndicator {
  import opened Wrappers
  import opened JavaNumbers
  import opened Decimal
  import opened Metrics
  import HealthController

  /** The indicator's own copy of `formatBytes`. */
  function FormatBytes(bytes: Long): ByteText {
    if bytes < 1024 then ByteText(Whole(IntToString(bytes)), " B")
    else
      var exp := UnitExponent(bytes);
      LongUnitExponentInRange(bytes);
      ByteText(Scaled(bytes, exp), [' ', UnitLetters[exp - 1], 'B'])
  }

  /** The indicator's own copy of `formatUptime`. */
  function FormatUptime(uptimeMillis: Long): string {
    var seconds := Quot(uptimeMillis, 1000);
    var minutes := Quot(seconds, 60);
    var hours := Quot(minutes, 60);
    var days := Quot(hours, 24);
    if days > 0 then
      IntToString(days) + "d " + IntToString(Rem(hours, 24)) + "h " +
      IntToString(Rem(minutes, 60)) + "m " + IntToString(Rem(seconds, 60)) + "s"
    else if hours > 0 then
      IntToString(hours) + "h " + IntToString(Rem(minutes, 60)) + "m " + IntToString(Rem(seconds, 60)) + "s"
    else if minutes > 0 then
      IntToString(minutes) + "m " + IntToString(Rem(seconds, 60)) + "s"
    else
      IntToString(seconds) + "s"
  }

  /** Both copies of the helpers agree on every input, so the two components show the same sizes and
      the same uptime for the same readings. */
  lemma HelpersAgree(bytes: Long, uptimeMillis: Long)
    ensures FormatBytes(bytes) == HealthController.FormatBytes(bytes)
    ensures FormatUptime(uptimeMillis) == HealthController.FormatUptime(uptimeMillis)
  {
  }

  /** The memory section: sizes and a percentage, and no status entry. */
  function MemoryInformation(maxMemory: Long, totalMemory: Long, freeMemory: Long): (info: Details)
    ensures info.Keys == {"max", "total", "free", "used", "usagePercent"}
    ensures info["usagePercent"] == Percent(LongSub(totalMemory, freeMemory), totalMemory)
  {
    var usedMemory := LongSub(totalMemory, freeMemory);
    map[
      "max" := Size(FormatBytes(maxMemory)),
      "total" := Size(FormatBytes(totalMemory)),
      "free" := Size(FormatBytes(freeMemory)),
      "used" := Size(FormatBytes(usedMemory)),
      "usagePercent" := Percent(usedMemory, totalMemory)
    ]
  }

  function JvmInformation(h: HostReadings): (info: Details)
    ensures info.Keys == {"name", "vendor", "version", "uptime"}
  {
    map[
      "name" := Text(h.vmName),
      "vendor" := Text(h.vmVendor),
      "version" := Text(h.javaVersion),
      "uptime" := Text(FormatUptime(h.uptimeMillis))
    ]
  }

  /** Unlike the endpoint, the indicator prints the load average with two decimals even when negative. */
  function OperatingSystemInformation(h: HostReadings): (info: Details)
    ensures info.Keys == {"name", "version", "architecture", "systemLoadAverage"}
    ensures info["systemLoadAverage"] == TwoDecimals(h.loadAverage)
  {
    map[
      "name" := Text(h.osName),
      "version" := Text(h.osVersion),
      "architecture" := Text(h.osArch),
      "systemLoadAverage" := TwoDecimals(h.loadAverage)
    ]
  }

  /** The disk section: the percentage only for a positive total, and never a status. */
  function DiskInformation(totalSpace: Long, freeSpace: Long, usableSpace: Long): (info: Details)
    ensures {"total", "free", "usable", "used"} <= info.Keys
    ensures "usagePercent" in info <==> totalSpace > 0
    ensures "status" !in info
  {
    var usedSpace := LongSub(totalSpace, freeSpace);
    var sizes := map[
      "total" := Size(FormatBytes(totalSpace)),
      "free" := Size(FormatBytes(freeSpace)),
      "usable" := Size(FormatBytes(usableSpace)),
      "used" := Size(FormatBytes(usedSpace))
    ];
    if totalSpace > 0 then sizes["usagePercent" := Percent(usedSpace, totalSpace)] else sizes
  }

  /** The indicator's details: the same five sections as the endpoint's, none of them with a status. */
  function Details(h: HostReadings): (sys: SystemInfo)
    ensures sys.memory.Keys == {"max", "total", "free", "used", "usagePercent"}
    ensures sys.jvm.Keys == {"name", "vendor", "version", "uptime"}
    ensures sys.os.Keys == {"name", "version", "architecture", "systemLoadAverage"}
    ensures sys.cpu == HealthController.SystemInformation(h).cpu
    ensures "status" !in sys.memory && "status" !in sys.disk
    ensures "usagePercent" in sys.disk <==> h.diskTotal > 0
  {
    SystemInfo(
      MemoryInformation(h.maxMemory, h.totalMemory, h.freeMemory),
      JvmInformation(h),
      OperatingSystemInformation(h),
      // the cpu section is built exactly as the endpoint builds it
      HealthController.CpuInformation(h),
      DiskInformation(h.diskTotal, h.diskFree, h.diskUsable))
  }

  /** For the same readings the indicator shows what the endpoint shows, less the status entries: the
      same jvm and cpu sections, and the same size and percentage entries for memory and disk. */
  lemma SectionsAgree(h: HostReadings)
    ensures Details(h).jvm == HealthController.SystemInformation(h).jvm
    ensures Details(h).cpu == HealthController.SystemInformation(h).cpu
    ensures forall k :: k in Details(h).memory ==>
              k in HealthController.SystemInformation(h).memory &&
              Details(h).memory[k] == HealthController.SystemInformation(h).memory[k]
    ensures forall k :: k in Details(h).disk ==>
              k in HealthController.SystemInformation(h).disk &&
              Details(h).disk[k] == HealthController.SystemInformation(h).disk[k]
  {
    HelpersAgree(0, h.uptimeMillis);
    MemorySectionAgrees(h.maxMemory, h.totalMemory, h.freeMemory);
    DiskSectionAgrees(h.diskTotal, h.diskFree, h.diskUsable);
  }

  lemma MemorySectionAgrees(maxMemory: Long, totalMemory: Long, freeMemory: Long)
    ensures var mine := MemoryInformation(maxMemory, totalMemory, freeMemory);
            var theirs := HealthController.MemoryInformation(maxMemory, totalMemory, freeMemory);
            forall k :: k in mine ==> k in theirs && mine[k] == theirs[k]
  {
    var used := LongSub(totalMemory, freeMemory);
    HelpersAgree(maxMemory, 0);
    HelpersAgree(totalMemory, 0);
    HelpersAgree(freeMemory, 0);
    HelpersAgree(used, 0);
  }

  lemma DiskSectionAgrees(totalSpace: Long, freeSpace: Long, usableSpace: Long)
    ensures var mine := DiskInformation(totalSpace, freeSpace, usableSpace);
            var theirs := HealthController.DiskInformation(totalSpace, freeSpace, usableSpace);
            forall k :: k in mine ==> k in theirs && mine[k] == theirs[k]
  {
    var used := LongSub(totalSpace, freeSpace);
    HelpersAgree(totalSpace, 0);
    HelpersAgree(freeSpace, 0);
    HelpersAgree(usableSpace, 0);
    HelpersAgree(used, 0);
  }

  /** The indicator's verdict: UP with the details, or DOWN with the exception that stopped gathering. */
  datatype Health = Up(details: SystemInfo) | Down(exception: string)

  /** `health()`: UP exactly when the details were gathered, whatever the memory and disk usage. */
  function CheckHealth(gathered: Result<HostReadings, string>): (health: Health)
    ensures health.Up? <==> gathered.Success?
    ensures gathered.Success? ==> health == Up(Details(gathered.value))
    ensures gathered.Failure? ==> health.exception == gathered.error
  {
    match gathered
    case Success(h) => Up(Details(h))
    case Failure(message) => Down(message)
  }

  /** The indicator and the endpoint can disagree: readings with memory exhausted are UP here and DOWN
      at the endpoint. */
  lemma IndicatorIgnoresUsage(h: HostReadings, timestamp: string)
    requires h.totalMemory > 0 && h.freeMemory == 0
    ensures CheckHealth(Success(h)).Up?
    ensures HealthController.GetHealth(timestamp, Success(h)).body.status == "DOWN"
    ensures HealthController.GetHealth(timestamp, Success(h)).httpStatus == 503
  {
  }

  /** The indicator's sections carry no status, so the endpoint's verdict over them is always unhealthy. */
  lemma IndicatorDetailsHaveNoStatus(h: HostReadings)
    ensures "status" !in Details(h).memory && "status" !in Details(h).disk
    ensures !HealthController.CheckHealthStatus(Details(h))
  {
  }
}
