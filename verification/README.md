# DemoService core in Dafny

A Dafny model of the two pieces of sequential logic in the DemoService Spring application:

- the **user registry** (`UserService` over the `User` record): an ordered list of users and a
  monotonic id counter, with create, read, update and delete;
- the **health reporting** of `HealthController` (the `/health` endpoint) and of the actuator
  `SystemHealthIndicator`: byte and uptime formatting, the memory (90 %) and disk (95 %) thresholds,
  the disk section's dependence on a positive total, the overall UP/DOWN verdict and the response
  that carries it.

Host readings (heap sizes, disk sizes, uptime, system properties, load average, processor count)
arrive as one `HostReadings` record; a failure while reading them is a `Failure(message)`. The
registry's mutable list and counter are a `Registry` value that each operation takes and returns.

Modules, one per source component plus shared pieces:

| file | module | models |
|---|---|---|
| `wrappers.dfy` | `Wrappers` | `Optional`/`null` and thrown exceptions |
| `java_numbers.dfy` | `JavaNumbers` | `long`, its wrapping subtraction, truncating `/` and `%` |
| `decimal.dfy` | `Decimal` | `Long.toString` / `%d` rendering and its parser |
| `user.dfy` | `UserModel` | `User`, its constructors, setters and validation rules |
| `user_service.dfy` | `UserService` | the registry and its operations |
| `metrics.dfy` | `Metrics` | host readings, detail values, the byte-unit exponent, percent comparison |
| `uptime_text.dfy` | `UptimeText` | the field layout of uptime strings and the parser that reads them |
| `health_controller.dfy` | `HealthController` | the `/health` endpoint |
| `system_health_indicator.dfy` | `SystemHealthIndicator` | the actuator health indicator |

## Model

| member | source | states |
|---|---|---|
| `UserModel.Unset` | src/main/java/com/example/demoservice/model/User.java:25-26 | The no-argument constructor leaves the id, name and email all absent (null). |
| `UserModel.SettersFrame` | src/main/java/com/example/demoservice/model/User.java:38-56 | Each setter changes its own field only and the getter returns what was set; name and email setters commute; setting the same id twice is setting it once. |
| `UserModel.ValidityIgnoresId` | src/main/java/com/example/demoservice/model/User.java:13-23 | The name and email constraints do not involve the id, so assigning an id keeps a validated user valid. |
| `UserModel.NameRuleExamples` | src/main/java/com/example/demoservice/model/User.java:16-18 | The name rule at its edges: 2 and 50 characters pass, 1 and 51 fail, blank and missing names fail. |
| `UserService.Seeded` | src/main/java/com/example/demoservice/service/UserService.java:14-21 | Construction yields exactly John Doe with id 1 then Jane Smith with id 2, a counter at 3, and a registry that satisfies the invariant. |
| `UserService.Create` | src/main/java/com/example/demoservice/service/UserService.java:33-37 | The pre-call counter becomes the id, the user is appended after the unchanged earlier users, the counter grows by exactly one, and the invariant (ids assigned, distinct, in `[1, counter)`) is kept. |
| `UserService.AllUsers` | src/main/java/com/example/demoservice/service/UserService.java:23-25 | Returns exactly the stored users in insertion order; in a valid registry every listed user has an id already issued by the counter and no id is listed twice. |
| `UserService.FindIndex` | src/main/java/com/example/demoservice/service/UserService.java:27-31 | Finds the first position holding the id, and reports none exactly when no user has it. |
| `UserService.GetById` | src/main/java/com/example/demoservice/service/UserService.java:27-31 | Returns the first user with that id, or empty exactly when no user has it. |
| `UserService.Update` | src/main/java/com/example/demoservice/service/UserService.java:39-48 | With the id present, the payload with its id forced to the path id takes the place of the first user holding the id and is returned; every other position, length and counter are unchanged and the invariant is kept; with the id absent, nothing changes and empty is returned. |
| `UserService.UpdateUser` | src/main/java/com/example/demoservice/service/UserService.java:39-48 | The index loop of the source computes exactly the reference update. |
| `UserService.RemoveId` | src/main/java/com/example/demoservice/service/UserService.java:50-52 | Removal keeps exactly the users whose id differs and leaves a list without the id untouched. |
| `UserService.Delete` | src/main/java/com/example/demoservice/service/UserService.java:50-52 | Answers true exactly when some user had the id; afterwards none has it, the survivors are exactly the other users, the counter is unchanged, and a false answer changes nothing. |
| `UserService.RemoveIdConcat` | src/main/java/com/example/demoservice/service/UserService.java:50-52 | Survivors keep their relative order: removal distributes over concatenation. |
| `UserService.RemoveIdLength` | src/main/java/com/example/demoservice/service/UserService.java:50-52 | With distinct ids a successful delete removes exactly one user. |
| `UserService.DeleteProperties` | src/main/java/com/example/demoservice/service/UserService.java:50-52 | Delete keeps the invariant, shrinks the list by one on success, and a second delete of the same id answers false and changes nothing. |
| `UserService.Apply` | src/main/java/com/example/demoservice/service/UserService.java:33-52 | Every mutating operation keeps the invariant; only create moves the counter, by one. |
| `UserService.CreatedIdsIncrease` | src/main/java/com/example/demoservice/service/UserService.java:33-52 | Over any sequence of creates, updates and deletes, the created ids strictly increase, start at the counter (above every earlier id) and stay below the final counter: ids are never reused. |
| `UserService.CreatesAppendInOrder` | src/main/java/com/example/demoservice/service/UserService.java:23-37 | After a series of creates, the list is the earlier list followed by the new users in creation order with consecutive ids. |
| `UserService.ApplyKeepsUsersValid` | src/main/java/com/example/demoservice/service/UserService.java:33-52 | When creates and updates receive validated payloads, every stored user stays valid. |
| `UserService.SeededScenario` | src/main/java/com/example/demoservice/service/UserService.java:17-52 | On a fresh registry: a create gets id 3, updating id 1 forces id 1, updating 999 changes nothing, deleting 1 answers true and then false. |
| `JavaNumbers.LongSub` | src/main/java/com/example/demoservice/controller/HealthController.java:101 | `total - free` on `long` is the exact difference when it fits, and congruent to it modulo 2^64 always. |
| `JavaNumbers.QuotRemIdentity` | src/main/java/com/example/demoservice/controller/HealthController.java:200-213 | Java's truncating `/` and `%` satisfy `(a/b)*b + a%b == a` with a remainder of the dividend's sign, and agree with Euclidean division on non-negative values. |
| `Decimal.NatToString` | src/main/java/com/example/demoservice/controller/HealthController.java:193 | The decimal numeral is non-empty, all digits, and has no leading zero. |
| `Decimal.IntToStringRoundTrip` | src/main/java/com/example/demoservice/controller/HealthController.java:193 | Parsing the rendered `long` gives the value back, negative values included. |
| `Decimal.IntToStringInjective` | src/main/java/com/example/demoservice/controller/HealthController.java:193 | Different values render differently. |
| `Metrics.UnitExponent` | src/main/java/com/example/demoservice/controller/HealthController.java:194 | The exponent `e` satisfies `1024^e <= b < 1024^(e+1)`. |
| `Metrics.UnitExponentIsLargest` | src/main/java/com/example/demoservice/controller/HealthController.java:194 | The exponent is the largest `e` with `1024^e <= b`. |
| `Metrics.UnitExponentUnique` | src/main/java/com/example/demoservice/controller/HealthController.java:194 | Any `e` with `1024^e <= b < 1024^(e+1)` is the exponent. |
| `Metrics.LongUnitExponentInRange` | src/main/java/com/example/demoservice/controller/HealthController.java:194-195 | For a `long` of at least 1024 the exponent lies in 1..6, so the index into `"KMGTPE"` is always in range. |
| `Metrics.BelowPercentIsQuotientTest` | src/main/java/com/example/demoservice/controller/HealthController.java:108-110 | For a non-zero total, the integer comparison used by the model is exactly the comparison of `used * 100 / total` with the threshold. |
| `HealthController.FormatBytes` | src/main/java/com/example/demoservice/controller/HealthController.java:192-197 | Below 1024 the text is the exact count (it parses back to the input) and `" B"`; from 1024 the count is scaled by the power of 1024 it falls in, the exponent is 1..6 and the suffix is `" "`, that power's letter from `"KMGTPE"` and `"B"`. |
| `HealthController.FormatBytesExamples` | src/main/java/com/example/demoservice/controller/HealthController.java:192-197 | 512 renders as `512 B`, 1536 is scaled to KB, 2^30 to GB. |
| `HealthController.FormatUptime` | src/main/java/com/example/demoservice/controller/HealthController.java:199-214 | The text always ends with the seconds field. |
| `HealthController.FormatUptimeUnderAMinuteIsSeconds` | src/main/java/com/example/demoservice/controller/HealthController.java:199-214 | Below one minute the text is just the whole seconds followed by `s`. |
| `HealthController.UptimeFields` | src/main/java/com/example/demoservice/controller/HealthController.java:199-214 | For a non-negative uptime the shown fields recombine to the whole seconds, the leading field is non-zero unless it is alone and is the largest non-zero unit (below 24 hours or 60 minutes or seconds unless it is days), and the later fields are below 24 hours, 60 minutes, 60 seconds. |
| `HealthController.FormatUptimeIsRenderedFields` | src/main/java/com/example/demoservice/controller/HealthController.java:199-214 | The four-way `String.format` choice produces exactly those fields, as `<n><unit>` separated by single spaces. |
| `HealthController.UptimeRoundTrip` | src/main/java/com/example/demoservice/controller/HealthController.java:199-214 | Parsing the uptime string gives back the uptime's whole seconds. |
| `UptimeText.ParseRenderFields` | src/main/java/com/example/demoservice/controller/HealthController.java:205-213 | Any space-separated list of amount-and-unit fields parses back to itself. |
| `HealthController.FormatUptimeUnderAMinute` | src/main/java/com/example/demoservice/controller/HealthController.java:199-214 | 0 ms and 999 ms render as `0s`; a negative reading of -61000 ms renders as `-61s`. |
| `HealthController.FormatUptimeMinutes` | src/main/java/com/example/demoservice/controller/HealthController.java:199-214 | 61000 ms renders as `1m 1s`. |
| `HealthController.FormatUptimeDays` | src/main/java/com/example/demoservice/controller/HealthController.java:199-214 | 90000000 ms renders as `1d 1h 0m 0s`. |
| `HealthController.MemoryInformation` | src/main/java/com/example/demoservice/controller/HealthController.java:94-113 | The memory section has exactly max, total, free, used, usagePercent and status; the status is `healthy` exactly when usage is below 90 percent and `critical` otherwise. |
| `HealthController.MemoryThresholdEdge` | src/main/java/com/example/demoservice/controller/HealthController.java:101-110 | At a positive total, memory is healthy iff `used * 100 < 90 * total`; exactly 90 percent is critical. |
| `HealthController.JvmInformation` | src/main/java/com/example/demoservice/controller/HealthController.java:115-124 | The jvm section has name, vendor, version and uptime, the uptime being the formatted JVM uptime. |
| `HealthController.OperatingSystemInformation` | src/main/java/com/example/demoservice/controller/HealthController.java:126-138 | The os section has name, version, architecture and load average; the load average is the text `N/A` when the host reports a negative value and the two-decimal number otherwise. |
| `HealthController.CpuInformation` | src/main/java/com/example/demoservice/controller/HealthController.java:140-147 | The cpu section has the single key availableProcessors, holding the host's processor count; the indicator's identical section (src/main/java/com/example/demoservice/health/SystemHealthIndicator.java:87-94) is this same function. |
| `HealthController.DiskInformation` | src/main/java/com/example/demoservice/controller/HealthController.java:149-170 | The disk section always has total, free, usable and used; usagePercent and status are present exactly when the total is positive; the status is then `healthy` exactly when usage is below 95 percent and `critical` otherwise. |
| `HealthController.SystemInformation` | src/main/java/com/example/demoservice/controller/HealthController.java:73-92 | The system block has the memory section with its six keys and a status, the jvm, os and cpu sections with their keys, and a disk section that has a status exactly when the disk total is positive. |
| `HealthController.CheckHealthStatus` | src/main/java/com/example/demoservice/controller/HealthController.java:172-190 | Healthy only if both the memory and the disk section hold a status and both are `healthy`; a missing status counts as unhealthy. |
| `HealthController.GatheredVerdict` | src/main/java/com/example/demoservice/controller/HealthController.java:101-185 | Over gathered readings, the verdict is healthy exactly when memory usage is below 90 percent, the disk total is positive and disk usage is below 95 percent. |
| `HealthController.VerdictTable` | src/main/java/com/example/demoservice/controller/HealthController.java:184-185 | Of the four status combinations only healthy with healthy is healthy, and a disk section without status is never healthy. |
| `HealthController.GetHealth` | src/main/java/com/example/demoservice/controller/HealthController.java:38-71 | The report always names DemoService and the timestamp; it is UP with HTTP 200 and the success message exactly when readings were gathered and memory and disk are healthy, else DOWN with HTTP 503; a gathering failure gives `Health check failed`, the error text and no system block. |
| `SystemHealthIndicator.HelpersAgree` | src/main/java/com/example/demoservice/health/SystemHealthIndicator.java:116-138 | The indicator's copies of formatBytes and formatUptime agree with the endpoint's on every input. |
| `SystemHealthIndicator.MemoryInformation` | src/main/java/com/example/demoservice/health/SystemHealthIndicator.java:46-62 | The memory section has exactly max, total, free, used and usagePercent, with no status. |
| `SystemHealthIndicator.JvmInformation` | src/main/java/com/example/demoservice/health/SystemHealthIndicator.java:64-73 | The jvm section has name, vendor, version and uptime. |
| `SystemHealthIndicator.OperatingSystemInformation` | src/main/java/com/example/demoservice/health/SystemHealthIndicator.java:75-85 | The load average is always printed with two decimals, with no `N/A` case. |
| `SystemHealthIndicator.DiskInformation` | src/main/java/com/example/demoservice/health/SystemHealthIndicator.java:96-114 | The disk section gains usagePercent exactly when the total is positive and never carries a status. |
| `SystemHealthIndicator.Details` | src/main/java/com/example/demoservice/health/SystemHealthIndicator.java:19-34 | The indicator's details have the same memory (without status), jvm, os and cpu keys, the endpoint's cpu section, no status in memory or disk, and a disk percentage exactly when the disk total is positive. |
| `SystemHealthIndicator.SectionsAgree` | src/main/java/com/example/demoservice/health/SystemHealthIndicator.java:19-34 | For the same readings the indicator's jvm and cpu sections equal the endpoint's, and every memory and disk entry the indicator shows is an entry of the endpoint's section with the same value. |
| `SystemHealthIndicator.CheckHealth` | src/main/java/com/example/demoservice/health/SystemHealthIndicator.java:17-44 | UP exactly when the details were gathered, carrying exactly the indicator's details of those readings; a failure gives DOWN with the exception's message. |
| `SystemHealthIndicator.IndicatorIgnoresUsage` | src/main/java/com/example/demoservice/health/SystemHealthIndicator.java:17-44 | With memory fully used the indicator is still UP while the endpoint reports DOWN with HTTP 503. |
| `SystemHealthIndicator.IndicatorDetailsHaveNoStatus` | src/main/java/com/example/demoservice/health/SystemHealthIndicator.java:46-114 | The indicator's memory and disk sections carry no status, so the endpoint's verdict over them would be unhealthy. |

## Left out

- Reading the host: `Runtime`, `ManagementFactory`, `File("/")` and `System.getProperty` are replaced by the `HostReadings` parameter; any exception while reading them is the `Failure` case of its `Result`. A null system property or a null exception message is not modelled (both are strings).
- Timestamps: `LocalDateTime.now()` is the `timestamp` parameter; the failure path's second call to the clock is given the same value.
- Two-decimal rendering: the `%.2f` numbers of scaled byte counts, percentages and the load average stay abstract (`Scaled`, `Percent`, `TwoDecimals`), as does the locale's decimal separator and digit set (ASCII digits are assumed for `%d`).
- HealthController.FormatBytes: the exponent is the exact largest `e` with `1024^e <= b`; the source computes it as the double quotient `Math.log(b) / Math.log(1024)`, which may round across an integer for counts adjacent to a power of 1024, so the model can pick a smaller exponent there than the double computation does.
- HealthController.MemoryInformation: the percent comparison is exact (`used * 100 < 90 * total` for a positive total, with the IEEE results for a zero total); rounding of the double quotient, which only matters for totals above about 10^14 bytes, is not modelled. The same holds for HealthController.DiskInformation at 95 percent.
- The load average is a `real`; a NaN reading is not modelled.
- Spring wiring: `ResponseEntity`, routes, `UserController.java` and its `@Valid` enforcement, and `SwaggerConfig.java`. Validity appears only as the `ValidUser` predicate and the `ApplyKeepsUsersValid` lemma.
- UserModel.ValidEmail: the `@Email` address syntax belongs to the validation library, so it is a parameter; `@Size` counts UTF-16 code units in Java, the model counts characters.
- Concurrency: the registry is modelled sequentially; no claim is made about the unsynchronized `ArrayList` under parallel requests.
- UserService.Create: the counter is an unbounded integer; the `AtomicLong` wrap-around after 2^63 creations is not modelled.
- UserService.GetById, UserService.Update and UserService.Delete require every stored user to have an id; the null-pointer exception a stored user without an id would raise is not modelled (every reachable registry satisfies the requirement, by `Seeded`, `Apply` and `Run`).
- Object aliasing: the source stores and returns the caller's `User` object, so a later mutation through that reference would change the stored record; users are values here.
- `getAllUsers` returning a copy: values cannot be shared in the model, so the copy is the list itself.
- The Python FastAPI application and its tests, which have no decision logic.
