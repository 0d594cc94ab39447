# usb-detector in Dafny

A model of the core of usb-detector, a Java library that watches for removable drives and
reports the USB port each one is plugged into. The model has three groups of parts:

- **Polling and dispatch.** `PollingJob` is a background poller. On every tick it lists the
  mounted roots, compares them with the previous listing, and sends CONNECTED and DISCONNECTED
  path events to its listeners. `UsbDetector` registers one such listener. For each path event
  it tells its own listeners NEW_DEVICE, CONNECTED or REMOVED. The events are surrounded by
  two detector-state notifications. For a new drive it asks the platform backend for the port,
  retrying up to six times.
- **Port backends.** `OSXPortDetector` searches the device tree printed by `system_profiler`,
  looking up mount points with `diskutil`. `WindowsPortDetector` combines two `wmic`
  association listings with a registry scan done by `WindowsReqistry`.
- **Platform choice.** `PortDetector` picks the backend once, from the OS name.

Modules, one per source file, plus three shared ones (`Base`, `JavaStrings`, `PathOrder`):

| module | file | models |
|---|---|---|
| `Base` | base.dfy | nullable references, results with exceptions, the three outcomes a port lookup can have, listener identity |
| `JavaStrings` | java_strings.dfy | `trim`, `isBlank`, `contains`, `indexOf`, `toLowerCase` and `String.split` as Java defines them (trailing empty fields dropped, the input itself when nothing matches, `.` in the patterns used matching any character but a line terminator) |
| `PathOrder` | path_order.dfy | the order `Arrays.sort` puts `File`s in, and the sort itself |
| `Polling` | polling_job.dfy | `PollingJob` as a class with `listeners` and `lastRoots` fields; one `run` iteration is `Tick` |
| `Detector` | usb_detector.dfy | `UsbDetector` as a class over a `PollingJob`; `getPort` as a loop; the path handler |
| `MacPorts` | macos_port_detector.dfy | the property-list tree as a datatype, `traverseItems`, `findMountPointByDevice`, `findDeviceLocation`, the exception wrapping |
| `WindowsRegistry` | windows_registry.dfy | `readRegistry`, `readLocation` |
| `WindowsPorts` | windows_port_detector.dfy | the two `wmic` parsers as a loop with a running header id, the lookup chain, the registry scan |
| `Platform` | platform.dfy | the backend choice; how each backend's failures reach `getPort` |

The model makes these choices:

- **Oracles.**
  - `ExecCommand.exec` is a `Shell`, a function from the exact command line to its output. It
    gives `None` where the Java returns null.
  - `PropertyListParser.parse` is a `Parser`, a function from text to an optional tree.
  - The port resolver that `getPort` calls is a function from the attempt number to an `Outcome`.
  - Listeners are numbers, compared the way an `ArrayList` compares references.
- **Outcomes.** An `Outcome` is a port string, a `PortDetectionException`, or an unchecked
  exception. The macOS backend turns every failure into `IllegalStateException`, and a
  `NullPointerException` or `ClassCastException` can also arise. All of these are unchecked, so
  `getPort` never retries them. The Windows backend turns every failure into
  `PortDetectionException`. An unsupported OS leaves the instance null, and the first call
  fails with an unchecked `NullPointerException`.
- **Laziness.** The Windows registry scan is a `flatMap`/`filter`/`findFirst` pipeline. It is
  modelled lazily, as Java 10 and later run it: listings are read child by child, then grandchild
  by grandchild, and reading stops at the first match. So a listing that cannot be read after
  the match makes no difference. `WindowsPorts.ScanAsEager` proves that the lazy scan agrees
  with a plain eager description whenever every listing can be read.

## Model

| member | source | states |
|---|---|---|
| PathOrder.Sort | src/main/java/net/util/usb/PollingJob.java:53 | the sorted roots are in ascending path order and are a permutation of the listing |
| PathOrder.SortedUnique | src/main/java/net/util/usb/PollingJob.java:53-55 | two sorted sequences with the same elements are equal, so comparing sorted arrays compares the sets of mounts |
| PathOrder.SortCanonical | src/main/java/net/util/usb/PollingJob.java:53-55 | two listings of the same roots in any order sort to the same array |
| Polling.Missing | src/main/java/net/util/usb/PollingJob.java:76-83 | `removeAll` keeps exactly the paths of one listing that are absent from the other, each once |
| Polling.DiffEvents | src/main/java/net/util/usb/PollingJob.java:75-85 | every event is a real change: CONNECTED only for a root absent from the baseline, DISCONNECTED only for a baseline root now absent |
| Polling.DiffCount | src/main/java/net/util/usb/PollingJob.java:75-85 | CONNECTED p occurs once when p is new and not otherwise; DISCONNECTED p occurs once when p is gone and not otherwise; a path present both times gives nothing |
| Polling.NoChangeNoEvents | src/main/java/net/util/usb/PollingJob.java:55-59 | when the roots are the same as the baseline, detectDevice has nothing to announce |
| Polling.ConnectedFirst | src/main/java/net/util/usb/PollingJob.java:78-84 | in the event list, every CONNECTED comes before every DISCONNECTED |
| Polling.FanoutCount | src/main/java/net/util/usb/PollingJob.java:78 | with distinct listeners, each listener gets each event as often as the event occurs, and nobody else gets it |
| Polling.BroadcastCount | src/main/java/net/util/usb/PollingJob.java:78 | with distinct listeners, one `forEach` pass gives each registered listener the event once and nobody else anything |
| Polling.FanoutAppend | src/main/java/net/util/usb/PollingJob.java:78-84 | notifying two event lists one after the other is the same as notifying their concatenation |
| Polling.DetectDeviceDelivers | src/main/java/net/util/usb/PollingJob.java:75-85 | each registered listener gets each changed path's event exactly once, and gets nothing else |
| Polling.DetectDeviceOrder | src/main/java/net/util/usb/PollingJob.java:78-84 | every CONNECTED delivery of a call comes before every DISCONNECTED delivery |
| Polling.ReplayAfterReset | src/main/java/net/util/usb/PollingJob.java:35-37 | once the baseline is empty, the next detection gives every listener one CONNECTED for each current root and no DISCONNECTED |
| Polling.PollingJob.ResetRoots | src/main/java/net/util/usb/PollingJob.java:35-37 | the baseline becomes empty and nothing else changes |
| Polling.PollingJob.ContainsEventListener | src/main/java/net/util/usb/PollingJob.java:97-99 | true exactly when the listener is registered |
| Polling.PollingJob.AddEventListener | src/main/java/net/util/usb/PollingJob.java:104-112 | a duplicate gives false and changes nothing; otherwise the listener is appended and the result is true; afterwards it is contained |
| Polling.PollingJob.RemoveEventListener | src/main/java/net/util/usb/PollingJob.java:114-118 | its occurrence is removed, the rest keep their order, and it is no longer contained |
| Polling.PollingJob.DetectDevice | src/main/java/net/util/usb/PollingJob.java:75-85 | the deliveries are the CONNECTED events, then the DISCONNECTED events, each sent to every listener in order |
| Polling.PollingJob.Tick | src/main/java/net/util/usb/PollingJob.java:45-61 | no listeners: nothing fires and the baseline empties. Null roots: nothing fires and the baseline is kept. Otherwise: the baseline becomes the sorted roots and the deliveries are detectDevice's for the old baseline |
| Polling.PollingJob.constructor | src/main/java/net/util/usb/PollingJob.java:27-30 | a new poller has no listeners and an empty baseline |
| Polling.PollingJob.Notify | src/main/java/net/util/usb/PollingJob.java:78 | the pass delivers the event to each listener in registration order, one delivery each, which is what BroadcastCount counts |
| Polling.PollingJob.NotifyEach | src/main/java/net/util/usb/PollingJob.java:78 | the events are announced one after the other, each to every listener, which is what FanoutCount counts |
| Detector.GetPort | src/main/java/net/util/usb/UsbDetector.java:85-98 | at most six resolver calls; every call before the last threw PortDetectionException; the result is the last call's string (even ""), an escaping unchecked exception, or null after six failures |
| Detector.PortLookupUnique | src/main/java/net/util/usb/UsbDetector.java:85-98 | the resolver's behaviour decides getPort's result and its number of calls |
| Detector.RetryThenSucceed | src/main/java/net/util/usb/UsbDetector.java:87-93 | k ≤ 5 failures followed by a port give that port after k + 1 calls |
| Detector.NullExactlyOnExhaustion | src/main/java/net/util/usb/UsbDetector.java:87-98 | getPort gives null exactly when all six attempts throw PortDetectionException |
| Detector.NoRetryWithoutDetectionError | src/main/java/net/util/usb/UsbDetector.java:92-95 | a resolver that never throws PortDetectionException is called once, and getPort does not give null |
| Detector.Dispatch | src/main/java/net/util/usb/UsbDetector.java:43-64 | state callbacks go only to state listeners, and NEW_DEVICE_FOUND to all of them comes first; NEW_DEVICE_RECOGNIZED is sent only when no exception escaped; device events go only to USB listeners and are NEW_DEVICE or CONNECTED with the found non-empty port for a connection, REMOVED for a removal |
| Detector.DispatchCount | src/main/java/net/util/usb/UsbDetector.java:43-64 | the callbacks of a path event are NEW_DEVICE_FOUND to every state listener, the device events, and NEW_DEVICE_RECOGNIZED unless an exception escaped |
| Detector.ConnectionDeviceEvents | src/main/java/net/util/usb/UsbDetector.java:50-57 | for a CONNECTED path, each listener gets NEW_DEVICE with a null port once, and CONNECTED with the port once exactly when the port is non-null and non-empty; nothing else is sent |
| Detector.ConnectionEvents | src/main/java/net/util/usb/UsbDetector.java:50-57 | for a CONNECTED path, each listener gets one NEW_DEVICE, at most one CONNECTED (only with the resolved non-empty port), and no REMOVED |
| Detector.RemovalEvents | src/main/java/net/util/usb/UsbDetector.java:58-60 | for a DISCONNECTED path, each listener gets exactly one REMOVED with a null port and no other device event |
| Detector.PhasesBracket | src/main/java/net/util/usb/UsbDetector.java:44-63 | NEW_DEVICE_FOUND to all state listeners comes first and NEW_DEVICE_RECOGNIZED to all of them comes last, so every device event falls between them, disconnects included |
| Detector.FoundOnce | src/main/java/net/util/usb/UsbDetector.java:44 | each state listener gets NEW_DEVICE_FOUND exactly once per path event |
| Detector.RecognizedOnce | src/main/java/net/util/usb/UsbDetector.java:63 | each state listener gets NEW_DEVICE_RECOGNIZED once, or not at all when an unchecked exception left getPort |
| Detector.UsbDetector.OnPathEvent | src/main/java/net/util/usb/UsbDetector.java:43-64 | the callbacks made are Dispatch of the current listener lists; a CONNECTED event calls the resolver as getPort does; a DISCONNECTED event never calls it |
| Detector.UsbDetector.constructor | src/main/java/net/util/usb/UsbDetector.java:30-38 | a new detector has no USB or state listeners, and a fresh poller without listeners or baseline |
| Detector.UsbDetector.FireDetectorState | src/main/java/net/util/usb/UsbDetector.java:70-72 | every state listener is told the state, in registration order |
| Detector.UsbDetector.PublishEvent | src/main/java/net/util/usb/UsbDetector.java:51 | every USB event listener gets the event, in registration order |
| Detector.UsbDetector.ForceEvents | src/main/java/net/util/usb/UsbDetector.java:113-127 | false, with the baseline untouched, when the detector is not started or has no listeners; otherwise the baseline is reset and the result is true |
| Detector.UsbDetector.AddDetectorStateEventListener | src/main/java/net/util/usb/UsbDetector.java:132-141 | a duplicate gives false and changes nothing; otherwise the listener is appended and the result is true |
| Detector.UsbDetector.RemoveDetectorStateEventListener | src/main/java/net/util/usb/UsbDetector.java:143-147 | true exactly when the listener was present; it is removed |
| Detector.UsbDetector.IsListenerExist | src/main/java/net/util/usb/UsbDetector.java:152-154 | true exactly when the listener is registered |
| Detector.UsbDetector.AddEventListener | src/main/java/net/util/usb/UsbDetector.java:160-169 | a duplicate gives false and changes nothing; otherwise the listener is appended and the result is true |
| Detector.UsbDetector.RemoveEventListener | src/main/java/net/util/usb/UsbDetector.java:171-175 | true exactly when the listener was present; it is removed |
| Detector.UsbDetector.IsStarted | src/main/java/net/util/usb/UsbDetector.java:177-179 | true exactly when the path listener is registered with the poller |
| Detector.UsbDetector.Start | src/main/java/net/util/usb/UsbDetector.java:181-188 | afterwards the detector is started, with its path listener registered once; the baseline is reset only on a first start with listeners present |
| Detector.UsbDetector.Stop | src/main/java/net/util/usb/UsbDetector.java:190-193 | afterwards the detector is not started; the two listener lists are not touched |
| MacPorts.LocationPrefix | src/main/java/net/util/usb/port/macos/OSXPortDetector.java:86 | the text of `location_id` before its first '/'; it throws when the key is missing, the value is not a string, or the value is only slashes |
| MacPorts.MountPointLine | src/main/java/net/util/usb/port/macos/OSXPortDetector.java:120-124 | a non-empty result is the trimmed second ':'-field of a line whose first field trims to "Mount Point" |
| MacPorts.FirstMountPointLine | src/main/java/net/util/usb/port/macos/OSXPortDetector.java:120-124 | the first line whose key trims to "Mount Point" decides: its trimmed second field, or an exception when it has none |
| MacPorts.NoMountPointLine | src/main/java/net/util/usb/port/macos/OSXPortDetector.java:120-124 | with no "Mount Point" line the result is "" |
| MacPorts.FindMountPointByDevice | src/main/java/net/util/usb/port/macos/OSXPortDetector.java:113-129 | null or blank diskutil output gives "" |
| MacPorts.ScanVolumes | src/main/java/net/util/usb/port/macos/OSXPortDetector.java:81-89 | a found location is the device's location prefix, and some volume is mounted at the root; the loop goes on past every volume exactly when none is mounted at the root and all are dictionaries with a string or absent mount point |
| MacPorts.ScanVolumesFound | src/main/java/net/util/usb/port/macos/OSXPortDetector.java:81-89 | when every volume before the first one mounted at the root is passed over, the loop returns the device's location there |
| MacPorts.MediaStep | src/main/java/net/util/usb/port/macos/OSXPortDetector.java:79-97 | a found location is the device's location prefix, and the medium matches the root by a volume, or through diskutil when it lists no volumes; it passes on exactly when the medium is passed over |
| MacPorts.MediaStepFound | src/main/java/net/util/usb/port/macos/OSXPortDetector.java:79-97 | a medium on which the loop returns (its first volume not passed over is at the root, or diskutil reports its device there) gives the device's location |
| MacPorts.ScanMedia | src/main/java/net/util/usb/port/macos/OSXPortDetector.java:77-99 | a found location is the device's location prefix, and some medium matches; the loop goes on past all media exactly when every one is passed over |
| MacPorts.ScanMediaFound | src/main/java/net/util/usb/port/macos/OSXPortDetector.java:77-99 | when every medium before medium k is passed over and the loop returns on medium k, the answer is the device's location |
| MacPorts.Device | src/main/java/net/util/usb/port/macos/OSXPortDetector.java:74-106 | a non-empty result is yielded by this dictionary's media or by its `_items` subtree; a dictionary whose media refer to the root answers its own location (or throws) |
| MacPorts.DeviceMediaFound | src/main/java/net/util/usb/port/macos/OSXPortDetector.java:74-99 | a device whose media loop returns at medium k answers its own location, before `_items` is read |
| MacPorts.DevicePasses | src/main/java/net/util/usb/port/macos/OSXPortDetector.java:74-106 | the loop goes on past a device exactly when all its media are passed over and its `_items`, if present, answer ""; a non-empty `_items` answer after passed-over media is returned |
| MacPorts.Traverse | src/main/java/net/util/usb/port/macos/OSXPortDetector.java:72-111 | a non-empty result is yielded by some element of the array |
| MacPorts.NoMatchNoLocation | src/main/java/net/util/usb/port/macos/OSXPortDetector.java:72-111 | when nothing in the tree matches the root, the result is "" (unless an exception is thrown) |
| MacPorts.FirstDecidingElement | src/main/java/net/util/usb/port/macos/OSXPortDetector.java:73-108 | the first element that does not pass on decides the result, so earlier elements come before later ones |
| MacPorts.NonDictionariesSkipped | src/main/java/net/util/usb/port/macos/OSXPortDetector.java:74 | dropping the elements that are not dictionaries does not change the result |
| MacPorts.MediaBeforeItems | src/main/java/net/util/usb/port/macos/OSXPortDetector.java:77-106 | once the media decide, `_items` is not consulted |
| MacPorts.MountedVolumeGivesLocation | src/main/java/net/util/usb/port/macos/OSXPortDetector.java:72-108 | when every element before device i lets the loop go on and device i's media loop returns at medium k, traverseItems answers device i's `location_id` up to the first '/' |
| MacPorts.EmptyChildContinues | src/main/java/net/util/usb/port/macos/OSXPortDetector.java:101-106 | a device whose media are all passed over and whose children answer "" lets the search go on with its next sibling |
| MacPorts.FindDeviceLocation | src/main/java/net/util/usb/port/macos/OSXPortDetector.java:62-70 | success exactly when the output is there, parses, is an array and the search of it does not throw; the answer is then that search's answer, trimmed unless blank, and a non-empty one comes from an element that yields it |
| MacPorts.GetDeviceUSBPortLocation | src/main/java/net/util/usb/port/macos/OSXPortDetector.java:37-51 | never PortDetectionException; an unchecked exception exactly when the search throws; otherwise the search's string, "" included |
| WindowsRegistry.LastField | src/main/java/net/util/usb/port/windows/WindowsReqistry.java:28-29 | no field is left exactly when `split` drops every field, which happens only for output of tabs and spaces; otherwise a trimmed piece of the output that holds no separator and is followed only by tabs and spaces (LastFieldOfJoin pins it to the last field) |
| JavaStrings.TabFieldsOfJoin | src/main/java/net/util/usb/port/windows/WindowsReqistry.java:28 | splitting fields joined by tabs on "\t\|(    )" gives those fields back, when none holds a tab or four spaces and the last is not empty |
| WindowsRegistry.LastFieldOfJoin | src/main/java/net/util/usb/port/windows/WindowsReqistry.java:28-29 | for output made of tab-separated fields without tabs or four-space runs, the value read is the trimmed last field |
| WindowsRegistry.ReadRegistry | src/main/java/net/util/usb/port/windows/WindowsReqistry.java:19-33 | null when the command fails or its output lacks the key; a value whenever the output has the key and some character other than a tab or space; that value is what LastField reads from the output |
| WindowsRegistry.ReadRegistryOfFields | src/main/java/net/util/usb/port/windows/WindowsReqistry.java:19-33 | when the query prints such fields and mentions the key, readRegistry returns the trimmed last field |
| WindowsRegistry.NonEmpty | src/main/java/net/util/usb/port/windows/WindowsReqistry.java:37 | the kept strings are exactly the non-empty ones, and none of them is empty |
| WindowsRegistry.NonEmptyAppend | src/main/java/net/util/usb/port/windows/WindowsReqistry.java:37 | the filter distributes over concatenation, so it keeps the original order |
| WindowsRegistry.ReadLocation | src/main/java/net/util/usb/port/windows/WindowsReqistry.java:34-41 | null exactly when the command fails; otherwise exactly the output's non-empty lines, in order |
| WindowsRegistry.ReadLocationOfLines | src/main/java/net/util/usb/port/windows/WindowsReqistry.java:36-37 | output made of non-empty lines joined by line breaks gives exactly those lines back |
| WindowsPorts.ExtractId | src/main/java/net/util/usb/port/windows/WindowsPortDetector.java:48-50 | the id has no '"', and it stands right after the first `DeviceID="` match, followed by '"' |
| WindowsPorts.UncLinesExact | src/main/java/net/util/usb/port/windows/WindowsPortDetector.java:37-41 | a line is kept exactly when it is a trimmed output line that starts with two backslashes |
| WindowsPorts.WmicLines | src/main/java/net/util/usb/port/windows/WindowsPortDetector.java:37-41 | every kept line starts with two backslashes and has no line break |
| WindowsPorts.UncLinesAppend | src/main/java/net/util/usb/port/windows/WindowsPortDetector.java:37-41 | trimming and filtering distribute over concatenation, so kept lines keep their order |
| WindowsPorts.UncLinesKeepsAll | src/main/java/net/util/usb/port/windows/WindowsPortDetector.java:37-41 | lines that are already trimmed and start with two backslashes are all kept, in order |
| WindowsPorts.WmicLinesOfLines | src/main/java/net/util/usb/port/windows/WindowsPortDetector.java:37-41 | output made of such lines joined by line breaks gives exactly those lines back, in order |
| WindowsPorts.RejoinedLines | src/main/java/net/util/usb/port/windows/WindowsPortDetector.java:41-45 | joining the kept lines and splitting them again gives them back, or one empty line when none was kept |
| WindowsPorts.ParseAssociations | src/main/java/net/util/usb/port/windows/WindowsPortDetector.java:37-61 | the loop builds the map that AssociationTable describes |
| WindowsPorts.AssociationTable | src/main/java/net/util/usb/port/windows/WindowsPortDetector.java:37-61 | null output throws, and so does a kept line with a marker but no extractable id; otherwise the map's keys are exactly the ids of the entry lines |
| WindowsPorts.AssociateLine | src/main/java/net/util/usb/port/windows/WindowsPortDetector.java:44-58 | one iteration throws exactly when the line holds a marker whose id cannot be extracted |
| WindowsPorts.Associate | src/main/java/net/util/usb/port/windows/WindowsPortDetector.java:43-59 | the loop throws exactly when some line holds a marker without an extractable id; otherwise the running id is that of the last header line, or null when there is none |
| WindowsPorts.AssociateKeys | src/main/java/net/util/usb/port/windows/WindowsPortDetector.java:52-58 | the map's keys are exactly the ids of the entry lines |
| WindowsPorts.AssociateValue | src/main/java/net/util/usb/port/windows/WindowsPortDetector.java:43-59 | a key maps to the id of the most recent header at or before its last entry line (null if none); later lines overwrite earlier ones |
| WindowsPorts.PhysicalDrive | src/main/java/net/util/usb/port/windows/WindowsPortDetector.java:103-105 | a path shorter than two characters throws; otherwise the drive is the drive map's entry for the partition the partition map gives for the first two characters, and null when either lookup misses |
| WindowsPorts.PnpDeviceId | src/main/java/net/util/usb/port/windows/WindowsPortDetector.java:107 | success exactly when the command prints output with at least two lines; the id is then the second line, trimmed |
| WindowsPorts.FirstWith | src/main/java/net/util/usb/port/windows/WindowsPortDetector.java:125-126 | nothing exactly when no element contains the part; otherwise the first element that does |
| WindowsPorts.ScanGrandchildren | src/main/java/net/util/usb/port/windows/WindowsPortDetector.java:120-126 | a line found is a LocationInformation line among the values of a grandchild that mention the container; a failure comes from a grandchild whose values cannot be read |
| WindowsPorts.ScanChildren | src/main/java/net/util/usb/port/windows/WindowsPortDetector.java:117-126 | a line found comes from a grandchild, mentioning the container, of one of the children; a failure comes from a listing that cannot be read |
| WindowsPorts.GrandchildrenAsEager | src/main/java/net/util/usb/port/windows/WindowsPortDetector.java:120-126 | with every listing readable, the scan of one child's keys finds the first LocationInformation line among the listings that mention the container |
| WindowsPorts.ScanAsEager | src/main/java/net/util/usb/port/windows/WindowsPortDetector.java:115-126 | with every listing readable, the lazy scan finds the first LocationInformation line among all grandchild listings that mention the container |
| WindowsPorts.Resolve | src/main/java/net/util/usb/port/windows/WindowsPortDetector.java:103-132 | a path too short for a drive letter throws; success needs the physical drive and PNP id lookups to succeed; a non-empty port is the last field of a LocationInformation line of a grandchild that mentions the container this drive's registry entry names |
| WindowsPorts.PortLocation | src/main/java/net/util/usb/port/windows/WindowsPortDetector.java:99-135 | every failure, in either parser or later, is a PortDetectionException; nothing unchecked escapes |
| WindowsPorts.GetDeviceUSBPortLocation | src/main/java/net/util/usb/port/windows/WindowsPortDetector.java:25-136 | runs both parsers and then the lookup chain, with the outcome PortLocation gives |
| WindowsPorts.NoContainerNoPort | src/main/java/net/util/usb/port/windows/WindowsPortDetector.java:109-113 | a device without a ContainerID gives "" and no error |
| WindowsPorts.PortFromFirstLocationLine | src/main/java/net/util/usb/port/windows/WindowsPortDetector.java:115-132 | the port is the trimmed last field of the first matching LocationInformation line; "" when there is none; a line with no field left is an error |
| Platform.SelectBackend | src/main/java/net/util/usb/port/PortDetector.java:15-23 | a name starting with "win" in any case gives Windows; otherwise one starting with "mac" in any case gives macOS; any other name gives none |
| Platform.SelectIgnoresCase | src/main/java/net/util/usb/port/PortDetector.java:15 | lower-casing the name first changes nothing |
| Platform.Attempt | src/main/java/net/util/usb/port/PortDetector.java:32 | no backend is an unchecked failure; macOS never throws PortDetectionException; Windows never throws anything unchecked |
| Platform.MacNeverRetries | src/main/java/net/util/usb/UsbDetector.java:91-95 | on macOS getPort makes exactly one attempt and never gives null |
| Platform.UnsupportedEscapes | src/main/java/net/util/usb/UsbDetector.java:92 | on an unsupported OS the first attempt fails, and the failure leaves getPort |
| Platform.WindowsNeverEscapes | src/main/java/net/util/usb/port/windows/WindowsPortDetector.java:133-135 | on Windows no exception leaves getPort |

## Left out

- Threads and timing are not modelled. This covers the `run` loop's `Thread.sleep`, the daemon
  flag and interrupts, the `synchronized` blocks, and the double-checked singleton in
  `UsbDetector.getInstance`. Each `run` iteration is one `Tick`, called in sequence.
- `AsyncTask` is not part of this model. The two Windows parser tasks run one after the other. A
  task that fails counts as a failure of the whole lookup, which is a PortDetectionException.
- `PollingJob.checkOS` is not modelled because it enumerates the OS's roots. The listing is the
  argument of `Tick`.
- `ExecCommand`, `StreamReader` and `PropertyListParser` are not modelled because they are
  process, stream and foreign-library code. They are the `Shell` and `Parser` oracles.
- Logging is not modelled, nor are `runDiagnostic` in both backends and `UsbDetector`
  (they only log), `setPollingInterval` (a field store) and `getListeners` (a read-only view).
- `USBEventType`, `USBDevice`, `USBEventListener`, `PortDetectionException` and `DetectorState`
  have no behaviour of their own, so they become datatypes.
- Exceptions thrown by listeners are not modelled, and neither is the thread dying when an
  unchecked exception escapes the handler. The model only records that NEW_DEVICE_RECOGNIZED is
  then not sent.
- A listener that removes itself during a notification pass, which raises
  `ConcurrentModificationException` in Java, is not modelled because it is runtime behaviour.
- Polling.DiffEvents: HashSet iteration order is unspecified in Java. The model sends CONNECTED
  in sorted-roots order and DISCONNECTED in baseline order, and the lemmas about it count
  deliveries rather than fixing their order. The exception is that all CONNECTED events come
  before all DISCONNECTED ones, as the two `forEach` calls guarantee.
- PathOrder.Sort orders paths as strings, character by character. Dafny characters are Unicode
  scalar values, whereas `String.compareTo` compares UTF-16 code units, so the two orders can
  differ for paths with characters above U+FFFF. On Windows, `File` compares paths
  case-insensitively, and that comparison is not modelled.
- Platform.SelectBackend: only ASCII letters are lower-cased, whereas `String.toLowerCase`
  folds all of Unicode under the default locale.
- PortDetector.getInstance has no member of its own. The instance is a final static field set
  once from one OS name, so in the model it is `SelectBackend` of that name, the same value on
  every call.
- WindowsPorts.ScanAsEager: the eager description is proved only when every registry listing
  can be read. When some listing fails, the lazy scan `ScanChildren` defines which failures
  count: only those met before the first match.
- WindowsPorts.GrandchildrenAsEager: likewise proved only when every grandchild listing can be
  read; otherwise `ScanGrandchildren` defines which failures count.
- MacPorts.FindMountPointByDevice: its contract fixes only the null and blank cases. The
  line-by-line behaviour of the other cases is stated by `MountPointLine`, `FirstMountPointLine`
  and `NoMountPointLine`.
- The Java 8 behaviour of `flatMap`, which reads a whole inner stream before `findFirst` can
  stop, is not modelled. The model follows Java 10 and later.
