# CameraIP scanners in Dafny

A model of the two discovery engines of the CameraIP app:

- `NetworkScanner` finds hosts on the local Wi-Fi /24. It derives the subnet
  prefix from the first IPv4 `en0` interface. It dispatches one host task per
  address `prefix.1` … `prefix.254`. Each task probes the camera ports
  80, 554, 8080 and 8888 with TCP connects. A host with at least one open port
  becomes a `DiscoveredDevice`. A device is listed only if its name is present
  and non-empty. The flag `isScanning` starts a scan, cancels it cooperatively
  and is cleared when a scan's dispatch group drains.
- `BluetoothScanner` keeps the list of BLE peripherals seen. A peripheral is
  added once per identifier, and only if its name is present and is not
  "Unknown". Powering Bluetooth off empties both lists.

Modules:

- `Wrappers`: Swift's `Optional`.
- `Strings`: the parts of Swift's standard library the subnet code relies on. This means `split(separator:)` (which drops empty pieces), `joined(separator:)`, and decimal interpolation.
- `Subnet`: `getSubnet` over an abstract interface list, and the candidate addresses.
- `HostScan`: the `checkPort` gate, the open-port fold and `scanDevice`.
- `NetworkScanning`: the `scanSubnet` loop and the class `NetworkScanner`.
- `Bluetooth`: the class `BluetoothScanner`.

Concurrency is serialised:

- Dispatching a host task appends it to `pending`. `RunHostTask` runs one pending task to completion at a time, in any order.
- Each `startScanning` that dispatches gets its own dispatch group. That group's `notify` clears `isScanning` once its last task has left.
- Inside the background loops, `isScanning` is an oracle `scanning(k)`: the value the `k`-th check reads.
- Ports complete in an oracle order `completed`, which is some arrangement of the probed ports.
- The network is an oracle `isOpen(ip, port)`. The name lookup is an oracle value `name`.

Behaviour of the code worth knowing:

- `openPorts` is in completion order, not port-set order. It holds the same ports as the port-set-ordered list (`OpenPortsOfArrangement`), and equals it when probes complete in order.
- Results can be appended after `stopScanning`. A task that was already dispatched still completes and appends.
- A task of an earlier scan that completes after a restart appends to the new scan's list. When that earlier group drains, it clears `isScanning` even while the newer scan runs (`RunHostTask`). Nothing then keeps one address from being listed twice.
- All 254 addresses are dispatched at once, with no worker pool.

## Model

| member | source | states |
|---|---|---|
| `Strings.SplitComponents` | CameraIP/NetworkScanner.swift:73 | every component `split(separator: ".")` yields is non-empty and contains no "." |
| `Strings.SplitAround` | CameraIP/NetworkScanner.swift:73 | splitting `a + "." + b` gives the components of `a` followed by those of `b` |
| `Strings.SplitDropsEmpty` | CameraIP/NetworkScanner.swift:73 | a doubled "." splits like a single one (empty pieces are omitted) |
| `Strings.SplitJoin` | CameraIP/NetworkScanner.swift:73-75 | splitting the "."-join of non-empty, dot-free components gives the components back |
| `Strings.Decimal` | CameraIP/NetworkScanner.swift:92 | the interpolated octet is a non-empty string of decimal digits with no leading zero (except for 0 itself) |
| `Strings.DecimalOfCanonical` | CameraIP/NetworkScanner.swift:92 | every digit string without a superfluous leading zero is the interpolated text of its value, so `Decimal` is the one canonical rendering |
| `Strings.ParseDecimalOfDecimal` | CameraIP/NetworkScanner.swift:92 | reading back the interpolated decimal text of `i` gives `i` |
| `Strings.DecimalInjective` | CameraIP/NetworkScanner.swift:92 | distinct octets give distinct decimal texts |
| `Strings.PiecesJoin` | CameraIP/NetworkScanner.swift:75 | cutting the "."-join of dot-free components at every "." gives exactly those components: one "." between neighbours, none at either end |
| `Subnet.PrefixOf` | CameraIP/NetworkScanner.swift:73-76 | a prefix exists exactly when the address splits into 4 components; cutting the prefix at every "." gives exactly the first three components, with no empty piece |
| `Subnet.PrefixOfText` | CameraIP/NetworkScanner.swift:73-75 | the prefix text is the first three components with one "." between each |
| `Subnet.GetSubnetFindsFirst` | CameraIP/NetworkScanner.swift:61-82 | `getSubnet` returns `p` exactly when `p` is the prefix of the first AF_INET `en0` interface whose address has 4 components |
| `Subnet.GetSubnetIsFirst` | CameraIP/NetworkScanner.swift:61-76 | a returned prefix comes from the first qualifying interface |
| `Subnet.FirstIsGetSubnet` | CameraIP/NetworkScanner.swift:61-76 | the first qualifying interface's prefix is what is returned |
| `Subnet.GetSubnetNone` | CameraIP/NetworkScanner.swift:61-82 | `getSubnet` is nil exactly when no interface qualifies (line 82 always returns nil) |
| `Subnet.PrefixOfDottedQuad` | CameraIP/NetworkScanner.swift:73-75 | "192.168.1.23" yields the prefix "192.168.1" |
| `Subnet.PrefixOfThreeComponents` | CameraIP/NetworkScanner.swift:74 | "192.168.1" (three components) yields no prefix |
| `Subnet.CandidatesAscend` | CameraIP/NetworkScanner.swift:90-92 | there are 254 candidates; the `k`-th is the subnet, ".", and the decimal octet `k + 1`, written without a leading zero |
| `Subnet.CandidatesDistinct` | CameraIP/NetworkScanner.swift:90-92 | no two candidates are equal |
| `Subnet.CandidateInSubnet` | CameraIP/NetworkScanner.swift:73-76 | an address built from a derived prefix has that same prefix |
| `Subnet.CandidatesInFoundSubnet` | CameraIP/NetworkScanner.swift:33-43 | every candidate for the subnet `getSubnet` found lies in that subnet |
| `HostScan.Issued` | CameraIP/NetworkScanner.swift:120-122 | a loop with `if !isScanning { break }` runs exactly the iterations before the first check that reads false |
| `HostScan.CheckPort` | CameraIP/NetworkScanner.swift:144-158 | a port outside 1...65535 is reported closed with no connection; the `UInt16` zero check never rejects an in-range port; otherwise the connection's outcome is reported |
| `HostScan.OpenPortsSound` | CameraIP/NetworkScanner.swift:123-126 | every collected port was probed, is in 1...65535 and is open |
| `HostScan.OpenPortsEmpty` | CameraIP/NetworkScanner.swift:123-132 | no port is collected exactly when no probe reports open |
| `HostScan.OpenPortsAppend` | CameraIP/NetworkScanner.swift:123-126 | a completion that comes last appends its port exactly when it reports open |
| `HostScan.CollectOpenPorts` | CameraIP/NetworkScanner.swift:123-129 | running the completion handlers in order `completed` leaves `openPorts` equal to the open ports of `completed`, in that order |
| `HostScan.OpenPortsCount` | CameraIP/NetworkScanner.swift:123-126 | each port is collected as often as it was probed if it reports open, else never |
| `HostScan.OpenPortsReordered` | CameraIP/NetworkScanner.swift:123-126 | the collected ports do not depend on completion order, up to their order |
| `HostScan.OpenPortsOfArrangement` | CameraIP/NetworkScanner.swift:120-132 | for any completion order of the probed ports: same ports collected, empty exactly when nothing probed is open, every one a probed open port |
| `HostScan.LeavesAsWrittenCount` | CameraIP/NetworkScanner.swift:163-169 | as written, each probe leaves `portDispatchGroup` once, plus once more for every port that reports open |
| `HostScan.OpenPortUnbalancesGroup` | CameraIP/NetworkScanner.swift:163-169 | as written, a host leaves the group more often than it entered exactly when some probe reports open, whatever the completion order |
| `HostScan.EarlyNotifyAsWritten` | CameraIP/NetworkScanner.swift:120-131 | as written, when 80 and 554 are open and finish first, their four `leave()` calls balance all four `enter()` calls while 8080 and 8888 are still outstanding |
| `HostScan.ScanDevice` | CameraIP/NetworkScanner.swift:115-141 | probes a prefix of the ports (all of them if the flag stays true); nil exactly when no probed port reports open; otherwise a device with the input address, the looked-up name and the open ports in completion order; each probe completes exactly once |
| `HostScan.ScanDeviceExample` | CameraIP/NetworkScanner.swift:115-141 | a host with 80 open and 443 closed yields the device ("192.168.1.10", "Printer", [80]) |
| `NetworkScanning.ScanSubnet` | CameraIP/NetworkScanner.swift:90-106 | dispatches `subnet.1`, `subnet.2`, … in order, stopping at the first check that reads false; all 254 candidates when the flag stays true |
| `NetworkScanning.CompletionAppends` | CameraIP/NetworkScanner.swift:96-100 | a completion only appends, at most one device, and only one with a present non-empty name |
| `NetworkScanning.NetworkScanner.constructor` | CameraIP/NetworkScanner.swift:22-23 | starts idle with an empty list |
| `NetworkScanning.NetworkScanner.StartScanning` | CameraIP/NetworkScanner.swift:28-44 | no effect while scanning; with no subnet it ends idle with an empty list and dispatches nothing; otherwise empty list, scanning, and a new group of the 254 candidate tasks |
| `NetworkScanning.NetworkScanner.StopScanning` | CameraIP/NetworkScanner.swift:47-50 | clears `isScanning` and changes nothing else |
| `NetworkScanning.NetworkScanner.RunHostTask` | CameraIP/NetworkScanner.swift:94-111 | appends an accepted device at the end; removes the task; `isScanning` is cleared when that task's group drains; no pending task means not scanning |
| `Bluetooth.ContainsIdentifier` | CameraIP/BluetoothScanner.swift:50 | true exactly when some listed peripheral has the identifier |
| `Bluetooth.DiscoveryAppendsNew` | CameraIP/BluetoothScanner.swift:48-51 | one discovery keeps identifiers distinct and earlier entries in place, and grows the list by one exactly for a named peripheral with a new identifier |
| `Bluetooth.DiscoveryIdempotent` | CameraIP/BluetoothScanner.swift:50-51 | seeing the same peripheral twice is the same as seeing it once |
| `Bluetooth.DiscoveriesCollectNamed` | CameraIP/BluetoothScanner.swift:43-55 | after any run of discoveries the identifiers are distinct and are the earlier ones plus those of the named peripherals seen |
| `Bluetooth.BluetoothScanner.constructor` | CameraIP/BluetoothScanner.swift:6-12 | both lists start empty |
| `Bluetooth.BluetoothScanner.StartScanning` | CameraIP/BluetoothScanner.swift:31-34 | enters scanning mode; lists unchanged |
| `Bluetooth.BluetoothScanner.StopScanning` | CameraIP/BluetoothScanner.swift:36-39 | leaves scanning mode; lists unchanged |
| `Bluetooth.BluetoothScanner.CentralManagerDidUpdateState` | CameraIP/BluetoothScanner.swift:14-29 | powered off empties both lists; every other state leaves them unchanged; powered on enters scanning mode |
| `Bluetooth.BluetoothScanner.CentralManagerDidDiscover` | CameraIP/BluetoothScanner.swift:43-55 | an unnamed, "Unknown" or already-listed peripheral changes nothing; otherwise it is appended at the end; `connectedDevices` never changes; identifiers stay distinct |

## Left out

- `Strings.Split`: splits a sequence of Unicode scalars, while Swift's `String.split` works on `Character`s (grapheme clusters). The two agree on the ASCII digits-and-dots text that `getnameinfo` with `NI_NUMERICHOST` produces.
- Interface enumeration is not modelled: `getifaddrs`, `getnameinfo`, the pointer walk and `freeifaddrs` are C calls. The model takes the list of interfaces with their numeric address text. A failing `getifaddrs` is modelled as the empty list, which gives the same nil result.
- TCP probing is reduced to the oracle `isOpen(ip, port)`. The `NWConnection` setup and its state handler are not modelled. The oracle gives the same answer for the same address and port.
- The model assumes every probe completes exactly once. The second completion of a ready connection is described under "## Findings", and `HostScan.ScanDevice` follows the corrected behaviour. A connection that never reaches ready, failed or cancelled would keep its host task pending, and so keep `isScanning` set, forever.
- `getDeviceName` is reduced to the oracle value `name`. It is timing-dependent I/O: a throwaway connection, `debugDescription` and a 0.5 s sleep.
- Threads and dispatch queues are not modelled; completions are serialised. The unsynchronised `openPorts.append` from concurrent probe callbacks is assumed not to lose updates.
- `DiscoveredDevice.id` (a fresh `UUID`) is dropped, so devices compare structurally.
- `@Published`, `cancellables`, `print` and the RSSI in the Bluetooth log line are not modelled.
- `CBCentralManager` creation, `scanForPeripherals` and `stopScan` are not modelled beyond a ghost flag recording whether a scan was requested.
- A `CBPeripheral` is modelled as a value (identifier, name). The original list holds references, whose names can change later.
- `NetworkScanning.NetworkScanner.RunHostTask`: states only the address and the non-empty ports of the device it delivers. The rest is `HostScan.ScanDevice`'s contract.
- `NetworkScanning.NetworkScanner.StartScanning`: reads `isScanning` once for the whole dispatch loop, because nothing on the main thread can clear it during that loop. The early `break` is modelled in `NetworkScanning.ScanSubnet`.
- The views (`ScanViaWifiView`, `ScanViaBluetoothView`), the app entry point and the speed-test screen are not part of this model. They are presentation code and a vendor SDK wrapper.

## Findings

| source | as written | input that shows it | evidently intended | confidence | as-written member | corrected member |
|---|---|---|---|---|---|---|
| CameraIP/NetworkScanner.swift:163-169 | On `.ready`, `checkPort` calls `completion(true)` and then `connection.cancel()`. The cancel moves the connection to `.cancelled`, and the same handler then calls `completion(false)`. So `scanDevice`'s handler calls `portDispatchGroup.leave()` twice for every open port. | Host with 80 and 554 open whose two probes finish first: four `leave()` calls balance the four `enter()` calls, so `notify` runs while 8080 and 8888 are outstanding. Their later `leave()` calls are unbalanced, which libdispatch treats as a fatal error. | Each probe completes exactly once, so the group drains after the last probe, and the device holds the open ports of all probes, in completion order. | not executed; medium (relies on `NWConnection` reporting `.cancelled` to its state handler after `cancel()`) | `HostScan.EarlyNotifyAsWritten` | `HostScan.ScanDevice` |
