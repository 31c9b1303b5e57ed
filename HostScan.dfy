/**
 * The per-host part of `NetworkScanner` (CameraIP/NetworkScanner.swift):
 * the port validity gate of `checkPort`, the fold of probe results into
 * `openPorts` in `scanDevice`, and the cancellation checks of both scan
 * loops.
 *
 * The network is an oracle: `isOpen(ip, port)` is whether a TCP
 * connection to `ip:port` reaches the ready state. The flag `isScanning`,
 * which other threads may clear while a loop runs, is an oracle too:
 * `scanning(k)` is the value the loop reads before its `k`-th iteration.
 */
module HostScan {
  import opened Wrappers

  /** `DiscoveredDevice`, without its `UUID` identity. */
  datatype DiscoveredDevice = DiscoveredDevice(ipAddress: string, deviceName: Option<string>, openPorts: seq<int>)

  /** The ports `startScanning` asks `scanSubnet` to probe. */
  const PortsToScan: seq<int> := [80, 554, 8080, 8888]

  /** The largest TCP port number. */
  const MaxPort: int := 65535

  /** How many iterations a loop guarded by `if !isScanning { break }` runs
      out of `n`: every iteration before the first check that reads
      `false`, or all `n` when no check does. */
  function Issued(scanning: nat -> bool, n: nat): (k: nat)
    ensures k <= n
    ensures forall j :: 0 <= j < k ==> scanning(j)
    ensures k < n ==> !scanning(k)
  {
    if n == 0 then 0
    else
      var k := Issued(scanning, n - 1);
      if k == n - 1 && scanning(n - 1) then n else k
  }

  /** What `checkPort` did with a port: completed with `false` at once
      without opening a connection, or opened a connection that reported
      `open`. */
  datatype Probe = NotAttempted | Attempted(open: bool)

  /** `checkPort(ip:port:)`: a port outside 1...65535 is reported closed
      without a connection; so is one whose `UInt16` raw value is 0, which
      no port that passed the first guard has. Otherwise the connection's
      outcome is reported. */
  function CheckPort(ip: string, port: int, isOpen: (string, int) -> bool): (r: Probe)
    ensures r.NotAttempted? <==> !(0 < port <= MaxPort)
    ensures r.Attempted? ==> r.open == isOpen(ip, port)
  {
    if !(port > 0 && port <= MaxPort) then NotAttempted
    else
      var rawValue := port % 0x1_0000;  // UInt16(port)
      if rawValue == 0 then NotAttempted
      else Attempted(isOpen(ip, rawValue))
  }

  /** The completion of `checkPort` passed `true`. */
  predicate ReportsOpen(ip: string, port: int, isOpen: (string, int) -> bool)
  {
    CheckPort(ip, port, isOpen) == Attempted(true)
  }

  /** The ports of `completed` whose probe reported open, in the order of
      `completed`: what the completion handlers append to `openPorts`. */
  function OpenPorts(ip: string, completed: seq<int>, isOpen: (string, int) -> bool): seq<int>
  {
    if completed == [] then []
    else
      var rest := OpenPorts(ip, completed[1..], isOpen);
      if ReportsOpen(ip, completed[0], isOpen) then [completed[0]] + rest else rest
  }

  /** Every port collected was probed, is in range and is open. */
  lemma {:induction false} OpenPortsSound(ip: string, completed: seq<int>, isOpen: (string, int) -> bool)
    ensures forall p :: p in OpenPorts(ip, completed, isOpen) ==> p in completed && 0 < p <= MaxPort && isOpen(ip, p)
  {
    if completed != [] {
      OpenPortsSound(ip, completed[1..], isOpen);
    }
  }

  /** No port is collected exactly when no probe reports open. */
  lemma {:induction false} OpenPortsEmpty(ip: string, completed: seq<int>, isOpen: (string, int) -> bool)
    ensures OpenPorts(ip, completed, isOpen) == [] <==> forall p :: p in completed ==> !ReportsOpen(ip, p, isOpen)
  {
    if completed != [] {
      OpenPortsEmpty(ip, completed[1..], isOpen);
      assert forall p :: p in completed <==> p == completed[0] || p in completed[1..];
    }
  }

  /** A completion that comes last appends its port when, and only when,
      it reports open. */
  lemma {:induction false} OpenPortsAppend(ip: string, completed: seq<int>, port: int, isOpen: (string, int) -> bool)
    ensures OpenPorts(ip, completed + [port], isOpen) ==
      OpenPorts(ip, completed, isOpen) + (if ReportsOpen(ip, port, isOpen) then [port] else [])
  {
    if completed == [] {
      assert [] + [port] == [port];
      assert [port][1..] == [];
    } else {
      assert (completed + [port])[1..] == completed[1..] + [port];
      OpenPortsAppend(ip, completed[1..], port, isOpen);
    }
  }

  /** Each port occurs in `OpenPorts` as often as in `completed` when it
      reports open, and not at all otherwise. */
  lemma {:induction false} OpenPortsCount(ip: string, completed: seq<int>, isOpen: (string, int) -> bool, p: int)
    ensures multiset(OpenPorts(ip, completed, isOpen))[p] ==
      if ReportsOpen(ip, p, isOpen) then multiset(completed)[p] else 0
  {
    if completed != [] {
      OpenPortsCount(ip, completed[1..], isOpen, p);
      assert completed == [completed[0]] + completed[1..];
    }
  }

  /** The open ports do not depend on the order in which the probes
      complete, up to their own order. */
  lemma OpenPortsReordered(ip: string, a: seq<int>, b: seq<int>, isOpen: (string, int) -> bool)
    requires multiset(a) == multiset(b)
    ensures multiset(OpenPorts(ip, a, isOpen)) == multiset(OpenPorts(ip, b, isOpen))
  {
    forall p ensures multiset(OpenPorts(ip, a, isOpen))[p] == multiset(OpenPorts(ip, b, isOpen))[p] {
      OpenPortsCount(ip, a, isOpen, p);
      OpenPortsCount(ip, b, isOpen, p);
    }
  }

  /** Whatever order the probes of `probed` complete in, the ports found
      open are the same ones, none is found exactly when no probe of
      `probed` reports open, and every one found is a probed port that
      reported open. */
  lemma OpenPortsOfArrangement(ip: string, completed: seq<int>, probed: seq<int>, isOpen: (string, int) -> bool)
    requires multiset(completed) == multiset(probed)
    ensures multiset(OpenPorts(ip, completed, isOpen)) == multiset(OpenPorts(ip, probed, isOpen))
    ensures OpenPorts(ip, completed, isOpen) == [] <==> forall p :: p in probed ==> !ReportsOpen(ip, p, isOpen)
    ensures forall p :: p in OpenPorts(ip, completed, isOpen) ==> p in probed && ReportsOpen(ip, p, isOpen)
  {
    OpenPortsReordered(ip, completed, probed, isOpen);
    OpenPortsSound(ip, completed, isOpen);
    OpenPortsEmpty(ip, completed, isOpen);
    assert forall p :: p in completed <==> p in probed by {
      forall p ensures p in completed <==> p in probed {
        assert p in completed <==> multiset(completed)[p] > 0;
        assert p in probed <==> multiset(probed)[p] > 0;
      }
    }
    forall p | p in OpenPorts(ip, completed, isOpen) ensures ReportsOpen(ip, p, isOpen) {
      OpenPortsCount(ip, completed, isOpen, p);
    }
  }

  /** The values `checkPort`'s state handler passes to its completion for
      one port, as the code is written: a port the guards turn away
      completes once with `false`, and so does a connection that fails; a
      connection that becomes ready completes with `true`, and its own
      `cancel()` then moves it to `.cancelled`, which completes it a second
      time, with `false`. */
  function CompletionsAsWritten(ip: string, port: int, isOpen: (string, int) -> bool): seq<bool>
  {
    match CheckPort(ip, port, isOpen)
    case NotAttempted => [false]
    case Attempted(open) => if open then [true, false] else [false]
  }

  /** The `leave()` calls `scanDevice`'s completion handler makes on
      `portDispatchGroup` once the probes of `completed` have finished, as
      the code is written: one per completion. */
  function LeavesAsWritten(ip: string, completed: seq<int>, isOpen: (string, int) -> bool): nat
  {
    if completed == [] then 0
    else |CompletionsAsWritten(ip, completed[0], isOpen)| + LeavesAsWritten(ip, completed[1..], isOpen)
  }

  /** As written, every probe that reports open leaves the group twice:
      the probes of `completed` leave it once each and once more per open
      port, so a host with an open port leaves more often than it entered. */
  lemma {:induction false} LeavesAsWrittenCount(ip: string, completed: seq<int>, isOpen: (string, int) -> bool)
    ensures LeavesAsWritten(ip, completed, isOpen) == |completed| + |OpenPorts(ip, completed, isOpen)|
  {
    if completed != [] {
      LeavesAsWrittenCount(ip, completed[1..], isOpen);
    }
  }

  /** A camera with HTTP (80) and RTSP (554) open whose two probes finish
      first: as written, their four `leave()` calls balance the four
      `enter()` calls of `PortsToScan`, so the group's `notify` runs while
      the probes of 8080 and 8888 are still outstanding, and their later
      `leave()` calls are unbalanced. */
  lemma EarlyNotifyAsWritten(ip: string, isOpen: (string, int) -> bool, completed: seq<int>)
    requires isOpen(ip, 80) && isOpen(ip, 554)
    requires completed == [80, 554]
    ensures LeavesAsWritten(ip, completed, isOpen) == |PortsToScan|
    ensures multiset(completed) < multiset(PortsToScan)
  {
    LeavesAsWrittenCount(ip, completed, isOpen);
    assert ReportsOpen(ip, 80, isOpen) && ReportsOpen(ip, 554, isOpen);
    assert completed[1..] == [554] && [554][1..] == [];
    assert OpenPorts(ip, [554], isOpen) == [554] + OpenPorts(ip, [], isOpen);
    assert OpenPorts(ip, completed, isOpen) == [80] + OpenPorts(ip, [554], isOpen);
  }

  /** As written, any host with a probe that reports open leaves
      `portDispatchGroup` more often than it entered it: once per probe,
      whatever order they finish in, cannot be the count. */
  lemma OpenPortUnbalancesGroup(ip: string, completed: seq<int>, isOpen: (string, int) -> bool)
    ensures (exists p :: p in completed && ReportsOpen(ip, p, isOpen)) <==>
      LeavesAsWritten(ip, completed, isOpen) > |completed|
  {
    LeavesAsWrittenCount(ip, completed, isOpen);
    OpenPortsEmpty(ip, completed, isOpen);
  }

  /** The completion handlers of `scanDevice`'s probes, run in the order
      `completed`: each one whose port reported open appends it to
      `openPorts`. */
  method CollectOpenPorts(ip: string, completed: seq<int>, isOpen: (string, int) -> bool)
    returns (openPorts: seq<int>)
    ensures openPorts == OpenPorts(ip, completed, isOpen)
  {
    openPorts := [];
    var c := 0;
    while c < |completed|
      invariant c <= |completed|
      invariant openPorts == OpenPorts(ip, completed[..c], isOpen)
    {
      assert completed[..c + 1] == completed[..c] + [completed[c]];
      OpenPortsAppend(ip, completed[..c], completed[c], isOpen);
      if ReportsOpen(ip, completed[c], isOpen) {
        openPorts := openPorts + [completed[c]];
      }
      c := c + 1;
    }
    assert completed[..c] == completed;
  }

  /** `scanDevice(ipAddress:ports:completion:)`.

      The first loop issues one `checkPort` per port, in order, until it
      reads `isScanning == false`; `probed` are the ports it issued. The
      probes complete in the order `completed`, some arrangement of
      `probed`, and each completion that reports open appends its port to
      `openPorts`, so the device lists them in completion order. The
      precondition is that each probe completes exactly once (see
      `LeavesAsWrittenCount` for the code as written). When the group is
      done, a host with no open port yields `nil`; otherwise a device with
      the address, the name that `name` stands for (the result of
      `getDeviceName`) and the open ports. */
  method ScanDevice(ipAddress: string, ports: seq<int>, isOpen: (string, int) -> bool,
                    scanning: nat -> bool, completed: seq<int>, name: Option<string>)
    returns (probed: seq<int>, device: Option<DiscoveredDevice>)
    requires multiset(completed) == multiset(ports[..Issued(scanning, |ports|)])
    ensures probed == ports[..Issued(scanning, |ports|)]
    ensures (forall k :: 0 <= k < |ports| ==> scanning(k)) ==> probed == ports
    ensures device.None? <==> forall p :: p in probed ==> !ReportsOpen(ipAddress, p, isOpen)
    ensures device.Some? ==>
      && device.value.ipAddress == ipAddress
      && device.value.deviceName == name
      && device.value.openPorts != []
      && multiset(device.value.openPorts) == multiset(OpenPorts(ipAddress, probed, isOpen))
      && (forall p :: p in device.value.openPorts ==> p in probed && ReportsOpen(ipAddress, p, isOpen))
    ensures device.Some? ==> device.value.openPorts == OpenPorts(ipAddress, completed, isOpen)
  {
    probed := [];
    var i := 0;
    while i < |ports|
      invariant i <= |ports|
      invariant probed == ports[..i]
      invariant forall j :: 0 <= j < i ==> scanning(j)
    {
      if !scanning(i) {
        break;
      }
      probed := probed + [ports[i]];
      i := i + 1;
    }
    assert i == Issued(scanning, |ports|);

    var openPorts := CollectOpenPorts(ipAddress, completed, isOpen);
    OpenPortsOfArrangement(ipAddress, completed, probed, isOpen);
    if openPorts != [] {
      device := Some(DiscoveredDevice(ipAddress, name, openPorts));
    } else {
      device := None;
    }
  }

  /** A host with port 80 open and port 443 closed, probed over
      [80, 443] with every check reading `isScanning == true`, yields a
      device with its address, its name and the open ports [80]. */
  method ScanDeviceExample(isOpen: (string, int) -> bool)
    returns (device: Option<DiscoveredDevice>)
    requires isOpen("192.168.1.10", 80) && !isOpen("192.168.1.10", 443)
    ensures device == Some(DiscoveredDevice("192.168.1.10", Some("Printer"), [80]))
  {
    var always := (_: nat) => true;
    assert Issued(always, 2) == 2;
    assert [80, 443][..2] == [80, 443];
    var probed;
    probed, device := ScanDevice("192.168.1.10", [80, 443], isOpen, always, [80, 443], Some("Printer"));
    assert OpenPorts("192.168.1.10", [80, 443], isOpen) == [80] by {
      assert [80, 443][1..] == [443];
      assert [443][1..] == [];
    }
  }
}
