/**
 * The scan coordinator `NetworkScanner` (CameraIP/NetworkScanner.swift),
 * with its concurrency serialised: dispatching a host task appends it to
 * `pending`, and `RunHostTask` runs one pending task to completion at a
 * time, in whatever order the environment picks. Every `startScanning`
 * that dispatches creates its own `DispatchGroup`; a task records the
 * scan (group) it belongs to, and a group's `notify` block clears
 * `isScanning` once that group's last task has left.
 */
module NetworkScanning {
  import opened Wrappers
  import opened Strings
  import opened Subnet
  import opened HostScan

  /** A host task dispatched by scan number `scan` for `ipAddress`. */
  datatype HostTask = HostTask(scan: nat, ipAddress: string)

  /** The completion handler keeps a device only when its name is present
      and non-empty. */
  predicate Accepted(device: DiscoveredDevice)
  {
    device.deviceName.Some? && |device.deviceName.value| > 0
  }

  /** The result list after a host task delivered `device`. */
  function AfterCompletion(devices: seq<DiscoveredDevice>, device: Option<DiscoveredDevice>): seq<DiscoveredDevice>
  {
    if device.Some? && Accepted(device.value) then devices + [device.value] else devices
  }

  /** The tasks that scan number `scan` dispatches for `ips`, in order. */
  function TasksOf(scan: nat, ips: seq<string>): (tasks: seq<HostTask>)
    ensures |tasks| == |ips|
    ensures forall k :: 0 <= k < |ips| ==> tasks[k] == HostTask(scan, ips[k])
  {
    if ips == [] then [] else [HostTask(scan, ips[0])] + TasksOf(scan, ips[1..])
  }

  /** Some task of group `scan` has not left yet. */
  predicate HasTask(pending: seq<HostTask>, scan: nat)
  {
    exists j :: 0 <= j < |pending| && pending[j].scan == scan
  }

  /** `scanSubnet`'s loop: for `i` in 1...254 it stops at the first check
      that reads `isScanning == false`, and otherwise dispatches a task for
      `"\(subnet).\(i)"`. `dispatched` are those addresses in order. */
  method ScanSubnet(subnet: string, scanning: nat -> bool) returns (dispatched: seq<string>)
    ensures |dispatched| == Issued(scanning, LastHost)
    ensures forall k :: 0 <= k < |dispatched| ==> dispatched[k] == CandidateAddress(subnet, k + FirstHost)
    ensures (forall k :: 0 <= k < LastHost ==> scanning(k)) ==> dispatched == Candidates(subnet)
  {
    dispatched := [];
    var i := FirstHost;
    while i <= LastHost
      invariant FirstHost <= i <= LastHost + 1
      invariant |dispatched| == i - FirstHost
      invariant forall k :: 0 <= k < |dispatched| ==> dispatched[k] == CandidateAddress(subnet, k + FirstHost)
      invariant forall k :: 0 <= k < i - FirstHost ==> scanning(k)
    {
      if !scanning(i - FirstHost) {
        break;
      }
      var ip := subnet + "." + Decimal(i);
      dispatched := dispatched + [ip];
      i := i + 1;
    }
    assert |dispatched| == Issued(scanning, LastHost);
  }

  class NetworkScanner {
    var discoveredDevices: seq<DiscoveredDevice>
    var isScanning: bool
    /** The number of scans that dispatched host tasks; the latest one's
        group is number `scans`. */
    var scans: nat
    /** The dispatched host tasks that have not yet left their group. */
    var pending: seq<HostTask>

    /** While a scan is running, its group still has a task outstanding,
        so its `notify` block is still to come. */
    ghost predicate Valid()
      reads this
    {
      isScanning ==> HasTask(pending, scans)
    }

    constructor ()
      ensures Valid()
      ensures discoveredDevices == [] && !isScanning && scans == 0 && pending == []
    {
      discoveredDevices := [];
      isScanning := false;
      scans := 0;
      pending := [];
    }

    /** `startScanning()`, with `interfaces` the list `getifaddrs`
        returns. A call while a scan runs does nothing. Otherwise the list
        is emptied; with no subnet the scan ends at once and nothing is
        dispatched; with one, a new group dispatches the 254 candidate
        addresses. */
    method StartScanning(interfaces: seq<Interface>)
      requires Valid()
      modifies this
      ensures Valid()
      ensures old(isScanning) ==> unchanged(this)
      ensures !old(isScanning) && GetSubnet(interfaces).None? ==>
        && !isScanning && discoveredDevices == []
        && scans == old(scans) && pending == old(pending)
      ensures !old(isScanning) && GetSubnet(interfaces).Some? ==>
        && isScanning && discoveredDevices == []
        && scans == old(scans) + 1
        && pending == old(pending) + TasksOf(scans, Candidates(GetSubnet(interfaces).value))
    {
      if isScanning {
        return;
      }
      isScanning := true;
      discoveredDevices := [];

      var subnet := GetSubnet(interfaces);
      if subnet.None? {
        isScanning := false;
        return;
      }

      // Nothing on this thread clears the flag while scanSubnet's loop runs.
      var observed := isScanning;
      var ips := ScanSubnet(subnet.value, (_: nat) => observed);
      scans := scans + 1;
      pending := pending + TasksOf(scans, ips);
      assert pending[|old(pending)|].scan == scans;
    }

    /** `stopScanning()`: clears the flag; dispatched tasks still run. */
    method StopScanning()
      requires Valid()
      modifies this
      ensures Valid()
      ensures !isScanning
      ensures discoveredDevices == old(discoveredDevices)
      ensures pending == old(pending) && scans == old(scans)
    {
      isScanning := false;
    }

    /** Runs the pending task at index `k`: `scanDevice` for its address
        over the default ports (the oracles as in `ScanDevice`), then the
        completion handler, which appends an accepted device at the end of
        the list, then `leave()`, after which the group's `notify` block
        clears `isScanning` if the group is empty. */
    method RunHostTask(k: nat, isOpen: (string, int) -> bool, scanning: nat -> bool,
                       completed: seq<int>, name: Option<string>)
      returns (device: Option<DiscoveredDevice>)
      requires Valid()
      requires k < |pending|
      requires multiset(completed) == multiset(PortsToScan[..Issued(scanning, |PortsToScan|)])
      modifies this
      ensures Valid()
      ensures device.Some? ==>
        device.value.ipAddress == old(pending[k].ipAddress) && device.value.openPorts != []
      ensures discoveredDevices == AfterCompletion(old(discoveredDevices), device)
      ensures pending == old(pending[..k] + pending[k + 1..])
      ensures scans == old(scans)
      ensures isScanning == (old(isScanning) && HasTask(pending, old(pending[k].scan)))
      ensures pending == [] ==> !isScanning
    {
      var task := pending[k];
      var probed;
      probed, device := ScanDevice(task.ipAddress, PortsToScan, isOpen, scanning, completed, name);
      assert device.Some? ==> device.value.ipAddress == task.ipAddress && device.value.openPorts != [];

      if device.Some? && Accepted(device.value) {
        discoveredDevices := discoveredDevices + [device.value];
      }

      if old(isScanning) && task.scan != scans {
        RemovalKeepsOtherGroups(pending, k, scans);
      }
      pending := pending[..k] + pending[k + 1..];
      if !HasTask(pending, task.scan) {
        isScanning := false;
      }
    }
  }

  /** Removing one task of another group leaves a task of group `scan`
      in place. */
  lemma RemovalKeepsOtherGroups(pending: seq<HostTask>, k: nat, scan: nat)
    requires k < |pending| && pending[k].scan != scan
    requires HasTask(pending, scan)
    ensures HasTask(pending[..k] + pending[k + 1..], scan)
  {
    var rest := pending[..k] + pending[k + 1..];
    var j :| 0 <= j < |pending| && pending[j].scan == scan;
    if j < k {
      assert rest[j] == pending[j];
    } else {
      assert rest[j - 1] == pending[j];
    }
  }

  /** A completion never removes or reorders a result: the list only grows
      at its end, by at most one device, and only by one whose name is
      present and non-empty. */
  lemma CompletionAppends(devices: seq<DiscoveredDevice>, device: Option<DiscoveredDevice>)
    ensures devices <= AfterCompletion(devices, device)
    ensures |AfterCompletion(devices, device)| <= |devices| + 1
    ensures forall i :: |devices| <= i < |AfterCompletion(devices, device)| ==>
      Accepted(AfterCompletion(devices, device)[i]) && device == Some(AfterCompletion(devices, device)[i])
  {
  }
}
