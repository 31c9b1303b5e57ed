/**
 * `BluetoothScanner` (CameraIP/BluetoothScanner.swift): the list of
 * discovered peripherals that the central manager's delegate callbacks
 * keep. A peripheral is a value here, its `UUID` identifier and its
 * advertised name; the CoreBluetooth calls `scanForPeripherals` and
 * `stopScan` are reduced to their effect on the ghost flag
 * `scanningForPeripherals`.
 */
module Bluetooth {
  import opened Wrappers

  /** `CBPeripheral.identifier`, a UUID. */
  type Identifier = nat

  datatype Peripheral = Peripheral(identifier: Identifier, name: Option<string>)

  /** `CBManagerState`; `Unrecognised` stands for any value added in a
      later SDK (the `@unknown default` case). */
  datatype ManagerState =
    | Unknown | Resetting | Unsupported | Unauthorized | PoweredOff | PoweredOn
    | Unrecognised(rawValue: int)

  /** The name the discovery callback refuses. */
  const UnknownName: string := "Unknown"

  /** The discovery callback considers a peripheral only when it has a
      name other than "Unknown". */
  predicate IsNamed(p: Peripheral)
  {
    p.name.Some? && p.name.value != UnknownName
  }

  /** `devices.contains(where: { $0.identifier == id })`. */
  function ContainsIdentifier(devices: seq<Peripheral>, id: Identifier): (b: bool)
    ensures b <==> exists i :: 0 <= i < |devices| && devices[i].identifier == id
  {
    if devices == [] then false
    else devices[0].identifier == id || ContainsIdentifier(devices[1..], id)
  }

  /** No identifier occurs twice. */
  ghost predicate DistinctIdentifiers(devices: seq<Peripheral>)
  {
    forall i, j :: 0 <= i < j < |devices| ==> devices[i].identifier != devices[j].identifier
  }

  /** The identifiers in a list. */
  function Identifiers(devices: seq<Peripheral>): set<Identifier>
  {
    if devices == [] then {} else {devices[0].identifier} + Identifiers(devices[1..])
  }

  /** The list after the discovery callback saw `p`. */
  function AfterDiscovery(devices: seq<Peripheral>, p: Peripheral): seq<Peripheral>
  {
    if IsNamed(p) && !ContainsIdentifier(devices, p.identifier) then devices + [p] else devices
  }

  /** The list after the callback saw each of `ps`, in order. */
  function AfterDiscoveries(devices: seq<Peripheral>, ps: seq<Peripheral>): seq<Peripheral>
    decreases ps
  {
    if ps == [] then devices else AfterDiscoveries(AfterDiscovery(devices, ps[0]), ps[1..])
  }

  /** The identifiers of the named peripherals among `ps`. */
  function NamedIdentifiers(ps: seq<Peripheral>): set<Identifier>
  {
    if ps == [] then {}
    else (if IsNamed(ps[0]) then {ps[0].identifier} else {}) + NamedIdentifiers(ps[1..])
  }

  lemma {:induction false} IdentifiersMembership(devices: seq<Peripheral>, id: Identifier)
    ensures id in Identifiers(devices) <==> ContainsIdentifier(devices, id)
  {
    if devices != [] {
      IdentifiersMembership(devices[1..], id);
    }
  }

  lemma {:induction false} IdentifiersAppend(devices: seq<Peripheral>, p: Peripheral)
    ensures Identifiers(devices + [p]) == Identifiers(devices) + {p.identifier}
  {
    if devices != [] {
      assert (devices + [p])[1..] == devices[1..] + [p];
      IdentifiersAppend(devices[1..], p);
    }
  }

  /** One discovery keeps identifiers distinct, keeps every earlier entry
      where it was, and grows the list by one exactly when the peripheral
      is named and its identifier is new. */
  lemma DiscoveryAppendsNew(devices: seq<Peripheral>, p: Peripheral)
    requires DistinctIdentifiers(devices)
    ensures DistinctIdentifiers(AfterDiscovery(devices, p))
    ensures devices <= AfterDiscovery(devices, p)
    ensures |AfterDiscovery(devices, p)| ==
      if IsNamed(p) && p.identifier !in Identifiers(devices) then |devices| + 1 else |devices|
  {
    IdentifiersMembership(devices, p.identifier);
  }

  /** Seeing the same peripheral twice is the same as seeing it once. */
  lemma DiscoveryIdempotent(devices: seq<Peripheral>, p: Peripheral)
    ensures AfterDiscovery(AfterDiscovery(devices, p), p) == AfterDiscovery(devices, p)
  {
    if IsNamed(p) && !ContainsIdentifier(devices, p.identifier) {
      assert AfterDiscovery(devices, p)[|devices|].identifier == p.identifier;
    }
  }

  /** After a run of discoveries the list holds one entry per identifier:
      the identifiers it had, and those of the named peripherals seen. */
  lemma {:induction false} DiscoveriesCollectNamed(devices: seq<Peripheral>, ps: seq<Peripheral>)
    requires DistinctIdentifiers(devices)
    ensures DistinctIdentifiers(AfterDiscoveries(devices, ps))
    ensures devices <= AfterDiscoveries(devices, ps)
    ensures Identifiers(AfterDiscoveries(devices, ps)) == Identifiers(devices) + NamedIdentifiers(ps)
    decreases ps
  {
    if ps != [] {
      var next := AfterDiscovery(devices, ps[0]);
      DiscoveryAppendsNew(devices, ps[0]);
      IdentifiersMembership(devices, ps[0].identifier);
      if next != devices {
        IdentifiersAppend(devices, ps[0]);
      }
      DiscoveriesCollectNamed(next, ps[1..]);
    }
  }

  class BluetoothScanner {
    var discoveredDevices: seq<Peripheral>
    var connectedDevices: seq<Peripheral>
    /** Whether `scanForPeripherals` was called after the last `stopScan`. */
    ghost var scanningForPeripherals: bool

    ghost predicate Valid()
      reads this
    {
      DistinctIdentifiers(discoveredDevices)
    }

    constructor ()
      ensures Valid()
      ensures discoveredDevices == [] && connectedDevices == [] && !scanningForPeripherals
    {
      discoveredDevices := [];
      connectedDevices := [];
      scanningForPeripherals := false;
    }

    method StartScanning()
      modifies this
      ensures scanningForPeripherals
      ensures discoveredDevices == old(discoveredDevices) && connectedDevices == old(connectedDevices)
    {
      scanningForPeripherals := true;
    }

    method StopScanning()
      modifies this
      ensures !scanningForPeripherals
      ensures discoveredDevices == old(discoveredDevices) && connectedDevices == old(connectedDevices)
    {
      scanningForPeripherals := false;
    }

    /** `centralManagerDidUpdateState(_:)`: powering on starts a scan,
        powering off empties both lists, every other state changes
        nothing. */
    method CentralManagerDidUpdateState(state: ManagerState)
      requires Valid()
      modifies this
      ensures Valid()
      ensures state.PoweredOff? ==> discoveredDevices == [] && connectedDevices == []
      ensures !state.PoweredOff? ==>
        discoveredDevices == old(discoveredDevices) && connectedDevices == old(connectedDevices)
      ensures scanningForPeripherals == (state.PoweredOn? || old(scanningForPeripherals))
    {
      match state
      case PoweredOn =>
        StartScanning();
      case PoweredOff =>
        discoveredDevices := [];
        connectedDevices := [];
      case Resetting | Unauthorized | Unsupported | Unknown =>
      case Unrecognised(_) =>
    }

    /** `centralManager(_:didDiscover:advertisementData:rssi:)`: a named
        peripheral whose identifier is not listed yet is appended. */
    method CentralManagerDidDiscover(peripheral: Peripheral)
      requires Valid()
      modifies this
      ensures Valid()
      ensures discoveredDevices == AfterDiscovery(old(discoveredDevices), peripheral)
      ensures !IsNamed(peripheral) || peripheral.identifier in Identifiers(old(discoveredDevices)) ==>
        discoveredDevices == old(discoveredDevices)
      ensures IsNamed(peripheral) && peripheral.identifier !in Identifiers(old(discoveredDevices)) ==>
        discoveredDevices == old(discoveredDevices) + [peripheral]
      ensures connectedDevices == old(connectedDevices)
      ensures scanningForPeripherals == old(scanningForPeripherals)
    {
      DiscoveryAppendsNew(discoveredDevices, peripheral);
      IdentifiersMembership(discoveredDevices, peripheral.identifier);
      if peripheral.name.Some? && peripheral.name.value != UnknownName {
        if !ContainsIdentifier(discoveredDevices, peripheral.identifier) {
          discoveredDevices := discoveredDevices + [peripheral];
        }
      }
    }
  }
}
