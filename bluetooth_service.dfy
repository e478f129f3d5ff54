/**
  The device list of a scan: every found device is upserted by address into
  an insertion-ordered table, and after each update the table's devices are
  emitted sorted by signal strength, strongest first.
*/
module BluetoothService {
  import opened Text
  import opened Sorting

  /** `BluetoothDeviceDomain`. */
  datatype Device = Device(name: Option<string>, address: string, rssi: int, timestamp: int)

  function Rssi(d: Device): int {
    d.rssi
  }

  function Address(d: Device): string {
    d.address
  }

  /** What the platform reports about a device: its address and name, either possibly missing. */
  datatype PlatformDevice = PlatformDevice(address: Option<string>, name: Option<string>)

  const UNKNOWN_DEVICE: string := "Bilinmeyen Cihaz"
  /** The signal strength assumed for a bonded device, which reports none. */
  const BONDED_RSSI: int := -50

  /** The name shown for a device: a placeholder when it has none, its address when the name is blank. */
  function DisplayName(name: Option<string>, address: string): (n: string)
    ensures name.None? ==> n == UNKNOWN_DEVICE
    ensures name.Some? && IsBlank(name.value) ==> n == "No Name [" + address + "]"
    ensures name.Some? && !IsBlank(name.value) ==> n == name.value
  {
    var raw := if name.Some? then name.value else UNKNOWN_DEVICE;
    assert !IsBlank(UNKNOWN_DEVICE) by { assert UNKNOWN_DEVICE[0] == 'B'; }
    if IsBlank(raw) then "No Name [" + address + "]" else raw
  }

  /** The position of the entry for `a`, or -1 when there is none. */
  function IndexOfAddress(found: seq<Device>, a: string): (i: int)
    ensures -1 <= i < |found|
    ensures i >= 0 ==> found[i].address == a && forall j :: 0 <= j < i ==> found[j].address != a
    ensures i < 0 ==> a !in KeysOf(found, Address)
    decreases |found|
  {
    if |found| == 0 then -1
    else
      var k := IndexOfAddress(found[..|found| - 1], a);
      if k >= 0 then k
      else if found[|found| - 1].address == a then |found| - 1
      else
        assert a !in KeysOf(found, Address) by {
          forall j | 0 <= j < |found| ensures Address(found[j]) != a {
            if j < |found| - 1 {
              assert Address(found[..|found| - 1][j]) in KeysOf(found[..|found| - 1], Address);
            }
          }
        }
        -1
  }

  /**
    `map[address] = device` on an insertion-ordered map, as a sequence: an
    existing entry is replaced where it stands, a new one goes last.
  */
  function Upsert(found: seq<Device>, d: Device): seq<Device> {
    var i := IndexOfAddress(found, d.address);
    if i >= 0 then found[i := d] else found + [d]
  }

  /**
    On a table with one entry per address, the upsert replaces the entry for
    the new device's address in place when there is one, and appends the
    device otherwise; the table still holds one entry per address, and its
    addresses grow by the new one.
  */
  lemma UpsertSpec(found: seq<Device>, d: Device)
    requires DistinctBy(found, Address)
    ensures var r := Upsert(found, d);
      (d.address in KeysOf(found, Address) ==>
        exists i :: 0 <= i < |found| && found[i].address == d.address && r == found[i := d]) &&
      (d.address !in KeysOf(found, Address) ==> r == found + [d]) &&
      DistinctBy(r, Address) &&
      KeysOf(r, Address) == KeysOf(found, Address) + {d.address}
  {
    var r := Upsert(found, d);
    var i := IndexOfAddress(found, d.address);
    if i >= 0 {
      assert d.address in KeysOf(found, Address) by { assert Address(found[i]) == d.address; }
      SameAddressesKeys(found, r);
      assert DistinctBy(r, Address) by {
        forall j, k | 0 <= j < k < |r| ensures Address(r[j]) != Address(r[k]) {
          assert Address(r[j]) == Address(found[j]) && Address(r[k]) == Address(found[k]);
        }
      }
    } else {
      assert KeysOf(r, Address) == KeysOf(found, Address) + {d.address} by {
        forall k | k in KeysOf(r, Address) ensures k in KeysOf(found, Address) + {d.address} {
          var j :| 0 <= j < |r| && Address(r[j]) == k;
          if j < |found| { assert Address(found[j]) == k; }
        }
        forall k | k in KeysOf(found, Address) ensures k in KeysOf(r, Address) {
          var j :| 0 <= j < |found| && Address(found[j]) == k;
          assert Address(r[j]) == k;
        }
        assert Address(r[|found|]) == d.address;
      }
      assert DistinctBy(r, Address) by {
        forall j, k | 0 <= j < k < |r| ensures Address(r[j]) != Address(r[k]) {
          assert Address(r[j]) == Address(found[j]);
          if k < |found| {
            assert Address(r[k]) == Address(found[k]);
          } else {
            assert Address(found[j]) in KeysOf(found, Address);
          }
        }
      }
    }
  }

  lemma ConsKeys(s: seq<Device>)
    requires |s| > 0
    ensures KeysOf(s, Address) == {s[0].address} + KeysOf(s[1..], Address)
  {
    var t := s[1..];
    forall k | k in KeysOf(s, Address) ensures k in {s[0].address} + KeysOf(t, Address) {
      var i :| 0 <= i < |s| && Address(s[i]) == k;
      if i > 0 { assert t[i - 1] == s[i]; }
    }
    forall k | k in KeysOf(t, Address) ensures k in KeysOf(s, Address) {
      var i :| 0 <= i < |t| && Address(t[i]) == k;
      assert s[i + 1] == t[i];
    }
    assert Address(s[0]) in KeysOf(s, Address);
  }

  lemma SameAddressesKeys(a: seq<Device>, b: seq<Device>)
    requires |a| == |b|
    requires forall i :: 0 <= i < |a| ==> a[i].address == b[i].address
    ensures KeysOf(a, Address) == KeysOf(b, Address)
  {
    forall k | k in KeysOf(a, Address) ensures k in KeysOf(b, Address) {
      var i :| 0 <= i < |a| && Address(a[i]) == k;
      assert Address(b[i]) == k;
    }
    forall k | k in KeysOf(b, Address) ensures k in KeysOf(a, Address) {
      var i :| 0 <= i < |b| && Address(b[i]) == k;
      assert Address(a[i]) == k;
    }
  }

  /**
    `addDeviceToList(device, rssi, map)`: a device without an address is
    ignored; otherwise it is upserted under its display name with the time
    of the reading.
  */
  function AddDevice(found: seq<Device>, dev: PlatformDevice, rssi: int, now: int): seq<Device> {
    if dev.address.None? then found
    else
      var address := dev.address.value;
      Upsert(found, Device(Some(DisplayName(dev.name, address)), address, rssi, now))
  }

  /** The list emitted after an update: the table's devices, strongest signal first. */
  function SortedView(found: seq<Device>): (v: seq<Device>)
    ensures SortedDesc(v, Rssi) && multiset(v) == multiset(found)
  {
    SortDesc(found, Rssi)
  }

  /**
    Adding a device keeps one entry per address, and the device's latest
    reading (its signal strength and time) is the one kept. The emitted view
    also has one entry per address, the same addresses, and is ordered.
  */
  lemma AddDeviceLatestWins(found: seq<Device>, dev: PlatformDevice, rssi: int, now: int)
    requires DistinctBy(found, Address)
    ensures var r := AddDevice(found, dev, rssi, now);
      DistinctBy(r, Address) &&
      (dev.address.None? ==> r == found) &&
      (dev.address.Some? ==>
        KeysOf(r, Address) == KeysOf(found, Address) + {dev.address.value} &&
        Device(Some(DisplayName(dev.name, dev.address.value)), dev.address.value, rssi, now) in r &&
        (forall i :: 0 <= i < |r| && r[i].address == dev.address.value ==> r[i].rssi == rssi && r[i].timestamp == now)) &&
      DistinctBy(SortedView(r), Address) && KeysOf(SortedView(r), Address) == KeysOf(r, Address)
  {
    var r := AddDevice(found, dev, rssi, now);
    if dev.address.Some? {
      var address := dev.address.value;
      var d := Device(Some(DisplayName(dev.name, address)), address, rssi, now);
      UpsertSpec(found, d);
      if address in KeysOf(found, Address) {
        var i :| 0 <= i < |found| && found[i].address == address && r == found[i := d];
        assert r[i] == d;
        forall j | 0 <= j < |r| && j != i ensures r[j].address != address {
          if j < i { assert Address(r[j]) != Address(r[i]); } else { assert Address(r[i]) != Address(r[j]); }
        }
      } else {
        assert r[|found|] == d;
        forall j | 0 <= j < |found| ensures r[j].address != address {
          assert Address(r[j]) != Address(r[|found|]);
        }
      }
    }
    SortDistinct(r, Rssi, Address);
  }

  /**
    Devices added one after the other, all with the same signal strength:
    the table at the end, and the lists emitted on the way, after `emitted`.
  */
  function Seed(found: seq<Device>, emitted: seq<seq<Device>>, devs: seq<PlatformDevice>, rssi: int, now: int)
    : (seq<Device>, seq<seq<Device>>)
    decreases |devs|
  {
    if |devs| == 0 then (found, emitted)
    else
      var next := AddDevice(found, devs[0], rssi, now);
      Seed(next, emitted + (if devs[0].address.Some? then [SortedView(next)] else []), devs[1..], rssi, now)
  }

  /** Seeding devices keeps one entry per address. */
  lemma {:induction false} SeedDistinct(found: seq<Device>, emitted: seq<seq<Device>>, devs: seq<PlatformDevice>,
                                         rssi: int, now: int)
    requires DistinctBy(found, Address)
    decreases |devs|
    ensures DistinctBy(Seed(found, emitted, devs, rssi, now).0, Address)
  {
    if |devs| > 0 {
      var next := AddDevice(found, devs[0], rssi, now);
      AddDeviceLatestWins(found, devs[0], rssi, now);
      SeedDistinct(next, emitted + (if devs[0].address.Some? then [SortedView(next)] else []), devs[1..], rssi, now);
    }
  }

  /** After seeding, the table holds its earlier addresses and the address of every seeded device that has one. */
  lemma {:induction false} SeedCovers(found: seq<Device>, emitted: seq<seq<Device>>, devs: seq<PlatformDevice>,
                                       rssi: int, now: int)
    requires DistinctBy(found, Address)
    decreases |devs|
    ensures KeysOf(found, Address) <= KeysOf(Seed(found, emitted, devs, rssi, now).0, Address)
    ensures forall i :: 0 <= i < |devs| && devs[i].address.Some? ==>
      devs[i].address.value in KeysOf(Seed(found, emitted, devs, rssi, now).0, Address)
  {
    if |devs| > 0 {
      var next := AddDevice(found, devs[0], rssi, now);
      var emitted' := emitted + (if devs[0].address.Some? then [SortedView(next)] else []);
      AddDeviceLatestWins(found, devs[0], rssi, now);
      SeedCovers(next, emitted', devs[1..], rssi, now);
      var r := Seed(found, emitted, devs, rssi, now).0;
      assert r == Seed(next, emitted', devs[1..], rssi, now).0;
      forall i | 0 < i < |devs| && devs[i].address.Some? ensures devs[i].address.value in KeysOf(r, Address) {
        assert devs[1..][i - 1] == devs[i];
      }
    }
  }

  /** One `scanDevices` collection: the insertion-ordered table and the lists emitted so far. */
  class DeviceScan {
    var foundDevices: seq<Device>
    var emitted: seq<seq<Device>>
    /** False once the flow has ended. */
    var open: bool

    ghost predicate Valid()
      reads this
    {
      DistinctBy(foundDevices, Address)
    }

    /**
      The start of `scanDevices`: without a usable adapter, a single empty
      list and the end of the flow; otherwise an empty table, after which the
      bonded devices are added with the assumed signal strength.
    */
    constructor (adapterReady: bool, bonded: seq<PlatformDevice>, now: int)
      ensures Valid()
      ensures !adapterReady ==> foundDevices == [] && emitted == [[]] && !open
      ensures adapterReady ==>
        open && (foundDevices, emitted) == Seed([], [], bonded, BONDED_RSSI, now)
    {
      foundDevices := [];
      emitted := [];
      open := adapterReady;
      new;
      if !adapterReady {
        emitted := [[]];
        return;
      }
      SeedBonded(bonded, now);
    }

    /** The bonded devices, added one after the other with the assumed signal strength. */
    method SeedBonded(bonded: seq<PlatformDevice>, now: int)
      requires Valid()
      modifies this
      ensures Valid() && open == old(open)
      ensures (foundDevices, emitted) == Seed(old(foundDevices), old(emitted), bonded, BONDED_RSSI, now)
    {
      var i := 0;
      while i < |bonded|
        invariant 0 <= i <= |bonded|
        invariant Valid() && open == old(open)
        invariant Seed(foundDevices, emitted, bonded[i..], BONDED_RSSI, now) ==
          Seed(old(foundDevices), old(emitted), bonded, BONDED_RSSI, now)
      {
        assert bonded[i..][0] == bonded[i] && bonded[i..][1..] == bonded[i + 1..];
        AddDeviceToList(bonded[i], BONDED_RSSI, now);
        i := i + 1;
      }
      assert bonded[i..] == [];
    }

    /** `addDeviceToList`: the upsert, then the sorted view of the whole table is emitted. */
    method AddDeviceToList(dev: PlatformDevice, rssi: int, now: int)
      requires Valid()
      modifies this
      ensures Valid() && open == old(open)
      ensures foundDevices == AddDevice(old(foundDevices), dev, rssi, now)
      ensures emitted == old(emitted) + (if dev.address.Some? then [SortedView(foundDevices)] else [])
    {
      AddDeviceLatestWins(foundDevices, dev, rssi, now);
      if dev.address.None? {
        return;
      }
      var address := dev.address.value;
      var name := DisplayName(dev.name, address);
      foundDevices := Upsert(foundDevices, Device(Some(name), address, rssi, now));
      emitted := emitted + [SortDesc(foundDevices, Rssi)];
    }
  }
}
