/**
  The home screen's device list: paired devices first, then, on every scan
  update, the scanned devices merged with the paired ones, one entry per
  address with the scanned entry winning, strongest signal first.
*/
module HomeViewModel {
  import opened Text
  import opened Sorting
  import opened BluetoothService

  /**
    `distinctBy { it.address }`: the first element for each address, in
    order, skipping addresses already in `seen`.
  */
  function DistinctFrom(s: seq<Device>, seen: set<string>): (r: seq<Device>)
    ensures forall x :: x in r ==> x in s && x.address !in seen
    decreases |s|
  {
    if |s| == 0 then []
    else if s[0].address in seen then DistinctFrom(s[1..], seen)
    else [s[0]] + DistinctFrom(s[1..], seen + {s[0].address})
  }

  function DistinctByAddress(s: seq<Device>): seq<Device> {
    DistinctFrom(s, {})
  }

  /** `x` is the first element of `s` with its address. */
  predicate FirstWithAddress(s: seq<Device>, x: Device) {
    exists i :: 0 <= i < |s| && s[i] == x && forall j :: 0 <= j < i ==> s[j].address != x.address
  }

  /** An element first with its address in the tail stays first when the head has another address. */
  lemma FirstInTail(s: seq<Device>, x: Device)
    requires |s| > 0 && FirstWithAddress(s[1..], x) && s[0].address != x.address
    ensures FirstWithAddress(s, x)
  {
    var t := s[1..];
    var i :| 0 <= i < |t| && t[i] == x && forall j :: 0 <= j < i ==> t[j].address != x.address;
    assert s[i + 1] == x;
    forall j | 0 <= j < i + 1 ensures s[j].address != x.address {
      if j > 0 { assert s[j] == t[j - 1]; }
    }
  }

  /** Putting an element with a new address in front keeps the addresses distinct. */
  lemma ConsDistinct(x: Device, r: seq<Device>)
    requires DistinctBy(r, Address) && x.address !in KeysOf(r, Address)
    ensures DistinctBy([x] + r, Address)
  {
    var xr := [x] + r;
    forall i, j | 0 <= i < j < |xr| ensures Address(xr[i]) != Address(xr[j]) {
      assert xr[j] == r[j - 1];
      if i > 0 { assert xr[i] == r[i - 1]; }
    }
  }

  /**
    The distinct list has one element per address, covers every address of
    the input not in `seen`, and keeps, for each, the first element of the
    input with that address.
  */
  lemma {:induction false} DistinctFromSpec(s: seq<Device>, seen: set<string>)
    decreases |s|
    ensures var r := DistinctFrom(s, seen);
      DistinctBy(r, Address) &&
      KeysOf(r, Address) == KeysOf(s, Address) - seen &&
      forall x :: x in r ==> FirstWithAddress(s, x)
  {
    var r := DistinctFrom(s, seen);
    if |s| == 0 {
      assert KeysOf(s, Address) == {};
    } else {
      var t := s[1..];
      ConsKeys(s);
      if s[0].address in seen {
        DistinctFromSpec(t, seen);
        forall x | x in r ensures FirstWithAddress(s, x) {
          FirstInTail(s, x);
        }
      } else {
        var seen' := seen + {s[0].address};
        DistinctFromSpec(t, seen');
        var rt := DistinctFrom(t, seen');
        assert r == [s[0]] + rt;
        ConsKeys(r);
        assert r[1..] == rt;
        ConsDistinct(s[0], rt);
        forall x | x in r ensures FirstWithAddress(s, x) {
          if x == s[0] {
            assert s[0] == x;
          } else {
            assert x in rt;
            FirstInTail(s, x);
          }
        }
      }
    }
  }

  /** The list shown after a scan update: scanned before paired, one per address, strongest first. */
  function Merge(scanned: seq<Device>, paired: seq<Device>): seq<Device> {
    SortDesc(DistinctByAddress(scanned + paired), Rssi)
  }

  /** The addresses of a concatenation are those of its two parts. */
  lemma AppendKeys(a: seq<Device>, b: seq<Device>)
    ensures KeysOf(a + b, Address) == KeysOf(a, Address) + KeysOf(b, Address)
  {
    var all := a + b;
    forall k | k in KeysOf(all, Address) ensures k in KeysOf(a, Address) + KeysOf(b, Address) {
      var i :| 0 <= i < |all| && Address(all[i]) == k;
      if i < |a| { assert Address(a[i]) == k; } else { assert Address(b[i - |a|]) == k; }
    }
    forall k | k in KeysOf(a, Address) + KeysOf(b, Address) ensures k in KeysOf(all, Address) {
      if k in KeysOf(a, Address) {
        var i :| 0 <= i < |a| && Address(a[i]) == k;
        assert Address(all[i]) == k;
      } else {
        var i :| 0 <= i < |b| && Address(b[i]) == k;
        assert Address(all[|a| + i]) == k;
      }
    }
  }

  /** The first element of `a + b` with an address that `a` holds is the first such element of `a`. */
  lemma FirstInPrefix(a: seq<Device>, b: seq<Device>, x: Device)
    requires FirstWithAddress(a + b, x) && x.address in KeysOf(a, Address)
    ensures FirstWithAddress(a, x)
  {
    var all := a + b;
    var i :| 0 <= i < |all| && all[i] == x && forall j :: 0 <= j < i ==> all[j].address != x.address;
    var k :| 0 <= k < |a| && Address(a[k]) == x.address;
    assert all[k] == a[k];
    assert a[i] == x;
    forall j | 0 <= j < i ensures a[j].address != x.address {
      assert all[j] == a[j];
    }
  }

  /** The first element of `a + b` with an address that `a` lacks is the first such element of `b`. */
  lemma FirstInSuffix(a: seq<Device>, b: seq<Device>, x: Device)
    requires FirstWithAddress(a + b, x) && x.address !in KeysOf(a, Address)
    ensures FirstWithAddress(b, x)
  {
    var all := a + b;
    var i :| 0 <= i < |all| && all[i] == x && forall j :: 0 <= j < i ==> all[j].address != x.address;
    assert b[i - |a|] == x;
    forall j | 0 <= j < i - |a| ensures b[j].address != x.address {
      assert all[|a| + j] == b[j];
    }
  }

  /**
    The merged list has one entry per address, exactly the addresses of the
    scanned and paired devices, is ordered by signal strength, and every
    entry comes from one of the inputs. For an address that was scanned, the
    entry is the first scanned one, so a fresh reading beats a paired entry;
    for an address only paired, it is the first paired one.
  */
  lemma MergeSpec(scanned: seq<Device>, paired: seq<Device>)
    ensures var m := Merge(scanned, paired);
      DistinctBy(m, Address) &&
      KeysOf(m, Address) == KeysOf(scanned, Address) + KeysOf(paired, Address) &&
      SortedDesc(m, Rssi) &&
      (forall x :: x in m ==> x in scanned || x in paired) &&
      (forall x :: x in m && x.address in KeysOf(scanned, Address) ==> FirstWithAddress(scanned, x)) &&
      (forall x :: x in m && x.address !in KeysOf(scanned, Address) ==> FirstWithAddress(paired, x))
  {
    var all := scanned + paired;
    var d := DistinctByAddress(all);
    var m := Merge(scanned, paired);
    DistinctFromSpec(all, {});
    SortDistinct(d, Rssi, Address);
    AppendKeys(scanned, paired);
    forall x | x in m ensures x in d && FirstWithAddress(all, x) {
      assert x in multiset(m);
    }
    forall x | x in m && x.address in KeysOf(scanned, Address) ensures FirstWithAddress(scanned, x) {
      FirstInPrefix(scanned, paired, x);
    }
    forall x | x in m && x.address !in KeysOf(scanned, Address) ensures FirstWithAddress(paired, x) {
      FirstInSuffix(scanned, paired, x);
    }
  }

  /** The part of the view model that owns the device list. */
  class HomeViewModel {
    var scannedDevices: seq<Device>
    /** The paired devices read when tracking started. */
    var pairedDevices: seq<Device>

    constructor ()
      ensures scannedDevices == [] && pairedDevices == []
    {
      scannedDevices := [];
      pairedDevices := [];
    }

    /**
      The first step of `startTracking`: the paired devices are shown before
      any scan result, or nothing when reading them fails (`None`).
    */
    method StartTracking(paired: Option<seq<Device>>)
      modifies this
      ensures pairedDevices == (if paired.Some? then paired.value else [])
      ensures scannedDevices == pairedDevices
    {
      pairedDevices := if paired.Some? then paired.value else [];
      scannedDevices := pairedDevices;
    }

    /** One list from the scan: the merged list replaces the shown one. */
    method OnScanUpdate(scannedList: seq<Device>)
      modifies this
      ensures pairedDevices == old(pairedDevices)
      ensures scannedDevices == Merge(scannedList, pairedDevices)
    {
      scannedDevices := SortDesc(DistinctByAddress(scannedList + pairedDevices), Rssi);
    }
  }
}
