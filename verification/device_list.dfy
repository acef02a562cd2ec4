/** The global device list and the minor numbers it hands out. */
module DeviceList {

  class Device {
    var majorIndex: nat
    var minorIndex: nat

    constructor ()
      ensures majorIndex == 0 && minorIndex == 0
    {
      majorIndex, minorIndex := 0, 0;
    }
  }

  // ----- the numbers

  predicate Increasing(ms: seq<nat>) { forall i, j :: 0 <= i < j < |ms| ==> ms[i] < ms[j] }

  /** The first position whose number is not the position itself. */
  function FirstGap(ms: seq<nat>): (k: nat)
    ensures k <= |ms|
    ensures forall i :: 0 <= i < k ==> ms[i] == i
    ensures k < |ms| ==> ms[k] != k
  {
    GapFrom(ms, 0)
  }

  function GapFrom(ms: seq<nat>, i: nat): (k: nat)
    requires i <= |ms| && forall j :: 0 <= j < i ==> ms[j] == j
    ensures i <= k <= |ms|
    ensures forall j :: 0 <= j < k ==> ms[j] == j
    ensures k < |ms| ==> ms[k] != k
    decreases |ms| - i
  {
    if i < |ms| && ms[i] == i then GapFrom(ms, i + 1) else i
  }

  lemma GapIs(ms: seq<nat>, k: nat)
    requires k <= |ms| && (forall i :: 0 <= i < k ==> ms[i] == i) && (k < |ms| ==> ms[k] != k)
    ensures FirstGap(ms) == k
  {
    var g := FirstGap(ms);
    assert g < |ms| ==> ms[g] != g;
  }

  /** The numbers in use after an insertion. */
  function Inserted(ms: seq<nat>): seq<nat> {
    var k := FirstGap(ms);
    ms[..k] + [k] + ms[k..]
  }

  predicate SmallestFree(ms: seq<nat>, m: nat) { m !in ms && forall x: nat :: x < m ==> x in ms }

  lemma {:induction false} AtLeastPosition(ms: seq<nat>, i: nat)
    requires Increasing(ms) && i < |ms|
    ensures ms[i] >= i
    decreases i
  {
    if i > 0 {
      AtLeastPosition(ms, i - 1);
    }
  }

  lemma AboveGap(ms: seq<nat>, i: nat)
    requires Increasing(ms) && FirstGap(ms) <= i < |ms|
    ensures ms[i] > FirstGap(ms)
  {
    var k := FirstGap(ms);
    AtLeastPosition(ms, k);
    assert ms[k] != k;
  }

  lemma GapIsSmallestFree(ms: seq<nat>)
    requires Increasing(ms)
    ensures SmallestFree(ms, FirstGap(ms))
  {
    var k := FirstGap(ms);
    forall i | 0 <= i < |ms|
      ensures ms[i] != k
    {
      if i >= k {
        AboveGap(ms, i);
      }
    }
    forall x: nat | x < k
      ensures x in ms
    {
      assert ms[x] == x;
    }
  }

  lemma InsertedIncreasing(ms: seq<nat>)
    requires Increasing(ms)
    ensures Increasing(Inserted(ms))
  {
    var k := FirstGap(ms);
    forall i | k <= i < |ms|
      ensures ms[i] > k
    {
      AboveGap(ms, i);
    }
  }

  /** The gap found is the smallest number not in use, and is at most the number of devices; the
      list stays increasing. */
  lemma InsertedProperties(ms: seq<nat>)
    requires Increasing(ms)
    ensures SmallestFree(ms, FirstGap(ms)) && FirstGap(ms) <= |ms|
    ensures Increasing(Inserted(ms)) && multiset(Inserted(ms)) == multiset(ms) + multiset{FirstGap(ms)}
  {
    hide Increasing, SmallestFree;
    GapIsSmallestFree(ms);
    InsertedIncreasing(ms);
    assert ms == ms[..FirstGap(ms)] + ms[FirstGap(ms)..];
  }

  lemma RemovalKeepsOrder(ms: seq<nat>, i: nat)
    requires Increasing(ms) && i < |ms|
    ensures Increasing(ms[..i] + ms[i + 1..])
  {
  }

  datatype Operation = Insert | Remove(position: nat)

  /** The numbers in use after a history of insertions and removals; a removal beyond the list is
      the null device. */
  function After(history: seq<Operation>): seq<nat> {
    if history == [] then []
    else
      var ms := After(history[..|history| - 1]);
      match history[|history| - 1]
      case Insert => Inserted(ms)
      case Remove(i) => if i < |ms| then ms[..i] + ms[i + 1..] else ms
  }

  /** After every history the list is strictly increasing, and the next insertion hands out the
      smallest free number, at most the number of live devices. */
  lemma {:induction false} EveryHistory(history: seq<Operation>)
    ensures Increasing(After(history))
    ensures After(history + [Insert]) == Inserted(After(history))
    ensures SmallestFree(After(history), FirstGap(After(history))) && FirstGap(After(history)) <= |After(history)|
    decreases |history|
  {
    hide FirstGap, Increasing, Inserted, SmallestFree;
    if history == [] {
      NothingInUse();
    } else {
      var before := history[..|history| - 1];
      EveryHistory(before);
      InsertedProperties(After(before));
      match history[|history| - 1] {
        case Insert =>
        case Remove(i) =>
          if i < |After(before)| {
            RemovalKeepsOrder(After(before), i);
          }
      }
    }
    assert (history + [Insert])[..|history|] == history;
    InsertedProperties(After(history));
  }

  lemma NothingInUse()
    ensures Increasing([])
  {
  }

  // ----- the list

  predicate Distinct(ds: seq<Device>) { forall i, j :: 0 <= i < j < |ds| ==> ds[i] != ds[j] }

  lemma DistinctInsert(ds: seq<Device>, k: nat, d: Device)
    requires Distinct(ds) && k <= |ds| && d !in ds
    ensures Distinct(ds[..k] + [d] + ds[k..])
  {
  }

  class Registry {
    const majorIndex: nat
    var devices: seq<Device>

    constructor (majorIndex: nat)
      ensures this.majorIndex == majorIndex && devices == [] && Valid()
    {
      this.majorIndex, devices := majorIndex, [];
    }

    function Minors(): (ms: seq<nat>)
      reads this, devices
      ensures |ms| == |devices|
    {
      seq(|devices|, i requires 0 <= i < |devices| reads this, devices => devices[i].minorIndex)
    }

    predicate Valid()
      reads this, devices
    {
      && Distinct(devices)
      && Increasing(Minors())
    }

    /** memx_get_device_by_index. */
    method GetByIndex(index: nat) returns (target: Device?)
      requires Valid()
      ensures target == null ==> index !in Minors()
      ensures target != null ==> target in devices && target.minorIndex == index
      ensures forall d :: d in devices && d.minorIndex == index ==> d == target
    {
      target := null;
      for i := 0 to |devices|
        invariant forall k :: 0 <= k < i ==> devices[k].minorIndex != index
      {
        if devices[i].minorIndex == index {
          target := devices[i];
          assert Minors()[i] == index;
          forall d | d in devices && d.minorIndex == index
            ensures d == target
          {
            var k :| 0 <= k < |devices| && devices[k] == d;
            assert Minors()[k] == index;
          }
          return;
        }
      }
    }

    /** memx_insert_device. The major number is not set on the path that hands out 0. */
    method Insert(device: Device)
      requires Valid() && device !in devices
      modifies this`devices, device
      ensures Valid()
      ensures device.minorIndex == FirstGap(old(Minors())) && Minors() == Inserted(old(Minors()))
      ensures var k := FirstGap(old(Minors())); devices == old(devices)[..k] + [device] + old(devices)[k..]
      ensures device.majorIndex == if device.minorIndex == 0 then old(device.majorIndex) else majorIndex
    {
      ghost var ms := Minors();
      if devices == [] || devices[0].minorIndex > 0 {
        GapIs(ms, 0);
        Link(device, 0);
        return;
      }
      var current := 0;
      var index := devices[0].minorIndex + 1;
      while current + 1 < |devices| && index == devices[current + 1].minorIndex
        invariant 0 <= current < |devices|
        invariant index == current + 1
        invariant forall i :: 0 <= i <= current ==> ms[i] == i
      {
        current := current + 1;
        index := devices[current].minorIndex + 1;
      }
      GapIs(ms, index);
      device.majorIndex := majorIndex;
      Link(device, index);
    }

    /** Setting the number and list_add at the position found. */
    method Link(device: Device, k: nat)
      requires Valid() && device !in devices && k == FirstGap(Minors())
      modifies this`devices, device`minorIndex
      ensures Valid() && device.minorIndex == k
      ensures Minors() == Inserted(old(Minors()))
      ensures devices == old(devices)[..k] + [device] + old(devices)[k..]
    {
      hide FirstGap, Distinct, Increasing, SmallestFree;
      ghost var ms := Minors();
      InsertedProperties(ms);
      DistinctInsert(devices, k, device);
      device.minorIndex := k;
      devices := devices[..k] + [device] + devices[k..];
      var now := Minors();
      forall i | 0 <= i < |now|
        ensures now[i] == (ms[..k] + [k] + ms[k..])[i]
      {
        if i < k {
          assert devices[i] == old(devices)[i];
        } else if i > k {
          assert devices[i] == old(devices)[i - 1];
        }
      }
      assert now == Inserted(ms);
    }

    /** memx_pcie_remove_device. */
    method Remove(device: Device?)
      requires Valid() && (device != null ==> device in devices)
      modifies this`devices
      ensures Valid()
      ensures device == null ==> devices == old(devices)
      ensures device != null ==> device !in devices && |devices| == old(|devices|) - 1
      ensures device != null ==> exists i :: 0 <= i < |old(devices)| && old(devices)[i] == device && devices == old(devices)[..i] + old(devices)[i + 1..]
    {
      if device != null {
        var i :| 0 <= i < |devices| && devices[i] == device;
        RemovalKeepsOrder(Minors(), i);
        ghost var ms := Minors();
        devices := devices[..i] + devices[i + 1..];
        assert Minors() == ms[..i] + ms[i + 1..];
      }
    }
  }
}
