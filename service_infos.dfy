/**
 * The router device manager of tests/test_service_infos.py: a Device object
 * with a partial update, and a manager holding an ordered list of Device
 * references with add, delete, update, find and list operations, every
 * lookup going through one linear scan by IP address.
 */
module ServiceInfos {
  import opened DeviceRegistry

  /** One device.  Its address is fixed at creation; model and status are updated in place. */
  class Device {
    const ip: string
    var model: string
    var status: string

    constructor (ip: string, model: string, status: string)
      ensures Record() == DeviceRecord(ip, model, status)
    {
      this.ip := ip;
      this.model := model;
      this.status := status;
    }

    /** The device's current fields as a value. */
    function Record(): DeviceRecord
      reads this
    {
      DeviceRecord(ip, model, status)
    }

    /** Overwrites the model and the status that are supplied (Some), keeps those that are not (None). */
    method Update(model: Option<string>, status: Option<string>)
      modifies this
      ensures Record() == Patched(old(Record()), model, status)
    {
      if model.Some? {
        this.model := model.value;
      }
      if status.Some? {
        this.status := status.value;
      }
    }
  }

  /** The current fields of a list of devices, in list order. */
  ghost function Records(ds: seq<Device>): seq<DeviceRecord>
    reads ds
  {
    seq(|ds|, i requires 0 <= i < |ds| reads ds => ds[i].Record())
  }

  /**
   * Python's list.remove: the list without its first element equal to `x`
   * (for Device objects, which define no equality, the first identical one).
   */
  function RemoveFirst<T(==)>(s: seq<T>, x: T): seq<T>
  {
    if s == [] then []
    else if s[0] == x then s[1..]
    else [s[0]] + RemoveFirst(s[1..], x)
  }

  /** Removing the first occurrence of `x` cuts the list at that occurrence and keeps the rest in order. */
  lemma {:induction false} RemoveFirstAt<T>(s: seq<T>, x: T, k: nat)
    requires k < |s| && s[k] == x
    requires forall j :: 0 <= j < k ==> s[j] != x
    ensures RemoveFirst(s, x) == s[..k] + s[k + 1..]
  {
    if k > 0 {
      RemoveFirstAt(s[1..], x, k - 1);
      assert s[1..][..k - 1] + s[1..][k..] == s[1..k] + s[k + 1..];
      assert [s[0]] + s[1..k] == s[..k];
    }
  }

  /** Appending a device appends its record. */
  lemma RecordsAppend(ds: seq<Device>, d: Device)
    ensures Records(ds + [d]) == Records(ds) + [d.Record()]
  {
  }

  /** Cutting one device out of a list cuts its record out of the list's records. */
  lemma RecordsWithout(ds: seq<Device>, k: nat)
    requires k < |ds|
    ensures Records(ds[..k] + ds[k + 1..]) == Records(ds)[..k] + Records(ds)[k + 1..]
  {
  }

  /** Cutting one device out of a list whose addresses are distinct leaves them distinct. */
  lemma CutKeepsDistinctIps(ds: seq<Device>, k: nat)
    requires k < |ds|
    requires forall i, j :: 0 <= i < j < |ds| ==> ds[i].ip != ds[j].ip
    ensures var cut := ds[..k] + ds[k + 1..];
      forall i, j :: 0 <= i < j < |cut| ==> cut[i].ip != cut[j].ip
  {
  }

  /**
   * Removing the device the scan found for `ip` from a list with distinct
   * addresses: the list is cut at that device, the records follow AfterDelete,
   * and the addresses stay distinct.
   */
  lemma RemoveFound(ds: seq<Device>, device: Device, ip: string)
    requires forall i, j :: 0 <= i < j < |ds| ==> ds[i].ip != ds[j].ip
    requires IndexOf(Records(ds), ip).Some? && device == ds[IndexOf(Records(ds), ip).value]
    ensures var k := IndexOf(Records(ds), ip).value;
      RemoveFirst(ds, device) == ds[..k] + ds[k + 1..]
    ensures Records(RemoveFirst(ds, device)) == AfterDelete(Records(ds), ip)
    ensures var cut := RemoveFirst(ds, device);
      forall i, j :: 0 <= i < j < |cut| ==> cut[i].ip != cut[j].ip
  {
    var k := IndexOf(Records(ds), ip).value;
    RemoveFirstAt(ds, device, k);
    RecordsWithout(ds, k);
    CutKeepsDistinctIps(ds, k);
  }

  class RouterDeviceManager {
    var devices: seq<Device>

    /** No two devices in the list share an address. */
    ghost predicate Valid()
      reads this
    {
      forall i, j :: 0 <= i < j < |devices| ==> devices[i].ip != devices[j].ip
    }

    /** The registry's contents as values, in list order. */
    ghost function Contents(): seq<DeviceRecord>
      reads this, devices
    {
      Records(devices)
    }

    constructor ()
      ensures Valid() && devices == [] && Contents() == []
    {
      devices := [];
    }

    /** The unique-address invariant, read on the contents. */
    lemma ValidContents()
      requires Valid()
      ensures UniqueIps(Contents())
    {
    }

    /** _find_device_by_ip: the first device in list order whose address is `ip`, or null. */
    method FindDeviceByIp(ip: string) returns (d: Device?)
      ensures d == null <==> IndexOf(Contents(), ip).None?
      ensures d != null ==> d == devices[IndexOf(Contents(), ip).value]
    {
      for i := 0 to |devices|
        invariant forall j :: 0 <= j < i ==> Contents()[j].ip != ip
      {
        if devices[i].ip == ip {
          assert Contents()[i].ip == ip;
          return devices[i];
        }
      }
      return null;
    }

    /** add_device: appends a new device unless the address is already present. */
    method AddDevice(ip: string, model: string, status: string) returns (ok: bool)
      requires Valid()
      modifies this
      ensures Valid()
      ensures ok <==> IndexOf(old(Contents()), ip).None?
      ensures Contents() == AfterAdd(old(Contents()), DeviceRecord(ip, model, status))
      ensures !ok ==> devices == old(devices)
      ensures ok ==> |devices| == |old(devices)| + 1 && devices[..|old(devices)|] == old(devices)
                     && fresh(devices[|old(devices)|])
    {
      var existing := FindDeviceByIp(ip);
      if existing != null {
        return false;
      }
      ghost var before, records := devices, Contents();
      forall j | 0 <= j < |before|
        ensures before[j].ip != ip
      {
        assert records[j].ip != ip;
      }
      var device := new Device(ip, model, status);
      assert Records(before) == records;
      devices := devices + [device];
      assert devices[..|before|] == before;
      assert Contents() == records + [device.Record()] by {
        RecordsAppend(before, device);
      }
      return true;
    }

    /** delete_device: removes the device found by the scan, if any. */
    method DeleteDevice(ip: string) returns (ok: bool)
      requires Valid()
      modifies this
      ensures Valid()
      ensures ok <==> IndexOf(old(Contents()), ip).Some?
      ensures Contents() == AfterDelete(old(Contents()), ip)
      ensures !ok ==> devices == old(devices)
      ensures ok ==> var k := IndexOf(old(Contents()), ip).value;
                     devices == old(devices)[..k] + old(devices)[k + 1..]
    {
      var device := FindDeviceByIp(ip);
      if device == null {
        return false;
      }
      RemoveFound(devices, device, ip);
      devices := RemoveFirst<Device>(devices, device);
      return true;
    }

    /** update_device: patches the device found by the scan, if any; the list itself is untouched. */
    method UpdateDevice(ip: string, model: Option<string>, status: Option<string>) returns (ok: bool)
      requires Valid()
      modifies devices
      ensures Valid() && devices == old(devices)
      ensures ok <==> IndexOf(old(Contents()), ip).Some?
      ensures Contents() == AfterUpdate(old(Contents()), ip, model, status)
    {
      var device := FindDeviceByIp(ip);
      if device == null {
        return false;
      }
      ghost var k := IndexOf(Contents(), ip).value;
      device.Update(model, status);
      forall j | 0 <= j < |devices| && j != k
        ensures devices[j].Record() == old(devices[j].Record())
      {
        assert devices[j].ip != devices[k].ip;
      }
      assert Contents() == old(Contents())[k := Patched(old(Contents())[k], model, status)];
      return true;
    }

    /** find_device: the device with address `ip`, or null on a miss; the registry is not changed. */
    method FindDevice(ip: string) returns (d: Device?)
      ensures d == null <==> Found(Contents(), ip) == None
      ensures d != null ==> d in devices && Found(Contents(), ip) == Some(d.Record())
      ensures d != null ==> d == devices[IndexOf(Contents(), ip).value]
    {
      d := FindDeviceByIp(ip);
    }

    /** list_all_devices: the rows it prints, one per device in list order (empty when there are none). */
    method ListAllDevices() returns (rows: seq<DeviceRecord>)
      ensures rows == Contents()
    {
      rows := [];
      if devices == [] {
        return;
      }
      for i := 0 to |devices|
        invariant |rows| == i
        invariant forall j :: 0 <= j < i ==> rows[j] == devices[j].Record()
      {
        rows := rows + [devices[i].Record()];
      }
      assert rows == Contents();
    }
  }
}
