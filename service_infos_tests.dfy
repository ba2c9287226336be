/**
 * The scenarios of TestRouterDeviceManager, each on a fresh manager with one
 * parametrised row (a, b, c) = (ip, model, status).  Each method returns what
 * the test asserts on, and its postcondition is the test's assertion, proved
 * from the manager's contracts alone.
 */
module ServiceInfosTests {
  import opened DeviceRegistry
  import opened ServiceInfos

  /** test_add_device: after adding (a, b, c), the scan finds a device, and it holds (a, b, c). */
  method TestAddDevice(a: string, b: string, c: string) returns (added: bool, found: Device?)
    ensures added
    ensures found != null && found.Record() == DeviceRecord(a, b, c)
  {
    var manager := new RouterDeviceManager();
    added := manager.AddDevice(a, b, c);
    AddFresh([], DeviceRecord(a, b, c));
    found := manager.FindDeviceByIp(a);
  }

  /** test_delete_device: after adding and deleting `a`, the scan misses. */
  method TestDeleteDevice(a: string, b: string, c: string) returns (deleted: bool, found: Device?)
    ensures deleted
    ensures found == null
  {
    var manager := new RouterDeviceManager();
    var _ := manager.AddDevice(a, b, c);
    AddFresh([], DeviceRecord(a, b, c));
    deleted := manager.DeleteDevice(a);
    DeleteThenMiss([DeviceRecord(a, b, c)], a);
    found := manager.FindDeviceByIp(a);
  }

  /** test_update_device: after adding and updating with the same model and status, the device holds them. */
  method TestUpdateDevice(a: string, b: string, c: string) returns (updated: bool, model: string, status: string)
    ensures updated
    ensures model == b && status == c
  {
    var manager := new RouterDeviceManager();
    var _ := manager.AddDevice(a, b, c);
    AddFresh([], DeviceRecord(a, b, c));
    updated := manager.UpdateDevice(a, Some(b), Some(c));
    UpdateThenFind([DeviceRecord(a, b, c)], a, Some(b), Some(c));
    var device := manager.FindDeviceByIp(a);
    model, status := device.model, device.status;
  }

  /** test_find_device: the one-element list holding find_device's result equals the manager's list. */
  method TestFindDevice(a: string, b: string, c: string) returns (found: seq<Device?>, stored: seq<Device?>)
    ensures found == stored
  {
    var manager := new RouterDeviceManager();
    var _ := manager.AddDevice(a, b, c);
    AddFresh([], DeviceRecord(a, b, c));
    var device := manager.FindDevice(a);
    found := [device];
    stored := manager.devices;
  }
}
