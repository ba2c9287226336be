# Router device registry — a Dafny model

This project models the in-memory router device registry of
`tests/test_service_infos.py`. It has two classes:

- a `Device` holds an IP address, a model label and a status label. Its
  `update` overwrites the model and the status only when a value is supplied.
- a `RouterDeviceManager` keeps an ordered list of `Device` objects. It can
  add, delete, update, find and list devices. Every lookup goes through one
  linear scan, `_find_device_by_ip`, which returns the first device whose
  address matches.

The model has three modules.

- `DeviceRegistry` (`registry_spec.dfy`) is the value-level specification.
  `DeviceRecord` holds a device's fields. `IndexOf` is the scan: the first
  position whose address matches. `AfterAdd`, `AfterDelete` and `AfterUpdate`
  give the list after each operation. The lemmas state what the source
  promises: the return values, what changes and what stays, and that
  addresses stay unique. `Command`, `Run`, `SuccessfulAdds` and
  `SuccessfulDeletes` extend these facts to any sequence of calls.
- `ServiceInfos` (`service_infos.dfy`) is the imperative model.
  `RouterDeviceManager` holds `devices: seq<Device>`, a list of references.
  `Device` is a class whose `model` and `status` change in place. So
  `update_device` changes the object that the list, and any caller holding a
  `find_device` result, refers to. The class invariant `Valid()` says no two
  devices share an address. Each method is proved against the
  `DeviceRegistry` function for its operation, through the ghost view
  `Contents()`.
- `ServiceInfosTests` (`service_infos_tests.dfy`) restates the four pytest
  scenarios as client methods. Each one's postcondition implies the test's
  assertion. It is proved from the manager's contracts and the
  `DeviceRegistry` lemmas.

Modelling decisions:

- The optional `model=None` / `status=None` arguments become `Option<string>`.
  `None` means "keep". `Some("")` is a supplied value and overwrites the
  field, because the source tests `is not None`.
- `ip` is a `const` field. The source never assigns it after `__init__`.
  Because of this, `Valid()` reads only the manager. It survives a caller
  mutating a `Device` obtained from `find_device`.
- `self.devices.remove(device)` is Python's `list.remove`. It removes the
  first element equal to the argument. `Device` defines no equality, so this
  is the first identical reference. `RemoveFirst` models it, and
  `RemoveFirstAt` proves that it removes the device at the position the scan
  found.
- `if self._find_device_by_ip(ip):` tests a `Device` for truth. A `Device`
  defines neither `__bool__` nor `__len__`, so every device is true and the
  test is the same as "not None". The model writes `!= null`.
- `list_all_devices` prints a table and returns `None`. The model's
  `ListAllDevices` returns the rows it would print, in list order, and changes
  nothing. The code only prints them. The model follows the code: the rows
  are what it prints, not a value it returns.

## Model

| member | source | states |
|---|---|---|
| `DeviceRegistry.IndexOf` | tests/test_service_infos.py:144-157 | the scan yields the first position in list order whose address equals the argument, and None exactly when no device has that address |
| `DeviceRegistry.IndexOfUnique` | tests/test_service_infos.py:144-157 | with unique addresses, the scan finds the one device that has the address |
| `DeviceRegistry.SameIpsSameIndex` | tests/test_service_infos.py:154-157 | the scan's result depends on the addresses alone, not on model or status |
| `DeviceRegistry.PatchedStoresSupplied` | tests/test_service_infos.py:25-30 | update stores a supplied model or status as given, the empty string included, keeps an omitted one, and never changes the address |
| `DeviceRegistry.PatchedNothingIsIdentity` | tests/test_service_infos.py:25-30 | update with neither model nor status leaves the device unchanged |
| `DeviceRegistry.PatchedTwice` | tests/test_service_infos.py:25-30 | two updates in a row equal one update with, per field, the later supplied value |
| `DeviceRegistry.AddDuplicate` | tests/test_service_infos.py:55-58 | adding an address already present leaves the list exactly as it was |
| `DeviceRegistry.AddFresh` | tests/test_service_infos.py:60-64 | adding a fresh address appends exactly one record at the end, keeps the earlier ones in order, and the scan then finds it at the new last position |
| `DeviceRegistry.AddKeepsUnique` | tests/test_service_infos.py:55-64 | add preserves the invariant that no two devices share an address |
| `DeviceRegistry.AddTwice` | tests/test_service_infos.py:55-62 | a second add of the same device fails and leaves the registry as the first add left it |
| `DeviceRegistry.DeletePresent` | tests/test_service_infos.py:76-80 | deleting a present address shortens the list by one, removing exactly the found record and keeping the others in order |
| `DeviceRegistry.DeleteOrUpdateAbsent` | tests/test_service_infos.py:76-104 | deleting or updating an absent address changes nothing |
| `DeviceRegistry.DeleteKeepsUnique` | tests/test_service_infos.py:76-80 | delete preserves address uniqueness |
| `DeviceRegistry.DeleteThenMiss` | tests/test_service_infos.py:195-201 | with unique addresses, a lookup after deleting an address misses |
| `DeviceRegistry.UpdatePresent` | tests/test_service_infos.py:97-101 | updating a present address patches the found record only, keeping its address, the length, the order and every other record |
| `DeviceRegistry.UpdateKeepsIps` | tests/test_service_infos.py:97-101 | an update keeps every address in place, so every later lookup finds the same position |
| `DeviceRegistry.UpdateKeepsUnique` | tests/test_service_infos.py:97-101 | update preserves address uniqueness |
| `DeviceRegistry.UpdateThenFind` | tests/test_service_infos.py:215-224 | after updating a present address, the lookup yields the old record patched with the supplied fields |
| `DeviceRegistry.StepLength` | tests/test_service_infos.py:43-122 | only a successful add grows the list (by one) and only a successful delete shrinks it (by one) |
| `DeviceRegistry.StepKeepsUnique` | tests/test_service_infos.py:43-122 | every public operation preserves address uniqueness |
| `DeviceRegistry.RunLength` | tests/test_service_infos.py:43-122 | after any sequence of calls, the device count is the initial count plus successful adds minus successful deletes |
| `DeviceRegistry.RunKeepsUnique` | tests/test_service_infos.py:43-122 | any sequence of calls keeps addresses unique |
| `ServiceInfos.Device.constructor` | tests/test_service_infos.py:17-20 | a new device holds exactly the given address, model and status |
| `ServiceInfos.Device.Update` | tests/test_service_infos.py:25-30 | the device's new fields are its old fields patched with the supplied values |
| `ServiceInfos.RemoveFirstAt` | tests/test_service_infos.py:78 | removing the first occurrence of a reference cuts the list at that occurrence and keeps the rest in order |
| `ServiceInfos.RemoveFound` | tests/test_service_infos.py:76-78 | removing the device the scan found cuts the list at the scan's position, gives the records AfterDelete describes, and keeps addresses distinct |
| `ServiceInfos.RouterDeviceManager.constructor` | tests/test_service_infos.py:39-41 | a new manager has an empty device list and satisfies the invariant |
| `ServiceInfos.RouterDeviceManager.ValidContents` | tests/test_service_infos.py:55-62 | the class invariant means the records have unique addresses |
| `ServiceInfos.RouterDeviceManager.FindDeviceByIp` | tests/test_service_infos.py:144-157 | the loop returns the device at the scan's first matching position, or null exactly when none matches; nothing is modified |
| `ServiceInfos.RouterDeviceManager.AddDevice` | tests/test_service_infos.py:43-64 | returns True exactly when the address was absent; then exactly one fresh device is appended with earlier references unchanged, otherwise the list is untouched; contents follow AfterAdd; the invariant is kept |
| `ServiceInfos.RouterDeviceManager.DeleteDevice` | tests/test_service_infos.py:66-83 | returns True exactly when the address was present; then the found reference is cut out and the rest keep their order, otherwise the list is untouched; contents follow AfterDelete; the invariant is kept |
| `ServiceInfos.RouterDeviceManager.UpdateDevice` | tests/test_service_infos.py:85-104 | returns True exactly when the address was present; the list of references is unchanged and the contents follow AfterUpdate |
| `ServiceInfos.RouterDeviceManager.FindDevice` | tests/test_service_infos.py:106-122 | returns the very device object at the scan's first matching position, whose fields are the lookup's record, or null exactly on a miss; changes nothing |
| `ServiceInfos.RouterDeviceManager.ListAllDevices` | tests/test_service_infos.py:124-142 | yields exactly the registry's contents: one row per device, in list order, holding its current fields; empty when there are no devices; changes nothing |
| `ServiceInfosTests.TestAddDevice` | tests/test_service_infos.py:173-181 | on a fresh manager the add succeeds and the scan then finds a device holding exactly (a, b, c) |
| `ServiceInfosTests.TestDeleteDevice` | tests/test_service_infos.py:190-201 | add then delete of the same address: the delete succeeds and the scan then misses |
| `ServiceInfosTests.TestUpdateDevice` | tests/test_service_infos.py:210-224 | add then update with the same model and status: the update succeeds and the device holds model b and status c |
| `ServiceInfosTests.TestFindDevice` | tests/test_service_infos.py:233-246 | after one add, the list holding find_device's result equals the manager's device list |

## Left out

- Console output: `Device.__str__` and every `print` call. This includes the padded table of `list_all_devices`. The printing is formatting only, and `ListAllDevices` models the rows without the layout.
- The pytest and allure decorators, the `activate_device` fixture and the `csv_read` parametrisation of the tests. Loading the rows from CSV files is I/O. The rows `(a, b, c)` become method parameters, and the model covers every possible row.
- `commons.csv_utils` is not part of this model.
- `conftest.py`: its session fixtures only print timestamps around a `yield`.
- `system_log_analyse.py`: file reading, regex counting through the `re` library, JSON output and printing. It is outside the registry and is all I/O or library behaviour.
- Python's dynamic typing: the source accepts any value as `ip`, `model` or `status`. The model uses strings, which is what the CSV-driven tests pass.
