# ZiGate attribute binder in Dafny

This project models the entity platforms of the ZiGate integration for Home Assistant:
the `sync_attributes` pass each platform runs over the driver's device list, and the
sensor, switch and binary-sensor entities that pass creates.

- **The binder.** Each platform walks the devices in order and, within a device, its
  attribute records or its `available_actions()`. It filters them by its own rules and
  derives a registry key for each survivor. It creates an entity only when that key is
  absent from the registry dictionary `hass.data[DATA_ZIGATE_ATTRS]`, which all three
  platforms share.
  - `Binder.Created` states one such pass as a function of the keys already registered
    and the ordered candidates.
  - Each platform's `SyncAttributes` is an imperative method over an `AttrRegistry`
    object whose `entries` map it updates in place. It is proved to leave the registry
    holding exactly the old entries plus one new entity per key that `Created` selects.
  - Lemmas then prove filter soundness and completeness, "no key is overwritten",
    "at most one entity per key" and idempotence (a second pass creates nothing) for
    that function.
- **The entities.**
  - `ZiGateSensor` and `ZiGateSwitch` are classes with a mutable cached state.
    `ZiGateBinarySensor` is fixed at construction and is therefore a datatype.
  - The event handlers, the optimistic `turn_on`, `turn_off` and `toggle`, and the
    derived `unique_id`, `name` and `device_state_attributes` are modelled with the
    exact key and text formats. Decimal and `0x%0Nx` formatting are written out in
    `Text` and proved to read back.
- **Modules.**
  - `Values`: Python values and truthiness.
  - `Text`: number formatting.
  - `Driver`: devices, records, events and on/off commands, as the driver hands them over.
  - `Keys`: the registry key formats and their injectivity.
  - `Binder`: the generic pass.
  - `SensorEntity`, `SwitchEntity`, `BinarySensorEntity`: the entities.
  - `Registry`: the shared dictionary.
  - `SensorPlatform`, `SwitchPlatform`, `BinarySensorPlatform`: the three
    `sync_attributes` passes.
- **Which platform takes a record.**
  - A boolean record in cluster 0 gets no binary sensor: the binary-sensor platform skips
    cluster 0 (`binary_sensor/zigate.py:25-26`).
  - The switch platform reads endpoint action lists, independently of the attribute
    records. The sensor platform skips every device with a non-empty action list
    (`custom_components/zigate/sensor.py:34-36`). A device with actions therefore gets
    switches and binary sensors but never sensors.
  - The sensor entity classifies its name with the device-class cascade exactly as
    written, so a `battery` record gets no class (see "## Findings"). The corrected
    cascade is defined beside it, and its difference is proved.

## Model

| member | source | states |
|---|---|---|
| Values.Negate | custom_components/zigate/switch.py:117 | `not is_on` is always a bool, with the opposite truthiness of the old state |
| Values.NegateTwice | custom_components/zigate/switch.py:115-117 | negating twice restores the truthiness, and restores a bool state exactly |
| Values.OptStr | custom_components/zigate/sensor.py:147 | the `ieee` entry is `None` exactly when the device has no ieee, else that string |
| Values.OptStrText | custom_components/zigate/sensor.py:129-130 | `'{}'.format` of a missing name writes `None`, of a present one the name itself |
| Driver.GetValue | custom_components/zigate/sensor.py:46 | `attribute.get('value')` is `None` when the key is missing, else the stored value |
| Driver.Identity | custom_components/zigate/sensor.py:33 | `ieee or addr`: the ieee when it is a non-empty string, otherwise the short address |
| Driver.GetAttribute | custom_components/zigate/switch.py:56 | the result addresses the requested endpoint/cluster/attribute and is a record of the device; it is absent exactly when no record matches |
| Text.Decimal | custom_components/zigate/sensor.py:41-45 | `'{}'.format(n)` is a non-empty run of decimal digits with no dash |
| Text.ParseDigits | custom_components/zigate/sensor.py:41-45 | the digits of `n` read back as `n` in any base from 2 to 16 |
| Text.DecimalInjective | custom_components/zigate/sensor.py:41-45 | two numbers with the same decimal text are equal |
| Text.Hex | custom_components/zigate/sensor.py:148-150 | `'0x{:0Nx}'` starts with `0x`, followed by at least N lower-case hexadecimal digits |
| Text.HexRoundTrip | custom_components/zigate/sensor.py:148-150 | the digits after `0x` read back in base 16 as the formatted number |
| Text.ParsePadZeros | custom_components/zigate/sensor.py:148-150 | zero padding to the field width does not change the value read back |
| Text.HexWidth | custom_components/zigate/sensor.py:148 | a number below 16^N fills exactly N digits after `0x` |
| Keys.AttrKeyInjective | custom_components/zigate/sensor.py:41-45 | two `'{}-{}-{}-{}'` keys are equal only when identity, endpoint, cluster and attribute all are |
| Keys.SwitchKeyInjective | custom_components/zigate/switch.py:32 | two `'{}-switch-{}'` keys are equal only when identity and endpoint are |
| Keys.SwitchKeyNotAttrKey | custom_components/zigate/switch.py:32 | a switch key never equals a sensor or binary-sensor key in the shared registry |
| Binder.CreatedStep | custom_components/zigate/sensor.py:49-58 | one more candidate is created exactly when its key is neither registered nor created earlier in the pass |
| Binder.CreatedFromCandidates | custom_components/zigate/sensor.py:49-58 | every created entity comes from a candidate |
| Binder.CreatedFresh | custom_components/zigate/sensor.py:49-50 | no created entity goes under a key the registry already held |
| Binder.CreatedDistinct | custom_components/zigate/sensor.py:49-58 | a pass creates at most one entity per key |
| Binder.CreatedCovers | custom_components/zigate/sensor.py:49-58 | after a pass every candidate key is registered, old or new |
| Binder.CreatedFirstOccurrence | custom_components/zigate/sensor.py:49-58 | a candidate with a free key that no earlier candidate shares is created, so the first candidate for a key wins |
| Binder.CreatedNothingWhenKnown | custom_components/zigate/sensor.py:49-50 | when every candidate key is registered, nothing is created |
| Binder.Idempotent | custom_components/zigate/sensor.py:49-50 | a second pass over the same candidates after the first creates nothing |
| SensorEntity.FirstMatch | custom_components/zigate/sensor.py:83-92 | the class is that of a keyword found in the name; with no empty class in the table, it is "none" exactly when no keyword is found |
| SensorEntity.FirstMatchOfFive | custom_components/zigate/sensor.py:83-92 | a five-keyword table read first-match is the if/elif cascade |
| SensorEntity.DeviceClassAsWritten | custom_components/zigate/sensor.py:83-92 | the cascade as written is the first-match table whose fifth keyword is `pressure` again |
| SensorEntity.DeviceClassOf | custom_components/zigate/sensor.py:83-92 | the corrected cascade is first match over temperature, humidity, luminosity, pressure, battery |
| SensorEntity.AsWrittenDiffersOnlyOnBattery | custom_components/zigate/sensor.py:83-92 | the cascade as written agrees with the corrected one on every name, except that names the corrected one calls a battery get no class |
| SensorEntity.AsWrittenNeverBattery | custom_components/zigate/sensor.py:89-92 | as written, no name ever yields the battery class |
| SensorEntity.BatteryLevelClass | custom_components/zigate/sensor.py:89-92 | the name `battery` gets no class as written and the battery class once corrected |
| SensorEntity.BatteryAssigned | custom_components/zigate/sensor.py:83-92 | corrected: a name with `battery` and none of the earlier keywords is a battery |
| SensorEntity.ZiGateSensor.constructor | custom_components/zigate/sensor.py:70-82 | keeps device and record; the state is the record's value, or `unavailable` without a value key |
| SensorEntity.ZiGateSensor.Class | custom_components/zigate/sensor.py:83-92 | `device_class` is the first-match class of the record's name with `pressure` repeated, and never the battery class |
| SensorEntity.ZiGateSensor.HandleEvent | custom_components/zigate/sensor.py:94-102 | the state becomes the event value when ieee, endpoint, cluster and attribute all match, and is unchanged otherwise |
| SensorEntity.ZiGateSensor.UniqueId | custom_components/zigate/sensor.py:107-114 | defined exactly when the ieee is truthy, and then equal to the key the sensor platform stores the sensor under |
| SensorEntity.ZiGateSensor.Name | custom_components/zigate/sensor.py:126-130 | the attribute name (or `None`), one space, then the device's text |
| SensorEntity.ZiGateSensor.DeviceStateAttributes | custom_components/zigate/sensor.py:142-155 | keys are addr, ieee, endpoint, cluster, attribute plus a dict state's keys; dict entries win; every base entry the dict does not override is addr, ieee, the endpoint as `0x%02x`, cluster and attribute as `0x%04x` |
| SwitchEntity.InitialIsOn | custom_components/zigate/switch.py:55-58 | `False` when the endpoint has no on/off record; when it has one, the `value` of such a record, or `False` when that record has no value |
| SwitchEntity.ZiGateSwitch.constructor | custom_components/zigate/switch.py:50-58 | keeps device and endpoint, with the initial on/off state read from the device |
| SwitchEntity.ZiGateSwitch.HandleEvent | custom_components/zigate/switch.py:64-71 | the state becomes the event value only for this ieee and endpoint and cluster 6 attribute 0; any other event leaves it unchanged |
| SwitchEntity.ZiGateSwitch.TurnOn | custom_components/zigate/switch.py:101-106 | the state is `True` and the driver is sent mode 1 for this address and endpoint |
| SwitchEntity.ZiGateSwitch.TurnOff | custom_components/zigate/switch.py:108-113 | the state is `False` and the driver is sent mode 0 for this address and endpoint |
| SwitchEntity.ZiGateSwitch.Toggle | custom_components/zigate/switch.py:115-120 | the state is `not` the old state and the driver is sent mode 2 |
| SwitchEntity.ZiGateSwitch.UniqueId | custom_components/zigate/switch.py:76-80 | defined exactly when the ieee is truthy, and then equal to the switch's registry key |
| SwitchEntity.ZiGateSwitch.Name | custom_components/zigate/switch.py:90-94 | the device's text, one space, then exactly the decimal text of the endpoint, which reads back as the endpoint |
| SwitchEntity.ZiGateSwitch.DeviceStateAttributes | custom_components/zigate/switch.py:122-129 | keys are addr, ieee and endpoint; the endpoint field is exactly `0x{:02x}`, i.e. `0x` and hexadecimal digits that read back as the endpoint |
| SwitchEntity.ToggleTwice | custom_components/zigate/switch.py:115-120 | two toggles restore the on/off reading (a bool state exactly) and send mode 2 twice |
| BinarySensorEntity.ZiGateBinarySensor.IsOn | binary_sensor/zigate.py:79-85 | the current value of the device's record with this address; absent exactly when the device has no such record |
| BinarySensorEntity.ZiGateBinarySensor.DeviceStateAttributes | binary_sensor/zigate.py:87-96 | keys are addr, endpoint, cluster, attribute, with the raw integers |
| BinarySensorEntity.NewBinarySensor | binary_sensor/zigate.py:52-63 | the name is `zigate_{addr}_{name}` and the unique id is the registry key it is stored under |
| Registry.WellKeyedInsert | custom_components/zigate/sensor.py:58 | storing an entity under its own key keeps every entry under the key its platform derives |
| Registry.SensorEventReachesOne | custom_components/zigate/sensor.py:94-100 | an event with an ieee matches at most one registered sensor |
| Registry.SwitchEventReachesOne | custom_components/zigate/switch.py:64-68 | an event with an ieee concerns at most one registered switch |
| Registry.SwitchNeverUnderSensorKey | custom_components/zigate/switch.py:32 | a registered switch's key is never any sensor's or binary sensor's key |
| SensorPlatform.RecordCandidatesSound | custom_components/zigate/sensor.py:37-58 | every candidate of a device is an eligible record of it, bound to its key |
| SensorPlatform.CandidatesSound | custom_components/zigate/sensor.py:32-58 | every candidate is a cluster >= 5, named, non-None, non-bool, non-dict record of a listed device without actions |
| SensorPlatform.RecordCandidatesComplete | custom_components/zigate/sensor.py:37-58 | every eligible record of a device is among its candidates |
| SensorPlatform.CandidatesComplete | custom_components/zigate/sensor.py:32-58 | every eligible record of a listed device is a candidate |
| SensorPlatform.PassSound | custom_components/zigate/sensor.py:34-58 | a created sensor is eligible, on a device without actions, under its record's key, which was free |
| SensorPlatform.PassComplete | custom_components/zigate/sensor.py:32-58 | after a pass every eligible record's key is registered |
| SensorPlatform.RegisteredStep | custom_components/zigate/sensor.py:56-58 | storing a new sensor under a free key extends the registry by exactly that entry |
| SensorPlatform.RegisteredWellKeyed | custom_components/zigate/sensor.py:41-58 | after a pass every registry entry still sits under the key its platform derives |
| SensorPlatform.SyncRecord | custom_components/zigate/sensor.py:38-58 | one record: registered exactly as the pass function says; a new sensor is built from this record, starts from its value and has the class of the cascade as written; old entries kept |
| SensorPlatform.SyncDevice | custom_components/zigate/sensor.py:33-58 | one device: skipped when it has actions, otherwise its records in order |
| SensorPlatform.SyncDevices | custom_components/zigate/sensor.py:32-58 | the walk registers exactly the sensors the pass function selects, all new objects |
| SensorPlatform.SyncAttributes | custom_components/zigate/sensor.py:30-60 | the registry gains one new sensor per selected candidate, in order, each built from a named record of its device, and keeps every old entry |
| SensorPlatform.SyncTwice | custom_components/zigate/sensor.py:49-50 | a second pass over unchanged devices creates no sensor; the registry ends as exactly the old entries plus the first pass's new sensors |
| SwitchPlatform.EndpointCandidatesSound | custom_components/zigate/switch.py:30-32 | every candidate is an endpoint whose action list is exactly `[onoff]`, bound to its key |
| SwitchPlatform.CandidatesSound | custom_components/zigate/switch.py:25-32 | every candidate is an on/off-only endpoint of a listed device, under its switch key |
| SwitchPlatform.EndpointCandidatesComplete | custom_components/zigate/switch.py:30-32 | every on/off-only endpoint of a device is among its candidates |
| SwitchPlatform.CandidatesComplete | custom_components/zigate/switch.py:25-32 | every on/off-only endpoint of a listed device is a candidate |
| SwitchPlatform.SkipIsRedundant | custom_components/zigate/switch.py:27-31 | a device without actions has no on/off-only endpoint, so the device skip changes nothing |
| SwitchPlatform.SwitchExcludesSensors | custom_components/zigate/switch.py:27-31 | a device with a switch endpoint contributes no sensor candidate |
| SwitchPlatform.PassSound | custom_components/zigate/switch.py:25-38 | a created switch is for an on/off-only endpoint, under its key, which was free |
| SwitchPlatform.PassComplete | custom_components/zigate/switch.py:25-38 | after a pass every on/off-only endpoint's key is registered |
| SwitchPlatform.RegisteredStep | custom_components/zigate/switch.py:36-38 | storing a new switch under a free key extends the registry by exactly that entry |
| SwitchPlatform.RegisteredWellKeyed | custom_components/zigate/switch.py:32-38 | after a pass every registry entry still sits under the key its platform derives |
| SwitchPlatform.SyncEndpoint | custom_components/zigate/switch.py:30-38 | one endpoint: registered exactly as the pass function says, a new switch starting from its on/off record, old entries kept |
| SwitchPlatform.SyncDevice | custom_components/zigate/switch.py:26-38 | one device: skipped without actions, otherwise its endpoints in order |
| SwitchPlatform.SyncDevices | custom_components/zigate/switch.py:25-38 | the walk registers exactly the switches the pass function selects, all new objects |
| SwitchPlatform.SyncAttributes | custom_components/zigate/switch.py:23-40 | the registry gains one new switch per selected endpoint, in order, and keeps every old entry |
| SwitchPlatform.SyncTwice | custom_components/zigate/switch.py:33-34 | a second pass creates no switch; the registry ends as exactly the old entries plus the first pass's new switches |
| BinarySensorPlatform.RecordCandidatesSound | binary_sensor/zigate.py:24-41 | every candidate of a device is an eligible record of it, bound to its key |
| BinarySensorPlatform.CandidatesSound | binary_sensor/zigate.py:23-41 | every candidate is a named boolean record outside cluster 0 of a listed device, under its addr-based key |
| BinarySensorPlatform.RecordCandidatesComplete | binary_sensor/zigate.py:24-41 | every eligible record of a device is among its candidates |
| BinarySensorPlatform.CandidatesComplete | binary_sensor/zigate.py:23-41 | every eligible record of a listed device is a candidate, actions or not |
| BinarySensorPlatform.NoRecordTwice | binary_sensor/zigate.py:38-41 | a binary-sensor candidate is never also a sensor candidate |
| BinarySensorPlatform.PassSound | binary_sensor/zigate.py:23-41 | a created binary sensor is eligible, under its key, which was free |
| BinarySensorPlatform.PassComplete | binary_sensor/zigate.py:23-41 | after a pass every eligible record's key is registered |
| BinarySensorPlatform.RegisteredStep | binary_sensor/zigate.py:39-41 | storing a new binary sensor under a free key extends the registry by exactly that entry |
| BinarySensorPlatform.RegisteredWellKeyed | binary_sensor/zigate.py:28-41 | after a pass every registry entry still sits under the key its platform derives |
| BinarySensorPlatform.SyncRecord | binary_sensor/zigate.py:24-41 | one record: registered exactly as the pass function says, old entries kept |
| BinarySensorPlatform.SyncDevice | binary_sensor/zigate.py:24-41 | one device: its records in order |
| BinarySensorPlatform.SyncDevices | binary_sensor/zigate.py:23-41 | the walk registers exactly the binary sensors the pass function selects, each built from its record |
| BinarySensorPlatform.SyncAttributes | binary_sensor/zigate.py:21-43 | the registry gains one binary sensor per selected candidate, in order, and keeps every old entry |
| BinarySensorPlatform.SetupPlatform | binary_sensor/zigate.py:14-19 | without discovery information nothing is registered or returned; otherwise one sync pass that keeps every old entry |
| BinarySensorPlatform.SyncTwice | binary_sensor/zigate.py:36 | a second pass creates no binary sensor; the registry ends as exactly the old entries plus the first pass's new binary sensors |

## Left out

- Host callbacks are not modelled: `async_add_entities` and `add_devices` are represented by the returned entity list. The dispatcher and bus subscriptions, `schedule_update_ha_state`, logging, and the `PlatformNotReady` raised when `hass` is unset are left out.
- Each `sync_attributes` pass is modelled as one sequential call. Re-invocation on `ZIGATE_ATTRIBUTE_ADDED` is the caller's concern, and `SyncTwice` covers two calls in a row. Async scheduling is out of scope.
- The host's entity machinery is left out: `entity_id`, `should_poll`, `device_info`, `async_added_to_hass`, the switch's `update` (`refresh_device`), and the trivial getters `state`, `unit_of_measurement` and `is_on`, which read the fields the model exposes directly.
- `custom_components/zigate/__init__.py` is not part of this model. It holds configuration, connection, device registry and web panel glue.
- Entities keep a snapshot of the driver's `Device` as a value. Later changes to the driver object are not seen, except where a device is passed in explicitly (`IsOn`).
- Attribute records always carry `endpoint`, `cluster` and `attribute`. The source's `KeyError` on a record missing one of them is not modelled.
- A `name` key holding `None` is not distinguished from a missing name. For the sensor, the source would then fail in the cascade with a `TypeError`.
- Values are `None`, bool, int, float, str or dict. Lists and other Python types are not modelled. Each counts as "neither bool nor dict" in the source.
- `ACTIONS_ONOFF` is the string `onoff`. Only its identity matters to the model.
- BinarySensorEntity.ZiGateBinarySensor.IsOn: returns no value where the source raises `AttributeError` on a device that lost the record.
- SensorPlatform.SyncAttributes: does not restate each new sensor's initial `state` value, because carrying heap state through the loops made the proof too costly. `SensorPlatform.SyncRecord` and the sensor constructor state it. The class follows from the record through `SensorEntity.ZiGateSensor.Class`.
- SwitchPlatform.SyncAttributes: does not restate each new switch's initial state. `SwitchPlatform.SyncEndpoint` and the switch constructor state it.

## Findings

| source | as written | input that shows it | evidently intended | confidence | as-written member | corrected member |
|---|---|---|---|---|---|---|
| custom_components/zigate/sensor.py:91-92 | the fifth test of the device-class cascade repeats `'pressure' in name`, so the battery class is unreachable | a sensor whose attribute name is `battery` gets no device class | `'battery' in name` sets `DEVICE_CLASS_BATTERY` | not executed | SensorEntity.DeviceClassAsWritten, SensorEntity.AsWrittenNeverBattery, SensorEntity.BatteryLevelClass | SensorEntity.DeviceClassOf, SensorEntity.BatteryAssigned |
