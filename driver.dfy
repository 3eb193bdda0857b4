/** The view of the ZiGate driver that the platforms read: devices, their attribute
    records and action lists, the attribute-updated event and the on/off command. */
module Driver {
  import opened Values

  /** One attribute record of a device. `value` is `None` when the record has no
      'value' key, and `Some(VNone)` when the key holds `None`. */
  datatype Attribute = Attribute(
    endpoint: nat,
    cluster: nat,
    attribute: nat,
    name: Option<string>,
    unit: Option<string>,
    value: Option<Value>)

  /** `attribute.get('value')`: the value, or `None` when the key is missing. */
  function GetValue(a: Attribute): (v: Value)
    ensures a.value.None? ==> v == VNone
    ensures a.value.Some? ==> v == a.value.value
  {
    a.value.GetOr(VNone)
  }

  /** The action kinds the driver reports per endpoint are strings. */
  type ActionType = string

  /** The driver's `ACTIONS_ONOFF` action kind. */
  const ACTIONS_ONOFF: ActionType := "onoff"

  /** A device: short address, optional extended address, its text form (`str(device)`),
      its attribute records, and `available_actions()` as an ordered endpoint -> actions
      list (Python dicts iterate in insertion order). */
  datatype Device = Device(
    addr: string,
    ieee: Option<string>,
    title: string,
    attributes: seq<Attribute>,
    actions: seq<(nat, seq<ActionType>)>)

  /** `device.ieee or device.addr`: the identity used in registry keys. */
  function Identity(d: Device): (id: string)
    ensures TruthyStr(d.ieee) ==> id == d.ieee.value
    ensures !TruthyStr(d.ieee) ==> id == d.addr
  {
    if TruthyStr(d.ieee) then d.ieee.value else d.addr
  }

  /** `any(device.available_actions().values())`: some endpoint has a non-empty action list. */
  predicate AnyActions(d: Device) {
    exists i :: 0 <= i < |d.actions| && d.actions[i].1 != []
  }

  /** `device.get_attribute(endpoint, cluster, attribute)`: the first matching record. */
  function GetAttribute(attrs: seq<Attribute>, endpoint: nat, cluster: nat, attribute: nat): (r: Option<Attribute>)
    ensures r.Some? ==> r.value in attrs && Addresses(r.value, endpoint, cluster, attribute)
    ensures r.None? <==> forall a :: a in attrs ==> !Addresses(a, endpoint, cluster, attribute)
  {
    if attrs == [] then None
    else if Addresses(attrs[0], endpoint, cluster, attribute) then Some(attrs[0])
    else GetAttribute(attrs[1..], endpoint, cluster, attribute)
  }

  predicate Addresses(a: Attribute, endpoint: nat, cluster: nat, attribute: nat) {
    a.endpoint == endpoint && a.cluster == cluster && a.attribute == attribute
  }

  /** The payload of a `zigate.attribute_updated` event. */
  datatype AttributeUpdated = AttributeUpdated(
    ieee: Option<string>,
    endpoint: nat,
    cluster: nat,
    attribute: nat,
    value: Value)

  /** Modes of the driver's `action_onoff(addr, endpoint, mode)`. */
  const MODE_OFF: nat := 0
  const MODE_ON: nat := 1
  const MODE_TOGGLE: nat := 2

  /** One call of `action_onoff`, recorded instead of performed. */
  datatype OnOffCommand = ActionOnOff(addr: string, endpoint: nat, mode: nat)
}
