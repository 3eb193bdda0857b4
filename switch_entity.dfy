/** `ZiGateSwitch`: an on/off switch entity for one endpoint of a device. */
module SwitchEntity {
  import opened Values
  import opened Driver
  import opened Keys
  import opened Text

  /** Key the switch platform stores a switch under: `'{ieee or addr}-switch-{endpoint}'`. */
  function RegistryKey(d: Device, endpoint: nat): string {
    SwitchKey(Identity(d), endpoint)
  }

  /** The on/off cluster and its on/off attribute. */
  const ONOFF_CLUSTER: nat := 6
  const ONOFF_ATTRIBUTE: nat := 0

  /** The state `__init__` starts from: the value of the endpoint's on/off record when
      there is one (`False` if that record has no 'value' key), otherwise `False`. */
  function InitialIsOn(d: Device, endpoint: nat): (v: Value)
    ensures (forall a :: a in d.attributes ==> !Addresses(a, endpoint, ONOFF_CLUSTER, ONOFF_ATTRIBUTE)) ==>
      v == VBool(false)
    ensures (exists a :: a in d.attributes && Addresses(a, endpoint, ONOFF_CLUSTER, ONOFF_ATTRIBUTE)) ==>
      exists a :: a in d.attributes && Addresses(a, endpoint, ONOFF_CLUSTER, ONOFF_ATTRIBUTE) && v == a.value.GetOr(VBool(false))
  {
    match GetAttribute(d.attributes, endpoint, ONOFF_CLUSTER, ONOFF_ATTRIBUTE)
    case None => VBool(false)
    case Some(a) => a.value.GetOr(VBool(false))
  }

  class ZiGateSwitch {
    const device: Device
    const endpoint: nat
    var isOn: Value

    constructor (device: Device, endpoint: nat)
      ensures this.device == device && this.endpoint == endpoint
      ensures isOn == InitialIsOn(device, endpoint)
    {
      this.device := device;
      this.endpoint := endpoint;
      isOn := InitialIsOn(device, endpoint);
    }

    /** The event concerns this switch: same ieee and endpoint. */
    predicate Concerns(ev: AttributeUpdated) {
      device.ieee == ev.ieee && endpoint == ev.endpoint
    }

    /** `_handle_event`: only the on/off attribute of this endpoint changes the state. */
    method HandleEvent(ev: AttributeUpdated)
      modifies this
      ensures Concerns(ev) && ev.cluster == ONOFF_CLUSTER && ev.attribute == ONOFF_ATTRIBUTE ==> isOn == ev.value
      ensures !(Concerns(ev) && ev.cluster == ONOFF_CLUSTER && ev.attribute == ONOFF_ATTRIBUTE) ==> isOn == old(isOn)
    {
      if Concerns(ev) {
        if ev.cluster == ONOFF_CLUSTER && ev.attribute == ONOFF_ATTRIBUTE {
          isOn := ev.value;
        }
      }
    }

    /** `turn_on`: optimistically on, then mode 1 is sent to this address and endpoint. */
    method TurnOn() returns (cmd: OnOffCommand)
      modifies this
      ensures isOn == VBool(true)
      ensures cmd == ActionOnOff(device.addr, endpoint, MODE_ON)
    {
      isOn := VBool(true);
      cmd := ActionOnOff(device.addr, endpoint, MODE_ON);
    }

    /** `turn_off`: optimistically off, then mode 0. */
    method TurnOff() returns (cmd: OnOffCommand)
      modifies this
      ensures isOn == VBool(false)
      ensures cmd == ActionOnOff(device.addr, endpoint, MODE_OFF)
    {
      isOn := VBool(false);
      cmd := ActionOnOff(device.addr, endpoint, MODE_OFF);
    }

    /** `toggle`: optimistically `not is_on`, then mode 2. */
    method Toggle() returns (cmd: OnOffCommand)
      modifies this
      ensures isOn == Negate(old(isOn))
      ensures cmd == ActionOnOff(device.addr, endpoint, MODE_TOGGLE)
    {
      isOn := Negate(isOn);
      cmd := ActionOnOff(device.addr, endpoint, MODE_TOGGLE);
    }

    /** `unique_id`: defined exactly when the device has an ieee, and then it is the
        key the switch platform registers this switch under. */
    function UniqueId(): (r: Option<string>)
      ensures r.Some? <==> TruthyStr(device.ieee)
      ensures r.Some? ==> r.value == RegistryKey(device, endpoint)
    {
      if TruthyStr(device.ieee) then Some(SwitchKey(device.ieee.value, endpoint)) else None
    }

    /** `name`: the device's text form, a space, then the endpoint number. */
    function Name(): (r: string)
      ensures |r| == |device.title| + 1 + |Decimal(endpoint)|
      ensures r[..|device.title|] == device.title && r[|device.title|] == ' '
      ensures r[|device.title| + 1..] == Decimal(endpoint) && Parse(r[|device.title| + 1..], 10) == endpoint
    {
      var r := device.title + " " + Decimal(endpoint);
      assert r[|device.title| + 1..] == Decimal(endpoint);
      ParseDigits(endpoint, 10);
      r
    }

    /** `device_state_attributes`: addresses and the endpoint as `0x{:02x}`. */
    function DeviceStateAttributes(): (r: map<string, Value>)
      ensures r.Keys == {"addr", "ieee", "endpoint"}
      ensures r["addr"] == VStr(device.addr) && r["ieee"] == OptStr(device.ieee)
      ensures r["endpoint"].VStr? && |r["endpoint"].s| >= 4 && r["endpoint"].s[..2] == "0x"
      ensures AllDigits(r["endpoint"].s[2..], 16) && Parse(r["endpoint"].s[2..], 16) == endpoint
      ensures r["endpoint"] == VStr(Hex(endpoint, 2))
    {
      HexRoundTrip(endpoint, 2);
      map["addr" := VStr(device.addr), "ieee" := OptStr(device.ieee), "endpoint" := VStr(Hex(endpoint, 2))]
    }
  }

  /** Toggling twice restores the on/off reading, and restores a boolean state exactly. */
  method ToggleTwice(s: ZiGateSwitch) returns (first: OnOffCommand, second: OnOffCommand)
    modifies s
    ensures Truthy(s.isOn) == Truthy(old(s.isOn))
    ensures old(s.isOn).VBool? ==> s.isOn == old(s.isOn)
    ensures first == second == ActionOnOff(s.device.addr, s.endpoint, MODE_TOGGLE)
  {
    first := s.Toggle();
    second := s.Toggle();
    NegateTwice(old(s.isOn));
  }
}
