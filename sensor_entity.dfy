/** `ZiGateSensor`: a sensor entity bound to one attribute record of a device. */
module SensorEntity {
  import opened Values
  import opened Driver
  import opened Keys
  import opened Text

  /** The host's `STATE_UNAVAILABLE`. */
  const STATE_UNAVAILABLE: string := "unavailable"

  /** Key the sensor platform stores a sensor under: `'{ieee or addr}-{endpoint}-{cluster}-{attribute}'`. */
  function RegistryKey(d: Device, a: Attribute): string {
    AttrKey(Identity(d), a.endpoint, a.cluster, a.attribute)
  }

  datatype DeviceClass = NoClass | Temperature | Humidity | Illuminance | Pressure | Battery

  /** Python's `sub in s` on strings. */
  predicate Contains(s: string, sub: string) {
    exists i :: 0 <= i <= |s| && sub <= s[i..]
  }

  /** A keyword table read top to bottom: the class of the first keyword found in `name`. */
  function FirstMatch(name: string, table: seq<(string, DeviceClass)>): (r: DeviceClass)
    ensures r != NoClass ==> exists i :: 0 <= i < |table| && table[i].1 == r && Contains(name, table[i].0)
    ensures (forall i :: 0 <= i < |table| ==> table[i].1 != NoClass) ==>
      (r == NoClass <==> forall i :: 0 <= i < |table| ==> !Contains(name, table[i].0))
  {
    if table == [] then NoClass
    else if Contains(name, table[0].0) then table[0].1
    else FirstMatch(name, table[1..])
  }

  /** A five-row table read as an if/elif cascade. */
  lemma FirstMatchOfFive(name: string, t: seq<(string, DeviceClass)>)
    requires |t| == 5
    ensures FirstMatch(name, t) ==
      if Contains(name, t[0].0) then t[0].1
      else if Contains(name, t[1].0) then t[1].1
      else if Contains(name, t[2].0) then t[2].1
      else if Contains(name, t[3].0) then t[3].1
      else if Contains(name, t[4].0) then t[4].1
      else NoClass
  {
    assert t[4..][0] == t[4] && t[4..][1..] == [];
    assert FirstMatch(name, t[4..]) == if Contains(name, t[4].0) then t[4].1 else NoClass;
    assert t[3..][0] == t[3] && t[3..][1..] == t[4..];
    assert FirstMatch(name, t[3..]) == if Contains(name, t[3].0) then t[3].1 else FirstMatch(name, t[4..]);
    assert t[2..][0] == t[2] && t[2..][1..] == t[3..];
    assert FirstMatch(name, t[2..]) == if Contains(name, t[2].0) then t[2].1 else FirstMatch(name, t[3..]);
    assert t[1..][0] == t[1] && t[1..][1..] == t[2..];
    assert FirstMatch(name, t[1..]) == if Contains(name, t[1].0) then t[1].1 else FirstMatch(name, t[2..]);
  }

  /** The keyword table the cascade in `ZiGateSensor.__init__` evidently intends. */
  const CLASS_KEYWORDS: seq<(string, DeviceClass)> := [
    ("temperature", Temperature), ("humidity", Humidity), ("luminosity", Illuminance),
    ("pressure", Pressure), ("battery", Battery)]

  /** The cascade as written: its fifth test repeats 'pressure'. */
  function DeviceClassAsWritten(name: string): (r: DeviceClass)
    ensures r == FirstMatch(name, CLASS_KEYWORDS[..4] + [("pressure", Battery)])
  {
    FirstMatchOfFive(name, CLASS_KEYWORDS[..4] + [("pressure", Battery)]);
    if Contains(name, "temperature") then Temperature
    else if Contains(name, "humidity") then Humidity
    else if Contains(name, "luminosity") then Illuminance
    else if Contains(name, "pressure") then Pressure
    else if Contains(name, "pressure") then Battery
    else NoClass
  }

  /** The cascade with its fifth test on 'battery': the first keyword of the table wins. */
  function DeviceClassOf(name: string): (r: DeviceClass)
    ensures r == FirstMatch(name, CLASS_KEYWORDS)
  {
    FirstMatchOfFive(name, CLASS_KEYWORDS);
    if Contains(name, "temperature") then Temperature
    else if Contains(name, "humidity") then Humidity
    else if Contains(name, "luminosity") then Illuminance
    else if Contains(name, "pressure") then Pressure
    else if Contains(name, "battery") then Battery
    else NoClass
  }

  /** As written, no attribute name ever yields the battery class. */
  lemma AsWrittenNeverBattery(name: string)
    ensures DeviceClassAsWritten(name) != Battery
  {
  }

  /** The two cascades agree on every name except those the corrected one calls a battery,
      which the cascade as written leaves without a class. */
  lemma AsWrittenDiffersOnlyOnBattery(name: string)
    ensures DeviceClassAsWritten(name) == if DeviceClassOf(name) == Battery then NoClass else DeviceClassOf(name)
  {
  }

  lemma ContainsItself(s: string)
    ensures Contains(s, s)
  {
    assert s <= s[0..];
  }

  /** The input that shows it: a battery level attribute gets no class as written,
      and the battery class with the corrected cascade. */
  lemma BatteryLevelClass()
    ensures DeviceClassAsWritten("battery") == NoClass
    ensures DeviceClassOf("battery") == Battery
  {
    ContainsItself("battery");
  }

  /** Corrected cascade: a name mentioning 'battery' and none of the earlier keywords is a battery. */
  lemma BatteryAssigned(name: string)
    requires Contains(name, "battery")
    requires forall i :: 0 <= i < 4 ==> !Contains(name, CLASS_KEYWORDS[i].0)
    ensures DeviceClassOf(name) == Battery
  {
    assert !Contains(name, CLASS_KEYWORDS[0].0) && !Contains(name, CLASS_KEYWORDS[1].0);
    assert !Contains(name, CLASS_KEYWORDS[2].0) && !Contains(name, CLASS_KEYWORDS[3].0);
  }

  /** The sensor entity. The device and the attribute record are the snapshots it was
      created from; `state` is the cached value. */
  class ZiGateSensor {
    const device: Device
    const attribute: Attribute
    var state: Value

    /** `__init__`: the name must be present (the cascade reads it). */
    constructor (device: Device, attribute: Attribute)
      requires attribute.name.Some?
      ensures this.device == device && this.attribute == attribute
      ensures state == attribute.value.GetOr(VStr(STATE_UNAVAILABLE))
    {
      this.device := device;
      this.attribute := attribute;
      state := attribute.value.GetOr(VStr(STATE_UNAVAILABLE));
    }

    /** `device_class`: what `__init__` derives from the attribute name with the cascade
        as written. It depends only on the record, so every sensor built from a record
        carries it. */
    function Class(): (r: DeviceClass)
      requires attribute.name.Some?
      ensures r == FirstMatch(attribute.name.value, CLASS_KEYWORDS[..4] + [("pressure", Battery)])
      ensures r != Battery
    {
      AsWrittenNeverBattery(attribute.name.value);
      DeviceClassAsWritten(attribute.name.value)
    }

    /** The event is about this sensor's record: same ieee, endpoint, cluster and attribute. */
    predicate Matches(ev: AttributeUpdated) {
      && device.ieee == ev.ieee
      && attribute.endpoint == ev.endpoint
      && attribute.cluster == ev.cluster
      && attribute.attribute == ev.attribute
    }

    /** `_handle_event`: a matching event replaces the cached value; any other leaves it. */
    method HandleEvent(ev: AttributeUpdated)
      modifies this
      ensures Matches(ev) ==> state == ev.value
      ensures !Matches(ev) ==> state == old(state)
    {
      if Matches(ev) {
        state := ev.value;
      }
    }

    /** `unique_id`: defined exactly when the device has an ieee, and then it is the
        key the sensor platform registers this sensor under. */
    function UniqueId(): (r: Option<string>)
      ensures r.Some? <==> TruthyStr(device.ieee)
      ensures r.Some? ==> r.value == RegistryKey(device, attribute)
    {
      if TruthyStr(device.ieee) then
        Some(AttrKey(device.ieee.value, attribute.endpoint, attribute.cluster, attribute.attribute))
      else None
    }

    /** `name`: the attribute name, a space, then the device's text form. */
    function Name(): (r: string)
      ensures var n := OptStrText(attribute.name);
        |r| == |n| + 1 + |device.title| && r[..|n|] == n && r[|n|] == ' ' && r[|n| + 1..] == device.title
    {
      OptStrText(attribute.name) + " " + device.title
    }

    /** A dict state replaces the base entry `k` of `device_state_attributes`. */
    predicate Overrides(k: string)
      reads this
    {
      state.VDict? && k in state.d
    }

    /** `device_state_attributes`: addresses, the endpoint as `0x{:02x}`, cluster and
        attribute as `0x{:04x}`, and when the state is a dict its entries on top. */
    function DeviceStateAttributes(): (r: map<string, Value>)
      reads this
      ensures r.Keys == {"addr", "ieee", "endpoint", "cluster", "attribute"} + (if state.VDict? then state.d.Keys else {})
      ensures state.VDict? ==> forall k :: k in state.d ==> r[k] == state.d[k]
      ensures !Overrides("addr") ==> r["addr"] == VStr(device.addr)
      ensures !Overrides("ieee") ==> r["ieee"] == OptStr(device.ieee)
      ensures !Overrides("endpoint") ==> r["endpoint"] == VStr(Hex(attribute.endpoint, 2))
      ensures !Overrides("cluster") ==> r["cluster"] == VStr(Hex(attribute.cluster, 4))
      ensures !Overrides("attribute") ==> r["attribute"] == VStr(Hex(attribute.attribute, 4))
    {
      var attrs := map[
        "addr" := VStr(device.addr),
        "ieee" := OptStr(device.ieee),
        "endpoint" := VStr(Hex(attribute.endpoint, 2)),
        "cluster" := VStr(Hex(attribute.cluster, 4)),
        "attribute" := VStr(Hex(attribute.attribute, 4))];
      if state.VDict? then attrs + state.d else attrs
    }
  }
}
