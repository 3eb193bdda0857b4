/** `ZiGateBinarySensor`: fixed at construction, so a value here. */
module BinarySensorEntity {
  import opened Values
  import opened Driver
  import opened Keys

  /** Key the binary-sensor platform stores an entity under: `'{addr}-{endpoint}-{cluster}-{attribute}'`
      (the short address, never the ieee). */
  function RegistryKey(d: Device, a: Attribute): string {
    AttrKey(d.addr, a.endpoint, a.cluster, a.attribute)
  }

  datatype ZiGateBinarySensor = ZiGateBinarySensor(
    device: Device,
    attribute: Attribute,
    name: string,
    uniqueId: string)
  {
    /** `is_on`: the current value of the record in the device as it is now, or
        `None` when the device no longer has that record (the source then fails). */
    function IsOn(current: Device): (r: Option<Value>)
      ensures r.None? <==>
        forall a :: a in current.attributes ==> !Addresses(a, attribute.endpoint, attribute.cluster, attribute.attribute)
      ensures r.Some? ==> exists a :: (a in current.attributes
        && Addresses(a, attribute.endpoint, attribute.cluster, attribute.attribute) && GetValue(a) == r.value)
    {
      match GetAttribute(current.attributes, attribute.endpoint, attribute.cluster, attribute.attribute)
      case None => None
      case Some(a) => Some(GetValue(a))
    }

    /** `device_state_attributes`: the address and the raw endpoint, cluster and attribute numbers. */
    function DeviceStateAttributes(): (r: map<string, Value>)
      ensures r.Keys == {"addr", "endpoint", "cluster", "attribute"}
      ensures r["addr"] == VStr(device.addr)
      ensures r["endpoint"] == VInt(attribute.endpoint) && r["cluster"] == VInt(attribute.cluster)
      ensures r["attribute"] == VInt(attribute.attribute)
    {
      map[
        "addr" := VStr(device.addr),
        "endpoint" := VInt(attribute.endpoint),
        "cluster" := VInt(attribute.cluster),
        "attribute" := VInt(attribute.attribute)]
    }
  }

  /** `__init__`: the name is `zigate_{addr}_{attribute name}` and the unique id is the
      registry key, so two entities with one unique id sit under one key. */
  function NewBinarySensor(d: Device, a: Attribute): (s: ZiGateBinarySensor)
    ensures s.device == d && s.attribute == a
    ensures s.uniqueId == RegistryKey(d, a)
    ensures s.name == "zigate_" + d.addr + "_" + OptStrText(a.name)
  {
    ZiGateBinarySensor(d, a, "zigate_" + d.addr + "_" + OptStrText(a.name),
      AttrKey(d.addr, a.endpoint, a.cluster, a.attribute))
  }
}
