/** `hass.data[DATA_ZIGATE_ATTRS]`: the one dictionary all three platforms register
    entities in, keyed by the keys each platform derives. */
module Registry {
  import opened Values
  import opened Driver
  import opened Keys
  import SensorEntity
  import SwitchEntity
  import BinarySensorEntity

  datatype Entity =
    | Sensor(sensor: SensorEntity.ZiGateSensor)
    | BinarySensor(binary: BinarySensorEntity.ZiGateBinarySensor)
    | Switch(switch: SwitchEntity.ZiGateSwitch)

  /** The key the owning platform derives for an entity. */
  function KeyOf(e: Entity): string {
    match e
    case Sensor(s) => SensorEntity.RegistryKey(s.device, s.attribute)
    case BinarySensor(b) => BinarySensorEntity.RegistryKey(b.device, b.attribute)
    case Switch(w) => SwitchEntity.RegistryKey(w.device, w.endpoint)
  }

  /** Every entity sits under the key its platform derives for it. */
  predicate WellKeyed(entries: map<string, Entity>) {
    forall k :: k in entries ==> KeyOf(entries[k]) == k
  }

  /** Storing an entity under the key its platform derives keeps the registry well keyed. */
  lemma WellKeyedInsert(entries: map<string, Entity>, k: string, e: Entity)
    requires WellKeyed(entries) && KeyOf(e) == k
    ensures WellKeyed(entries[k := e])
  {
  }

  class AttrRegistry {
    var entries: map<string, Entity>

    constructor ()
      ensures entries == map[]
    {
      entries := map[];
    }
  }

  /** An attribute-updated event carrying an ieee reaches at most one registered
      sensor: two sensors it matches are one registry entry. */
  lemma SensorEventReachesOne(entries: map<string, Entity>, ev: AttributeUpdated, k1: string, k2: string)
    requires WellKeyed(entries)
    requires TruthyStr(ev.ieee)
    requires k1 in entries && entries[k1].Sensor? && entries[k1].sensor.Matches(ev)
    requires k2 in entries && entries[k2].Sensor? && entries[k2].sensor.Matches(ev)
    ensures k1 == k2
  {
    assert KeyOf(entries[k1]) == k1 && KeyOf(entries[k2]) == k2;
  }

  /** An attribute-updated event carrying an ieee concerns at most one registered switch. */
  lemma SwitchEventReachesOne(entries: map<string, Entity>, ev: AttributeUpdated, k1: string, k2: string)
    requires WellKeyed(entries)
    requires TruthyStr(ev.ieee)
    requires k1 in entries && entries[k1].Switch? && entries[k1].switch.Concerns(ev)
    requires k2 in entries && entries[k2].Switch? && entries[k2].switch.Concerns(ev)
    ensures k1 == k2
  {
    assert KeyOf(entries[k1]) == k1 && KeyOf(entries[k2]) == k2;
  }

  /** A switch and a sensor never share a registry entry's key. */
  lemma SwitchNeverUnderSensorKey(entries: map<string, Entity>, k: string)
    requires WellKeyed(entries) && k in entries && entries[k].Switch?
    ensures forall d: Device, a: Attribute :: k != SensorEntity.RegistryKey(d, a) && k != BinarySensorEntity.RegistryKey(d, a)
  {
    var w := entries[k].switch;
    forall d: Device, a: Attribute
      ensures k != SensorEntity.RegistryKey(d, a) && k != BinarySensorEntity.RegistryKey(d, a)
    {
      SwitchKeyNotAttrKey(Identity(w.device), w.endpoint, Identity(d), a.endpoint, a.cluster, a.attribute);
      SwitchKeyNotAttrKey(Identity(w.device), w.endpoint, d.addr, a.endpoint, a.cluster, a.attribute);
    }
  }
}
