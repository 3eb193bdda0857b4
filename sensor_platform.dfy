/** The sensor platform's `sync_attributes`: one sensor per eligible attribute record of
    a device without actions, stored under `'{ieee or addr}-{endpoint}-{cluster}-{attribute}'`. */
module SensorPlatform {
  import opened Values
  import opened Driver
  import opened Binder
  import opened SensorEntity
  import opened Registry

  /** The sensor platform ignores clusters below this one. */
  const MIN_CLUSTER: nat := 5

  /** The record tests of the inner loop: cluster at least 5, a name, a value other than
      `None`, and a value whose type is neither bool nor dict. */
  predicate RecordEligible(a: Attribute) {
    var v := GetValue(a);
    a.cluster >= MIN_CLUSTER && a.name.Some? && v != VNone && !v.VBool? && !v.VDict?
  }

  /** A record the platform binds: the device has no actions and the record passes. */
  predicate Eligible(d: Device, a: Attribute) {
    !AnyActions(d) && RecordEligible(a)
  }

  type Candidate = Keyed<(Device, Attribute)>

  function Bind(d: Device, a: Attribute): Candidate {
    Keyed(RegistryKey(d, a), (d, a))
  }

  /** The eligible records among `attrs` of device `d`, in order. */
  function RecordCandidates(d: Device, attrs: seq<Attribute>): seq<Candidate>
    decreases |attrs|
  {
    if attrs == [] then []
    else
      var a := attrs[|attrs| - 1];
      RecordCandidates(d, attrs[..|attrs| - 1]) + (if RecordEligible(a) then [Bind(d, a)] else [])
  }

  /** The records of one device the platform binds: none when the device has actions. */
  function DeviceCandidates(d: Device): seq<Candidate> {
    if AnyActions(d) then [] else RecordCandidates(d, d.attributes)
  }

  /** The records the platform walks over, in order. */
  function Candidates(ds: seq<Device>): seq<Candidate>
    decreases |ds|
  {
    if ds == [] then []
    else Candidates(ds[..|ds| - 1]) + DeviceCandidates(ds[|ds| - 1])
  }

  lemma RecordCandidatesStep(d: Device, attrs: seq<Attribute>, j: nat)
    requires j < |attrs|
    ensures RecordCandidates(d, attrs[..j + 1]) ==
      RecordCandidates(d, attrs[..j]) + if RecordEligible(attrs[j]) then [Bind(d, attrs[j])] else []
  {
    assert attrs[..j + 1][..j] == attrs[..j];
  }

  /** The same step behind the candidates of the devices already walked. */
  lemma RecordCandidatesExtend(done: seq<Candidate>, d: Device, attrs: seq<Attribute>, j: nat)
    requires j < |attrs|
    ensures done + RecordCandidates(d, attrs[..j + 1]) ==
      (done + RecordCandidates(d, attrs[..j])) + if RecordEligible(attrs[j]) then [Bind(d, attrs[j])] else []
  {
    RecordCandidatesStep(d, attrs, j);
  }

  lemma CandidatesStep(ds: seq<Device>, i: nat)
    requires i < |ds|
    ensures Candidates(ds[..i + 1]) == Candidates(ds[..i]) + DeviceCandidates(ds[i])
  {
    assert ds[..i + 1][..i] == ds[..i];
  }

  lemma {:induction false} RecordCandidatesSound(d: Device, attrs: seq<Attribute>)
    ensures forall c :: c in RecordCandidates(d, attrs) ==>
      c.item.0 == d && c.item.1 in attrs && RecordEligible(c.item.1) && c == Bind(d, c.item.1)
    decreases |attrs|
  {
    if attrs != [] {
      RecordCandidatesSound(d, attrs[..|attrs| - 1]);
    }
  }

  /** Filter soundness: every candidate is an eligible record of a listed device, keyed
      by its registry key. */
  lemma {:induction false} CandidatesSound(ds: seq<Device>)
    ensures forall c :: c in Candidates(ds) ==>
      c.item.0 in ds && c.item.1 in c.item.0.attributes && Eligible(c.item.0, c.item.1)
      && c.key == RegistryKey(c.item.0, c.item.1)
    decreases |ds|
  {
    if ds != [] {
      var d := ds[|ds| - 1];
      CandidatesSound(ds[..|ds| - 1]);
      RecordCandidatesSound(d, d.attributes);
    }
  }

  lemma {:induction false} RecordCandidatesComplete(d: Device, attrs: seq<Attribute>, a: Attribute)
    requires a in attrs && RecordEligible(a)
    ensures Bind(d, a) in RecordCandidates(d, attrs)
    decreases |attrs|
  {
    if a != attrs[|attrs| - 1] {
      assert a in attrs[..|attrs| - 1] by {
        var i :| 0 <= i < |attrs| && attrs[i] == a;
        assert attrs[..|attrs| - 1][i] == a;
      }
      RecordCandidatesComplete(d, attrs[..|attrs| - 1], a);
    }
  }

  /** Filter completeness: every eligible record of a listed device is a candidate. */
  lemma {:induction false} CandidatesComplete(ds: seq<Device>, d: Device, a: Attribute)
    requires d in ds && a in d.attributes && Eligible(d, a)
    ensures Bind(d, a) in Candidates(ds)
    decreases |ds|
  {
    if d != ds[|ds| - 1] {
      assert d in ds[..|ds| - 1] by {
        var i :| 0 <= i < |ds| && ds[i] == d;
        assert ds[..|ds| - 1][i] == d;
      }
      CandidatesComplete(ds[..|ds| - 1], d, a);
    } else {
      RecordCandidatesComplete(d, d.attributes, a);
    }
  }

  /** What a pass creates is eligible and goes under a key that was free: a device with
      actions, a cluster below 5, a missing name, a `None`, bool or dict value never
      produce a sensor, and no registered key is ever overwritten. */
  lemma PassSound(known: set<string>, ds: seq<Device>)
    ensures forall c :: c in Created(known, Candidates(ds)) ==>
      c.item.0 in ds && c.item.1 in c.item.0.attributes && Eligible(c.item.0, c.item.1)
      && c.key == RegistryKey(c.item.0, c.item.1) && c.key !in known
  {
    CandidatesSound(ds);
    CreatedFromCandidates(known, Candidates(ds));
    CreatedFresh(known, Candidates(ds));
    var made := Created(known, Candidates(ds));
    forall c | c in made ensures c.key !in known {
      var i :| 0 <= i < |made| && made[i] == c;
      assert c.key in KeySet(made);
    }
  }

  /** After a pass, every eligible record of a listed device has a registry entry. */
  lemma PassComplete(known: set<string>, ds: seq<Device>, d: Device, a: Attribute)
    requires d in ds && a in d.attributes && Eligible(d, a)
    ensures RegistryKey(d, a) in known + KeySet(Created(known, Candidates(ds)))
  {
    var cs := Candidates(ds);
    CandidatesComplete(ds, d, a);
    CreatedCovers(known, cs);
    var i :| 0 <= i < |cs| && cs[i] == Bind(d, a);
    assert RegistryKey(d, a) in KeySet(cs);
  }

  /** `devs` are the sensors made for the candidates `made`, in order, each stored
      under its candidate's key; the registry holds exactly `known` and those keys. */
  ghost predicate Registered(entries: map<string, Entity>, known: set<string>, made: seq<Candidate>, devs: seq<ZiGateSensor>) {
    && |devs| == |made|
    && entries.Keys == known + KeySet(made)
    && forall t :: 0 <= t < |made| ==>
         && devs[t].device == made[t].item.0 && devs[t].attribute == made[t].item.1
         && made[t].key in entries && entries[made[t].key] == Sensor(devs[t])
  }

  /** Registering one more sensor under a free key keeps `Registered`. */
  lemma RegisteredStep(entries: map<string, Entity>, known: set<string>, made: seq<Candidate>,
                       devs: seq<ZiGateSensor>, c: Candidate, x: ZiGateSensor)
    requires Registered(entries, known, made, devs) && c.key !in entries
    requires x.device == c.item.0 && x.attribute == c.item.1
    ensures Registered(entries[c.key := Sensor(x)], known, made + [c], devs + [x])
  {
    KeySetAppend(made, c);
  }

  /** A registry that was well keyed, kept its old entries and gained exactly the
      entities a pass over `ds` creates is well keyed. */
  lemma RegisteredWellKeyed(before: map<string, Entity>, entries: map<string, Entity>,
                            ds: seq<Device>, devs: seq<ZiGateSensor>)
    requires WellKeyed(before) && Registered(entries, before.Keys, Created(before.Keys, Candidates(ds)), devs)
    requires forall k :: k in before ==> k in entries && entries[k] == before[k]
    ensures WellKeyed(entries)
  {
    var made := Created(before.Keys, Candidates(ds));
    PassSound(before.Keys, ds);
    forall k | k in entries ensures KeyOf(entries[k]) == k {
      if k !in before {
        var t :| 0 <= t < |made| && made[t].key == k;
        assert made[t] in made;
      }
    }
  }

  /** One pass of the inner loop: the record is bound when it passes the record tests
      and its key is still free; otherwise nothing changes. */
  method SyncRecord(reg: AttrRegistry, device: Device, attribute: Attribute, devs: seq<ZiGateSensor>,
                    ghost known: set<string>, ghost before: seq<Candidate>)
    returns (devs': seq<ZiGateSensor>)
    requires Registered(reg.entries, known, Created(known, before), devs)
    modifies reg
    ensures Registered(reg.entries, known,
      Created(known, before + if RecordEligible(attribute) then [Bind(device, attribute)] else []), devs')
    ensures devs <= devs'
    ensures forall x :: x in devs' && x !in devs ==>
      && fresh(x) && x.state == GetValue(attribute)
      && attribute.name.Some? && x.attribute == attribute && x.Class() == DeviceClassAsWritten(attribute.name.value)
    ensures forall k :: k in old(reg.entries) ==> k in reg.entries && reg.entries[k] == old(reg.entries)[k]
  {
    devs' := devs;
    ghost var made := Created(known, before);
    ghost var c := Bind(device, attribute);
    if RecordEligible(attribute) {
      CreatedStep(known, before, c);
    } else {
      assert before + [] == before;
    }
    if attribute.cluster >= MIN_CLUSTER && attribute.name.Some? {
      var key := RegistryKey(device, attribute);
      var value := GetValue(attribute);
      if value != VNone && key !in reg.entries && !value.VBool? && !value.VDict? {
        var entity := new ZiGateSensor(device, attribute);
        RegisteredStep(reg.entries, known, made, devs, c, entity);
        devs' := devs + [entity];
        reg.entries := reg.entries[key := Sensor(entity)];
      }
    }
  }

  /** The body of the outer loop: a device with actions is skipped, otherwise its
      records are walked in order. */
  method SyncDevice(reg: AttrRegistry, device: Device, devs: seq<ZiGateSensor>,
                    ghost known: set<string>, ghost done: seq<Candidate>)
    returns (devs': seq<ZiGateSensor>)
    requires Registered(reg.entries, known, Created(known, done), devs)
    modifies reg
    ensures Registered(reg.entries, known, Created(known, done + DeviceCandidates(device)), devs')
    ensures devs <= devs'
    ensures forall x :: x in devs' ==> x in devs || fresh(x)
    ensures forall k :: k in old(reg.entries) ==> k in reg.entries && reg.entries[k] == old(reg.entries)[k]
  {
    devs' := devs;
    if AnyActions(device) {
      assert done + [] == done;
      return;
    }
    var attributes := device.attributes;
    var j := 0;
    assert attributes[..0] == [] && done + [] == done;
    while j < |attributes|
      invariant 0 <= j <= |attributes|
      invariant Registered(reg.entries, known, Created(known, done + RecordCandidates(device, attributes[..j])), devs')
      invariant devs <= devs'
      invariant forall x :: x in devs' ==> x in devs || fresh(x)
      invariant forall k :: k in old(reg.entries) ==> k in reg.entries && reg.entries[k] == old(reg.entries)[k]
    {
      ghost var prefix := RecordCandidates(device, attributes[..j]);
      var next := SyncRecord(reg, device, attributes[j], devs', known, done + prefix);
      RecordCandidatesExtend(done, device, attributes, j);
      devs' := next;
      j := j + 1;
    }
    assert attributes[..j] == attributes;
  }

  /** The walk of `sync_attributes` over the devices, in order. */
  method SyncDevices(reg: AttrRegistry, devices: seq<Device>, ghost known: set<string>) returns (devs: seq<ZiGateSensor>)
    requires known == reg.entries.Keys
    modifies reg
    ensures Registered(reg.entries, known, Created(known, Candidates(devices)), devs)
    ensures forall x :: x in devs ==> fresh(x)
    ensures forall k :: k in old(reg.entries) ==> k in reg.entries && reg.entries[k] == old(reg.entries)[k]
  {
    devs := [];
    var i := 0;
    while i < |devices|
      invariant 0 <= i <= |devices|
      invariant Registered(reg.entries, known, Created(known, Candidates(devices[..i])), devs)
      invariant forall x :: x in devs ==> fresh(x)
      invariant forall k :: k in old(reg.entries) ==> k in reg.entries && reg.entries[k] == old(reg.entries)[k]
    {
      CandidatesStep(devices, i);
      devs := SyncDevice(reg, devices[i], devs, known, Candidates(devices[..i]));
      i := i + 1;
    }
    assert devices[..i] == devices;
  }

  /** `sync_attributes` of the sensor platform. The registry is shared with the other
      platforms; `devs` is the list handed to `async_add_entities`. */
  method SyncAttributes(reg: AttrRegistry, devices: seq<Device>) returns (devs: seq<ZiGateSensor>)
    requires WellKeyed(reg.entries)
    modifies reg
    ensures WellKeyed(reg.entries)
    ensures Registered(reg.entries, old(reg.entries).Keys, Created(old(reg.entries).Keys, Candidates(devices)), devs)
    ensures forall x :: x in devs ==> fresh(x)
    ensures forall x :: x in devs ==> x.attribute.name.Some? && x.attribute in x.device.attributes
    ensures forall k :: k in old(reg.entries) ==> k in reg.entries && reg.entries[k] == old(reg.entries)[k]
  {
    ghost var known := reg.entries.Keys;
    devs := SyncDevices(reg, devices, known);
    RegisteredWellKeyed(old(reg.entries), reg.entries, devices, devs);
    ghost var made := Created(known, Candidates(devices));
    PassSound(known, devices);
    forall x | x in devs ensures x.attribute.name.Some? && x.attribute in x.device.attributes {
      var t :| 0 <= t < |devs| && devs[t] == x;
      assert made[t] in made;
    }
  }

  /** Idempotence: a second pass over unchanged devices creates nothing and leaves the
      registry as the first pass left it. */
  method SyncTwice(reg: AttrRegistry, devices: seq<Device>) returns (first: seq<ZiGateSensor>, second: seq<ZiGateSensor>)
    requires WellKeyed(reg.entries)
    modifies reg
    ensures second == []
    ensures WellKeyed(reg.entries)
    ensures Registered(reg.entries, old(reg.entries).Keys, Created(old(reg.entries).Keys, Candidates(devices)), first)
    ensures forall k :: k in old(reg.entries) ==> k in reg.entries && reg.entries[k] == old(reg.entries)[k]
    ensures forall x :: x in first ==> fresh(x)
  {
    first := SyncAttributes(reg, devices);
    ghost var afterFirst := reg.entries;
    Idempotent(old(reg.entries).Keys, Candidates(devices));
    second := SyncAttributes(reg, devices);
    assert KeySet<(Device, Attribute)>([]) == {};
    assert reg.entries.Keys == afterFirst.Keys;
    assert reg.entries == afterFirst;
  }
}
