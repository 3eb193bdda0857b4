/** The binary-sensor platform's `setup_platform` and `sync_attributes`: one binary
    sensor per named boolean record outside cluster 0, stored under
    `'{addr}-{endpoint}-{cluster}-{attribute}'`. */
module BinarySensorPlatform {
  import opened Values
  import opened Driver
  import opened Binder
  import opened BinarySensorEntity
  import opened Registry
  import SensorPlatform

  /** The record tests: not cluster 0, a name, and a boolean value. Devices with actions
      are not skipped here. */
  predicate Eligible(a: Attribute) {
    a.cluster != 0 && a.name.Some? && GetValue(a).VBool?
  }

  type Candidate = Keyed<(Device, Attribute)>

  function Bind(d: Device, a: Attribute): Candidate {
    Keyed(RegistryKey(d, a), (d, a))
  }

  /** The eligible records among `attrs` of device `d`, in order. */
  function RecordCandidates(d: Device, attrs: seq<Attribute>): seq<Candidate>
    decreases |attrs|
  {
    if attrs == [] then []
    else
      var a := attrs[|attrs| - 1];
      RecordCandidates(d, attrs[..|attrs| - 1]) + (if Eligible(a) then [Bind(d, a)] else [])
  }

  /** The records the platform walks over, in order. */
  function Candidates(ds: seq<Device>): seq<Candidate>
    decreases |ds|
  {
    if ds == [] then []
    else
      var d := ds[|ds| - 1];
      Candidates(ds[..|ds| - 1]) + RecordCandidates(d, d.attributes)
  }

  lemma CandidatesStep(ds: seq<Device>, i: nat)
    requires i < |ds|
    ensures Candidates(ds[..i + 1]) == Candidates(ds[..i]) + RecordCandidates(ds[i], ds[i].attributes)
  {
    assert ds[..i + 1][..i] == ds[..i];
  }

  /** One step of the walk over a device's records, behind the candidates already walked. */
  lemma RecordCandidatesExtend(done: seq<Candidate>, d: Device, attrs: seq<Attribute>, j: nat)
    requires j < |attrs|
    ensures done + RecordCandidates(d, attrs[..j + 1]) ==
      (done + RecordCandidates(d, attrs[..j])) + if Eligible(attrs[j]) then [Bind(d, attrs[j])] else []
  {
    assert attrs[..j + 1][..j] == attrs[..j];
  }

  lemma {:induction false} RecordCandidatesSound(d: Device, attrs: seq<Attribute>)
    ensures forall c :: c in RecordCandidates(d, attrs) ==>
      c.item.0 == d && c.item.1 in attrs && Eligible(c.item.1) && c == Bind(d, c.item.1)
    decreases |attrs|
  {
    if attrs != [] {
      RecordCandidatesSound(d, attrs[..|attrs| - 1]);
    }
  }

  /** Filter soundness: every candidate is an eligible record of a listed device, keyed
      by its registry key. */
  lemma {:induction false} CandidatesSound(ds: seq<Device>)
    ensures forall c :: c in Candidates(ds) ==>
      c.item.0 in ds && c.item.1 in c.item.0.attributes && Eligible(c.item.1)
      && c.key == RegistryKey(c.item.0, c.item.1)
    decreases |ds|
  {
    if ds != [] {
      var d := ds[|ds| - 1];
      CandidatesSound(ds[..|ds| - 1]);
      RecordCandidatesSound(d, d.attributes);
    }
  }

  lemma {:induction false} RecordCandidatesComplete(d: Device, attrs: seq<Attribute>, a: Attribute)
    requires a in attrs && Eligible(a)
    ensures Bind(d, a) in RecordCandidates(d, attrs)
    decreases |attrs|
  {
    if a != attrs[|attrs| - 1] {
      assert a in attrs[..|attrs| - 1] by {
        var i :| 0 <= i < |attrs| && attrs[i] == a;
        assert attrs[..|attrs| - 1][i] == a;
      }
      RecordCandidatesComplete(d, attrs[..|attrs| - 1], a);
    }
  }

  /** Filter completeness: every eligible record of a listed device is a candidate,
      whether the device has actions or not. */
  lemma {:induction false} CandidatesComplete(ds: seq<Device>, d: Device, a: Attribute)
    requires d in ds && a in d.attributes && Eligible(a)
    ensures Bind(d, a) in Candidates(ds)
    decreases |ds|
  {
    if d != ds[|ds| - 1] {
      assert d in ds[..|ds| - 1] by {
        var i :| 0 <= i < |ds| && ds[i] == d;
        assert ds[..|ds| - 1][i] == d;
      }
      CandidatesComplete(ds[..|ds| - 1], d, a);
    } else {
      RecordCandidatesComplete(d, d.attributes, a);
    }
  }

  /** A record is never both a sensor candidate and a binary-sensor candidate: the sensor
      platform refuses boolean values and this one takes only those. */
  lemma NoRecordTwice(ds: seq<Device>, d: Device, a: Attribute)
    requires Bind(d, a) in Candidates(ds)
    ensures SensorPlatform.Bind(d, a) !in SensorPlatform.Candidates(ds)
  {
    CandidatesSound(ds);
    SensorPlatform.CandidatesSound(ds);
  }

  /** What a pass creates is eligible and goes under a key that was free. */
  lemma PassSound(known: set<string>, ds: seq<Device>)
    ensures forall c :: c in Created(known, Candidates(ds)) ==>
      c.item.0 in ds && c.item.1 in c.item.0.attributes && Eligible(c.item.1)
      && c.key == RegistryKey(c.item.0, c.item.1) && c.key !in known
  {
    CandidatesSound(ds);
    CreatedFromCandidates(known, Candidates(ds));
    CreatedFresh(known, Candidates(ds));
    var made := Created(known, Candidates(ds));
    forall c | c in made ensures c.key !in known {
      var i :| 0 <= i < |made| && made[i] == c;
      assert c.key in KeySet(made);
    }
  }

  /** After a pass, every eligible record of a listed device has a registry entry. */
  lemma PassComplete(known: set<string>, ds: seq<Device>, d: Device, a: Attribute)
    requires d in ds && a in d.attributes && Eligible(a)
    ensures RegistryKey(d, a) in known + KeySet(Created(known, Candidates(ds)))
  {
    var cs := Candidates(ds);
    CandidatesComplete(ds, d, a);
    CreatedCovers(known, cs);
    var i :| 0 <= i < |cs| && cs[i] == Bind(d, a);
    assert RegistryKey(d, a) in KeySet(cs);
  }

  /** `devs` are the binary sensors built from the candidates `made`, in order, each
      stored under its candidate's key; the registry holds exactly `known` and those keys. */
  ghost predicate Registered(entries: map<string, Entity>, known: set<string>, made: seq<Candidate>, devs: seq<ZiGateBinarySensor>) {
    && |devs| == |made|
    && entries.Keys == known + KeySet(made)
    && forall t :: 0 <= t < |made| ==>
         && devs[t] == NewBinarySensor(made[t].item.0, made[t].item.1)
         && made[t].key in entries && entries[made[t].key] == BinarySensor(devs[t])
  }

  /** Registering one more binary sensor under a free key keeps `Registered`. */
  lemma RegisteredStep(entries: map<string, Entity>, known: set<string>, made: seq<Candidate>,
                       devs: seq<ZiGateBinarySensor>, c: Candidate)
    requires Registered(entries, known, made, devs) && c.key !in entries
    ensures var x := NewBinarySensor(c.item.0, c.item.1);
      Registered(entries[c.key := BinarySensor(x)], known, made + [c], devs + [x])
  {
    KeySetAppend(made, c);
  }

  /** A registry that was well keyed, kept its old entries and gained exactly the
      entities a pass over `ds` creates is well keyed. */
  lemma RegisteredWellKeyed(before: map<string, Entity>, entries: map<string, Entity>,
                            ds: seq<Device>, devs: seq<ZiGateBinarySensor>)
    requires WellKeyed(before) && Registered(entries, before.Keys, Created(before.Keys, Candidates(ds)), devs)
    requires forall k :: k in before ==> k in entries && entries[k] == before[k]
    ensures WellKeyed(entries)
  {
    var made := Created(before.Keys, Candidates(ds));
    PassSound(before.Keys, ds);
    forall k | k in entries ensures KeyOf(entries[k]) == k {
      if k !in before {
        var t :| 0 <= t < |made| && made[t].key == k;
        assert made[t] in made;
      }
    }
  }

  /** One pass of the inner loop: an eligible record whose key is still free gets a
      binary sensor; otherwise nothing changes. */
  method SyncRecord(reg: AttrRegistry, device: Device, attribute: Attribute, devs: seq<ZiGateBinarySensor>,
                    ghost known: set<string>, ghost before: seq<Candidate>)
    returns (devs': seq<ZiGateBinarySensor>)
    requires Registered(reg.entries, known, Created(known, before), devs)
    modifies reg
    ensures Registered(reg.entries, known,
      Created(known, before + if Eligible(attribute) then [Bind(device, attribute)] else []), devs')
    ensures forall k :: k in old(reg.entries) ==> k in reg.entries && reg.entries[k] == old(reg.entries)[k]
  {
    devs' := devs;
    ghost var c := Bind(device, attribute);
    if Eligible(attribute) {
      CreatedStep(known, before, c);
    } else {
      assert before + [] == before;
    }
    if attribute.cluster != 0 && attribute.name.Some? {
      var key := RegistryKey(device, attribute);
      var value := GetValue(attribute);
      if value != VNone && key !in reg.entries && value.VBool? {
        var entity := NewBinarySensor(device, attribute);
        RegisteredStep(reg.entries, known, Created(known, before), devs, c);
        devs' := devs + [entity];
        reg.entries := reg.entries[key := BinarySensor(entity)];
      }
    }
  }

  /** The inner loop over one device's records, in order. */
  method SyncDevice(reg: AttrRegistry, device: Device, devs: seq<ZiGateBinarySensor>,
                    ghost known: set<string>, ghost done: seq<Candidate>)
    returns (devs': seq<ZiGateBinarySensor>)
    requires Registered(reg.entries, known, Created(known, done), devs)
    modifies reg
    ensures Registered(reg.entries, known, Created(known, done + RecordCandidates(device, device.attributes)), devs')
    ensures forall k :: k in old(reg.entries) ==> k in reg.entries && reg.entries[k] == old(reg.entries)[k]
  {
    var attributes := device.attributes;
    devs' := devs;
    var j := 0;
    assert attributes[..0] == [] && done + [] == done;
    while j < |attributes|
      invariant 0 <= j <= |attributes|
      invariant Registered(reg.entries, known, Created(known, done + RecordCandidates(device, attributes[..j])), devs')
      invariant forall k :: k in old(reg.entries) ==> k in reg.entries && reg.entries[k] == old(reg.entries)[k]
    {
      ghost var before := done + RecordCandidates(device, attributes[..j]);
      devs' := SyncRecord(reg, device, attributes[j], devs', known, before);
      RecordCandidatesExtend(done, device, attributes, j);
      j := j + 1;
    }
    assert attributes[..j] == attributes;
  }

  /** The walk of `sync_attributes` over the devices, in order. */
  method SyncDevices(reg: AttrRegistry, devices: seq<Device>, ghost known: set<string>) returns (devs: seq<ZiGateBinarySensor>)
    requires known == reg.entries.Keys
    modifies reg
    ensures Registered(reg.entries, known, Created(known, Candidates(devices)), devs)
    ensures forall k :: k in old(reg.entries) ==> k in reg.entries && reg.entries[k] == old(reg.entries)[k]
  {
    devs := [];
    var i := 0;
    while i < |devices|
      invariant 0 <= i <= |devices|
      invariant Registered(reg.entries, known, Created(known, Candidates(devices[..i])), devs)
      invariant forall k :: k in old(reg.entries) ==> k in reg.entries && reg.entries[k] == old(reg.entries)[k]
    {
      CandidatesStep(devices, i);
      devs := SyncDevice(reg, devices[i], devs, known, Candidates(devices[..i]));
      i := i + 1;
    }
    assert devices[..i] == devices;
  }

  /** `sync_attributes` of the binary-sensor platform: `devs`, the list handed to
      `add_devices`, is one binary sensor per candidate whose key was free, in order. */
  method SyncAttributes(reg: AttrRegistry, devices: seq<Device>) returns (devs: seq<ZiGateBinarySensor>)
    requires WellKeyed(reg.entries)
    modifies reg
    ensures WellKeyed(reg.entries)
    ensures Registered(reg.entries, old(reg.entries).Keys, Created(old(reg.entries).Keys, Candidates(devices)), devs)
    ensures forall k :: k in old(reg.entries) ==> k in reg.entries && reg.entries[k] == old(reg.entries)[k]
  {
    ghost var known := reg.entries.Keys;
    devs := SyncDevices(reg, devices, known);
    RegisteredWellKeyed(old(reg.entries), reg.entries, devices, devs);
  }

  /** `setup_platform`: without discovery information nothing is registered. */
  method SetupPlatform(reg: AttrRegistry, devices: seq<Device>, discovered: bool) returns (devs: seq<ZiGateBinarySensor>)
    requires WellKeyed(reg.entries)
    modifies reg
    ensures WellKeyed(reg.entries)
    ensures !discovered ==> devs == [] && reg.entries == old(reg.entries)
    ensures discovered ==>
      Registered(reg.entries, old(reg.entries).Keys, Created(old(reg.entries).Keys, Candidates(devices)), devs)
    ensures forall k :: k in old(reg.entries) ==> k in reg.entries && reg.entries[k] == old(reg.entries)[k]
  {
    if !discovered {
      return [];
    }
    devs := SyncAttributes(reg, devices);
  }

  /** Idempotence: a second pass over unchanged devices creates nothing and leaves the
      registry as the first pass left it. */
  method SyncTwice(reg: AttrRegistry, devices: seq<Device>) returns (first: seq<ZiGateBinarySensor>, second: seq<ZiGateBinarySensor>)
    requires WellKeyed(reg.entries)
    modifies reg
    ensures second == []
    ensures WellKeyed(reg.entries)
    ensures Registered(reg.entries, old(reg.entries).Keys, Created(old(reg.entries).Keys, Candidates(devices)), first)
    ensures forall k :: k in old(reg.entries) ==> k in reg.entries && reg.entries[k] == old(reg.entries)[k]
  {
    first := SyncAttributes(reg, devices);
    ghost var afterFirst := reg.entries;
    Idempotent(old(reg.entries).Keys, Candidates(devices));
    second := SyncAttributes(reg, devices);
    assert KeySet<(Device, Attribute)>([]) == {};
    assert reg.entries.Keys == afterFirst.Keys;
    assert reg.entries == afterFirst;
  }
}
