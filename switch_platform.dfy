/** The switch platform's `sync_attributes`: one switch per endpoint whose only action
    is on/off, stored under `'{ieee or addr}-switch-{endpoint}'`. */
module SwitchPlatform {
  import opened Values
  import opened Driver
  import opened Binder
  import opened SwitchEntity
  import opened Registry
  import SensorPlatform

  /** An entry of `available_actions()` the platform binds: its action list is exactly `[onoff]`. */
  predicate OnOffOnly(entry: (nat, seq<ActionType>)) {
    entry.1 == [ACTIONS_ONOFF]
  }

  type Candidate = Keyed<(Device, nat)>

  function Bind(d: Device, endpoint: nat): Candidate {
    Keyed(RegistryKey(d, endpoint), (d, endpoint))
  }

  /** The on/off-only endpoints among `actions` of device `d`, in order. */
  function EndpointCandidates(d: Device, actions: seq<(nat, seq<ActionType>)>): seq<Candidate>
    decreases |actions|
  {
    if actions == [] then []
    else
      var e := actions[|actions| - 1];
      EndpointCandidates(d, actions[..|actions| - 1]) + (if OnOffOnly(e) then [Bind(d, e.0)] else [])
  }

  /** The endpoints of one device the platform binds: none when the device has no action at all. */
  function DeviceCandidates(d: Device): seq<Candidate> {
    if AnyActions(d) then EndpointCandidates(d, d.actions) else []
  }

  /** The endpoints the platform walks over, in order. */
  function Candidates(ds: seq<Device>): seq<Candidate>
    decreases |ds|
  {
    if ds == [] then []
    else Candidates(ds[..|ds| - 1]) + DeviceCandidates(ds[|ds| - 1])
  }

  lemma CandidatesStep(ds: seq<Device>, i: nat)
    requires i < |ds|
    ensures Candidates(ds[..i + 1]) == Candidates(ds[..i]) + DeviceCandidates(ds[i])
  {
    assert ds[..i + 1][..i] == ds[..i];
  }

  /** One step of the walk over a device's actions, behind the candidates already walked. */
  lemma EndpointCandidatesExtend(done: seq<Candidate>, d: Device, actions: seq<(nat, seq<ActionType>)>, j: nat)
    requires j < |actions|
    ensures done + EndpointCandidates(d, actions[..j + 1]) ==
      (done + EndpointCandidates(d, actions[..j])) + if OnOffOnly(actions[j]) then [Bind(d, actions[j].0)] else []
  {
    assert actions[..j + 1][..j] == actions[..j];
  }

  lemma {:induction false} EndpointCandidatesSound(d: Device, actions: seq<(nat, seq<ActionType>)>)
    ensures forall c :: c in EndpointCandidates(d, actions) ==>
      c.item.0 == d && (c.item.1, [ACTIONS_ONOFF]) in actions && c == Bind(d, c.item.1)
    decreases |actions|
  {
    if actions != [] {
      EndpointCandidatesSound(d, actions[..|actions| - 1]);
      var e := actions[|actions| - 1];
      forall c | c in EndpointCandidates(d, actions)
        ensures (c.item.1, [ACTIONS_ONOFF]) in actions
      {
        if c in EndpointCandidates(d, actions[..|actions| - 1]) {
          var i :| 0 <= i < |actions| - 1 && actions[..|actions| - 1][i] == (c.item.1, [ACTIONS_ONOFF]);
          assert actions[i] == (c.item.1, [ACTIONS_ONOFF]);
        } else {
          assert e == (c.item.1, [ACTIONS_ONOFF]);
        }
      }
    }
  }

  /** Filter soundness: every candidate is an on/off-only endpoint of a listed device,
      keyed by its registry key. */
  lemma {:induction false} CandidatesSound(ds: seq<Device>)
    ensures forall c :: c in Candidates(ds) ==>
      c.item.0 in ds && (c.item.1, [ACTIONS_ONOFF]) in c.item.0.actions
      && c.key == RegistryKey(c.item.0, c.item.1)
    decreases |ds|
  {
    if ds != [] {
      var d := ds[|ds| - 1];
      CandidatesSound(ds[..|ds| - 1]);
      EndpointCandidatesSound(d, d.actions);
    }
  }

  lemma {:induction false} EndpointCandidatesComplete(d: Device, actions: seq<(nat, seq<ActionType>)>, endpoint: nat)
    requires (endpoint, [ACTIONS_ONOFF]) in actions
    ensures Bind(d, endpoint) in EndpointCandidates(d, actions)
    decreases |actions|
  {
    if actions[|actions| - 1] != (endpoint, [ACTIONS_ONOFF]) {
      assert (endpoint, [ACTIONS_ONOFF]) in actions[..|actions| - 1] by {
        var i :| 0 <= i < |actions| && actions[i] == (endpoint, [ACTIONS_ONOFF]);
        assert actions[..|actions| - 1][i] == actions[i];
      }
      EndpointCandidatesComplete(d, actions[..|actions| - 1], endpoint);
    }
  }

  /** Filter completeness: every on/off-only endpoint of a listed device is a candidate. */
  lemma {:induction false} CandidatesComplete(ds: seq<Device>, d: Device, endpoint: nat)
    requires d in ds && (endpoint, [ACTIONS_ONOFF]) in d.actions
    ensures Bind(d, endpoint) in Candidates(ds)
    decreases |ds|
  {
    if d != ds[|ds| - 1] {
      assert d in ds[..|ds| - 1] by {
        var i :| 0 <= i < |ds| && ds[i] == d;
        assert ds[..|ds| - 1][i] == d;
      }
      CandidatesComplete(ds[..|ds| - 1], d, endpoint);
    } else {
      var i :| 0 <= i < |d.actions| && d.actions[i] == (endpoint, [ACTIONS_ONOFF]);
      assert d.actions[i].1 != [];
      EndpointCandidatesComplete(d, d.actions, endpoint);
    }
  }

  /** The device-level `any(actions.values())` skip changes nothing: a device without
      actions has no on/off-only endpoint. */
  lemma {:induction false} SkipIsRedundant(d: Device, actions: seq<(nat, seq<ActionType>)>)
    requires forall i :: 0 <= i < |actions| ==> actions[i].1 == []
    ensures EndpointCandidates(d, actions) == []
    decreases |actions|
  {
    if actions != [] {
      SkipIsRedundant(d, actions[..|actions| - 1]);
    }
  }

  /** A device never gets both a sensor and a switch: a switch endpoint means the device
      has actions, which rules out every sensor record of that device. */
  lemma SwitchExcludesSensors(ds: seq<Device>, d: Device, endpoint: nat, a: Attribute)
    requires Bind(d, endpoint) in Candidates(ds)
    ensures SensorPlatform.Bind(d, a) !in SensorPlatform.Candidates(ds)
  {
    CandidatesSound(ds);
    SensorPlatform.CandidatesSound(ds);
    var i :| 0 <= i < |d.actions| && d.actions[i] == (endpoint, [ACTIONS_ONOFF]);
    assert d.actions[i].1 != [];
  }

  /** What a pass creates is an on/off-only endpoint and goes under a key that was free. */
  lemma PassSound(known: set<string>, ds: seq<Device>)
    ensures forall c :: c in Created(known, Candidates(ds)) ==>
      c.item.0 in ds && (c.item.1, [ACTIONS_ONOFF]) in c.item.0.actions
      && c.key == RegistryKey(c.item.0, c.item.1) && c.key !in known
  {
    CandidatesSound(ds);
    CreatedFromCandidates(known, Candidates(ds));
    CreatedFresh(known, Candidates(ds));
    var made := Created(known, Candidates(ds));
    forall c | c in made ensures c.key !in known {
      var i :| 0 <= i < |made| && made[i] == c;
      assert c.key in KeySet(made);
    }
  }

  /** After a pass, every on/off-only endpoint of a listed device has a registry entry. */
  lemma PassComplete(known: set<string>, ds: seq<Device>, d: Device, endpoint: nat)
    requires d in ds && (endpoint, [ACTIONS_ONOFF]) in d.actions
    ensures RegistryKey(d, endpoint) in known + KeySet(Created(known, Candidates(ds)))
  {
    var cs := Candidates(ds);
    CandidatesComplete(ds, d, endpoint);
    CreatedCovers(known, cs);
    var i :| 0 <= i < |cs| && cs[i] == Bind(d, endpoint);
    assert RegistryKey(d, endpoint) in KeySet(cs);
  }

  /** `devs` are the switches made for the candidates `made`, in order, each stored
      under its candidate's key; the registry holds exactly `known` and those keys. */
  ghost predicate Registered(entries: map<string, Entity>, known: set<string>, made: seq<Candidate>, devs: seq<ZiGateSwitch>) {
    && |devs| == |made|
    && entries.Keys == known + KeySet(made)
    && forall t :: 0 <= t < |made| ==>
         && devs[t].device == made[t].item.0 && devs[t].endpoint == made[t].item.1
         && made[t].key in entries && entries[made[t].key] == Switch(devs[t])
  }

  /** Registering one more switch under a free key keeps `Registered`. */
  lemma RegisteredStep(entries: map<string, Entity>, known: set<string>, made: seq<Candidate>,
                       devs: seq<ZiGateSwitch>, c: Candidate, x: ZiGateSwitch)
    requires Registered(entries, known, made, devs) && c.key !in entries
    requires x.device == c.item.0 && x.endpoint == c.item.1
    ensures Registered(entries[c.key := Switch(x)], known, made + [c], devs + [x])
  {
    KeySetAppend(made, c);
  }

  /** A registry that was well keyed, kept its old entries and gained exactly the
      entities a pass over `ds` creates is well keyed. */
  lemma RegisteredWellKeyed(before: map<string, Entity>, entries: map<string, Entity>,
                            ds: seq<Device>, devs: seq<ZiGateSwitch>)
    requires WellKeyed(before) && Registered(entries, before.Keys, Created(before.Keys, Candidates(ds)), devs)
    requires forall k :: k in before ==> k in entries && entries[k] == before[k]
    ensures WellKeyed(entries)
  {
    var made := Created(before.Keys, Candidates(ds));
    PassSound(before.Keys, ds);
    forall k | k in entries ensures KeyOf(entries[k]) == k {
      if k !in before {
        var t :| 0 <= t < |made| && made[t].key == k;
        assert made[t] in made;
      }
    }
  }

  /** One pass of the inner loop: an on/off-only endpoint whose key is still free gets a
      switch; otherwise nothing changes. */
  method SyncEndpoint(reg: AttrRegistry, device: Device, entry: (nat, seq<ActionType>), devs: seq<ZiGateSwitch>,
                      ghost known: set<string>, ghost before: seq<Candidate>)
    returns (devs': seq<ZiGateSwitch>)
    requires Registered(reg.entries, known, Created(known, before), devs)
    modifies reg
    ensures Registered(reg.entries, known,
      Created(known, before + if OnOffOnly(entry) then [Bind(device, entry.0)] else []), devs')
    ensures devs <= devs'
    ensures forall x :: x in devs' && x !in devs ==> fresh(x) && x.isOn == InitialIsOn(device, entry.0)
    ensures forall k :: k in old(reg.entries) ==> k in reg.entries && reg.entries[k] == old(reg.entries)[k]
  {
    devs' := devs;
    var (endpoint, actionType) := entry;
    ghost var made := Created(known, before);
    ghost var c := Bind(device, endpoint);
    if OnOffOnly(entry) {
      CreatedStep(known, before, c);
    } else {
      assert before + [] == before;
    }
    if [ACTIONS_ONOFF] == actionType {
      var key := RegistryKey(device, endpoint);
      if key !in reg.entries {
        var entity := new ZiGateSwitch(device, endpoint);
        RegisteredStep(reg.entries, known, made, devs, c, entity);
        devs' := devs + [entity];
        reg.entries := reg.entries[key := Switch(entity)];
      }
    }
  }

  /** The body of the outer loop: a device without actions is skipped, otherwise its
      `available_actions()` are walked in order. */
  method SyncDevice(reg: AttrRegistry, device: Device, devs: seq<ZiGateSwitch>,
                    ghost known: set<string>, ghost done: seq<Candidate>)
    returns (devs': seq<ZiGateSwitch>)
    requires Registered(reg.entries, known, Created(known, done), devs)
    modifies reg
    ensures Registered(reg.entries, known, Created(known, done + DeviceCandidates(device)), devs')
    ensures devs <= devs'
    ensures forall x :: x in devs' ==> x in devs || fresh(x)
    ensures forall k :: k in old(reg.entries) ==> k in reg.entries && reg.entries[k] == old(reg.entries)[k]
  {
    devs' := devs;
    if !AnyActions(device) {
      assert done + [] == done;
      return;
    }
    var actions := device.actions;
    var j := 0;
    assert actions[..0] == [] && done + [] == done;
    while j < |actions|
      invariant 0 <= j <= |actions|
      invariant Registered(reg.entries, known, Created(known, done + EndpointCandidates(device, actions[..j])), devs')
      invariant devs <= devs'
      invariant forall x :: x in devs' ==> x in devs || fresh(x)
      invariant forall k :: k in old(reg.entries) ==> k in reg.entries && reg.entries[k] == old(reg.entries)[k]
    {
      ghost var prefix := EndpointCandidates(device, actions[..j]);
      var next := SyncEndpoint(reg, device, actions[j], devs', known, done + prefix);
      EndpointCandidatesExtend(done, device, actions, j);
      devs' := next;
      j := j + 1;
    }
    assert actions[..j] == actions;
  }

  /** The walk of `sync_attributes` over the devices, in order. */
  method SyncDevices(reg: AttrRegistry, devices: seq<Device>, ghost known: set<string>) returns (devs: seq<ZiGateSwitch>)
    requires known == reg.entries.Keys
    modifies reg
    ensures Registered(reg.entries, known, Created(known, Candidates(devices)), devs)
    ensures forall x :: x in devs ==> fresh(x)
    ensures forall k :: k in old(reg.entries) ==> k in reg.entries && reg.entries[k] == old(reg.entries)[k]
  {
    devs := [];
    var i := 0;
    while i < |devices|
      invariant 0 <= i <= |devices|
      invariant Registered(reg.entries, known, Created(known, Candidates(devices[..i])), devs)
      invariant forall x :: x in devs ==> fresh(x)
      invariant forall k :: k in old(reg.entries) ==> k in reg.entries && reg.entries[k] == old(reg.entries)[k]
    {
      CandidatesStep(devices, i);
      devs := SyncDevice(reg, devices[i], devs, known, Candidates(devices[..i]));
      i := i + 1;
    }
    assert devices[..i] == devices;
  }

  /** `sync_attributes` of the switch platform. The registry is shared with the other
      platforms; `devs` is the list handed to `async_add_entities`. */
  method SyncAttributes(reg: AttrRegistry, devices: seq<Device>) returns (devs: seq<ZiGateSwitch>)
    requires WellKeyed(reg.entries)
    modifies reg
    ensures WellKeyed(reg.entries)
    ensures Registered(reg.entries, old(reg.entries).Keys, Created(old(reg.entries).Keys, Candidates(devices)), devs)
    ensures forall x :: x in devs ==> fresh(x)
    ensures forall k :: k in old(reg.entries) ==> k in reg.entries && reg.entries[k] == old(reg.entries)[k]
  {
    ghost var known := reg.entries.Keys;
    devs := SyncDevices(reg, devices, known);
    RegisteredWellKeyed(old(reg.entries), reg.entries, devices, devs);
  }

  /** Idempotence: a second pass over unchanged devices creates nothing and leaves the
      registry as the first pass left it. */
  method SyncTwice(reg: AttrRegistry, devices: seq<Device>) returns (first: seq<ZiGateSwitch>, second: seq<ZiGateSwitch>)
    requires WellKeyed(reg.entries)
    modifies reg
    ensures second == []
    ensures WellKeyed(reg.entries)
    ensures Registered(reg.entries, old(reg.entries).Keys, Created(old(reg.entries).Keys, Candidates(devices)), first)
    ensures forall k :: k in old(reg.entries) ==> k in reg.entries && reg.entries[k] == old(reg.entries)[k]
    ensures forall x :: x in first ==> fresh(x)
  {
    first := SyncAttributes(reg, devices);
    ghost var afterFirst := reg.entries;
    Idempotent(old(reg.entries).Keys, Candidates(devices));
    second := SyncAttributes(reg, devices);
    assert KeySet<(Device, nat)>([]) == {};
    assert reg.entries.Keys == afterFirst.Keys;
    assert reg.entries == afterFirst;
  }
}
