/** What one `sync_attributes` pass creates, independent of the platform.

    Every platform walks its candidates in order (each candidate is an eligible record
    with the key it would be stored under) and creates an entity for a candidate only
    when its key is absent from the shared registry, where entities created earlier in
    the same pass already sit. `Created` is that pass as a function. */
module Binder {

  datatype Keyed<T> = Keyed(key: string, item: T)

  function KeySet<T>(cs: seq<Keyed<T>>): set<string> {
    set i | 0 <= i < |cs| :: cs[i].key
  }

  /** The candidates of `cs` a pass creates entities for, in order, when the registry
      holds the keys `known` at its start. */
  function Created<T>(known: set<string>, cs: seq<Keyed<T>>): seq<Keyed<T>>
    decreases |cs|
  {
    if cs == [] then []
    else
      var prev := Created(known, cs[..|cs| - 1]);
      var c := cs[|cs| - 1];
      if c.key in known || c.key in KeySet(prev) then prev else prev + [c]
  }

  /** One more candidate: created exactly when its key is in neither the old registry
      nor among the entities already created. */
  lemma CreatedStep<T>(known: set<string>, cs: seq<Keyed<T>>, c: Keyed<T>)
    ensures Created(known, cs + [c]) ==
      if c.key in known + KeySet(Created(known, cs)) then Created(known, cs)
      else Created(known, cs) + [c]
  {
    assert (cs + [c])[..|cs|] == cs;
  }

  lemma KeySetAppend<T>(xs: seq<Keyed<T>>, c: Keyed<T>)
    ensures KeySet(xs + [c]) == KeySet(xs) + {c.key}
  {
    var ys := xs + [c];
    assert forall i :: 0 <= i < |xs| ==> ys[i] == xs[i];
    assert ys[|xs|] == c;
  }

  /** Every created entity comes from a candidate (filter soundness carries over). */
  lemma {:induction false} CreatedFromCandidates<T>(known: set<string>, cs: seq<Keyed<T>>)
    ensures forall c :: c in Created(known, cs) ==> c in cs
    decreases |cs|
  {
    if cs != [] {
      var init := cs[..|cs| - 1];
      CreatedFromCandidates(known, init);
      assert cs == init + [cs[|cs| - 1]];
    }
  }

  /** A pass never creates an entity under a key the registry already holds. */
  lemma {:induction false} CreatedFresh<T>(known: set<string>, cs: seq<Keyed<T>>)
    ensures KeySet(Created(known, cs)) !! known
    decreases |cs|
  {
    if cs != [] {
      var init := cs[..|cs| - 1];
      var c := cs[|cs| - 1];
      CreatedFresh(known, init);
      assert cs == init + [c];
      CreatedStep(known, init, c);
      KeySetAppend(Created(known, init), c);
    }
  }

  /** A pass creates at most one entity per key. */
  lemma {:induction false} CreatedDistinct<T>(known: set<string>, cs: seq<Keyed<T>>)
    ensures var r := Created(known, cs);
      forall i, j :: 0 <= i < j < |r| ==> r[i].key != r[j].key
    decreases |cs|
  {
    if cs != [] {
      var init := cs[..|cs| - 1];
      var c := cs[|cs| - 1];
      CreatedDistinct(known, init);
      assert cs == init + [c];
      CreatedStep(known, init, c);
      var prev := Created(known, init);
      assert forall i :: 0 <= i < |prev| ==> prev[i].key in KeySet(prev);
    }
  }

  /** After a pass every candidate key is registered, old or new (completeness). */
  lemma {:induction false} CreatedCovers<T>(known: set<string>, cs: seq<Keyed<T>>)
    ensures KeySet(cs) <= known + KeySet(Created(known, cs))
    decreases |cs|
  {
    if cs != [] {
      var init := cs[..|cs| - 1];
      var c := cs[|cs| - 1];
      CreatedCovers(known, init);
      assert cs == init + [c];
      CreatedStep(known, init, c);
      KeySetAppend(init, c);
      KeySetAppend(Created(known, init), c);
    }
  }

  /** A candidate whose key is unknown and that no earlier candidate shares is created:
      the entity stored under a key is the first candidate with that key. */
  lemma {:induction false} CreatedFirstOccurrence<T>(known: set<string>, cs: seq<Keyed<T>>, j: nat)
    requires j < |cs| && cs[j].key !in known
    requires forall m :: 0 <= m < j ==> cs[m].key != cs[j].key
    ensures cs[j] in Created(known, cs)
    decreases |cs|
  {
    var init := cs[..|cs| - 1];
    var c := cs[|cs| - 1];
    assert cs == init + [c];
    CreatedStep(known, init, c);
    if j < |cs| - 1 {
      CreatedFirstOccurrence(known, init, j);
    } else {
      CreatedFromCandidates(known, init);
      var prev := Created(known, init);
      forall i | 0 <= i < |prev| ensures prev[i].key != cs[j].key {
        assert prev[i] in init;
        var m :| 0 <= m < |init| && init[m] == prev[i];
        assert cs[m] == init[m];
      }
    }
  }

  /** A pass over candidates whose keys are all registered creates nothing. */
  lemma {:induction false} CreatedNothingWhenKnown<T>(known: set<string>, cs: seq<Keyed<T>>)
    requires KeySet(cs) <= known
    ensures Created(known, cs) == []
    decreases |cs|
  {
    if cs != [] {
      var init := cs[..|cs| - 1];
      var c := cs[|cs| - 1];
      assert cs == init + [c];
      KeySetAppend(init, c);
      CreatedNothingWhenKnown(known, init);
    }
  }

  /** Idempotence: a second pass over the same candidates, after the first pass
      registered its entities, creates nothing. */
  lemma Idempotent<T>(known: set<string>, cs: seq<Keyed<T>>)
    ensures Created(known + KeySet(Created(known, cs)), cs) == []
  {
    CreatedCovers(known, cs);
    CreatedNothingWhenKnown(known + KeySet(Created(known, cs)), cs);
  }
}
