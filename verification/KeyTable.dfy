/** The table that gives every instrumentation key its slot: keys are registered in the order in
    which they first turn up, as long as there is room. */
module KeyTable {
  import opened CInt
  import opened ProngCacheModel

  function Register(keys: seq<InstrumentationKey>, key: InstrumentationKey, max: nat): seq<InstrumentationKey> {
    if key in keys || |keys| >= max then keys else keys + [key]
  }

  function RegisterAll(requested: seq<InstrumentationKey>, max: nat): seq<InstrumentationKey> {
    if requested == [] then []
    else Register(RegisterAll(requested[..|requested| - 1], max), requested[|requested| - 1], max)
  }

  /** The slot of a registered key. */
  function SlotOf(keys: seq<InstrumentationKey>, key: InstrumentationKey): (slot: nat)
    requires key in keys
    ensures slot < |keys| && keys[slot] == key
  {
    if keys[0] == key then 0 else 1 + SlotOf(keys[1..], key)
  }

  ghost predicate Distinct(keys: seq<InstrumentationKey>) {
    forall i, j :: 0 <= i < j < |keys| ==> keys[i] != keys[j]
  }

  /** Slots are never reassigned, never shared, and there are never too many of them. */
  lemma RegisterKeepsSlots(keys: seq<InstrumentationKey>, key: InstrumentationKey, max: nat)
    requires Distinct(keys) && |keys| <= max
    ensures var after := Register(keys, key, max);
            && Distinct(after) && |after| <= max && keys <= after
            && (key in after <==> key in keys || |keys| < max)
            && Register(after, key, max) == after
  {
    var after := Register(keys, key, max);
    if after != keys { assert after[|keys|] == key; }
  }

  lemma {:induction false} RegisteredAreDistinct(requested: seq<InstrumentationKey>, max: nat)
    ensures Distinct(RegisterAll(requested, max)) && |RegisterAll(requested, max)| <= max
  {
    if requested != [] {
      RegisteredAreDistinct(requested[..|requested| - 1], max);
      RegisterKeepsSlots(RegisterAll(requested[..|requested| - 1], max), requested[|requested| - 1], max);
    }
  }

  /** Without a repeated key, and only then, the i-th key that is asked for gets slot i. */
  lemma SlotsFollowRequestsIff(requested: seq<InstrumentationKey>, max: nat)
    requires |requested| <= max
    ensures RegisterAll(requested, max) == requested <==> Distinct(requested)
  {
    RegisteredAreDistinct(requested, max);
    if Distinct(requested) { DistinctGetTheirSlots(requested, max); }
  }

  lemma {:induction false} DistinctGetTheirSlots(requested: seq<InstrumentationKey>, max: nat)
    requires |requested| <= max && Distinct(requested)
    ensures RegisterAll(requested, max) == requested
  {
    if requested != [] {
      DistinctGetTheirSlots(requested[..|requested| - 1], max);
    }
  }

  /** As long as there is room every key that is asked for gets a slot. */
  lemma {:induction false} RequestsAreRegistered(requested: seq<InstrumentationKey>, max: nat, j: nat)
    requires j < |requested| <= max
    ensures requested[j] in RegisterAll(requested, max) && |RegisterAll(requested, max)| <= |requested|
  {
    var front := requested[..|requested| - 1];
    if front == [] {
      assert RegisterAll(requested, max) == [requested[0]];
    } else {
      RequestsAreRegistered(front, max, if j < |front| then j else 0);
      RegisterFindsRoom(RegisterAll(front, max), requested[|front|], max);
      assert j < |front| ==> requested[j] == front[j];
    }
  }

  lemma RegisterFindsRoom(keys: seq<InstrumentationKey>, key: InstrumentationKey, max: nat)
    requires |keys| < max
    ensures key in Register(keys, key, max) && |Register(keys, key, max)| <= |keys| + 1
    ensures forall k <- keys :: k in Register(keys, key, max)
  {
    assert Register(keys, key, max) == keys || Register(keys, key, max)[|keys|] == key;
  }

  /** The i-th key gets slot i, for every i, exactly if no key is repeated. */
  lemma EachRequestGetsItsSlotIff(requested: seq<InstrumentationKey>, max: nat)
    requires |requested| <= max
    ensures forall j :: 0 <= j < |requested| ==> requested[j] in RegisterAll(requested, max)
    ensures (forall j :: 0 <= j < |requested| ==> SlotOf(RegisterAll(requested, max), requested[j]) == j)
            <==> Distinct(requested)
  {
    forall j | 0 <= j < |requested| ensures requested[j] in RegisterAll(requested, max) {
      RequestsAreRegistered(requested, max, j);
    }
    if Distinct(requested) {
      DistinctGetTheirSlots(requested, max);
      forall j | 0 <= j < |requested| ensures SlotOf(RegisterAll(requested, max), requested[j]) == j {
        assert requested[SlotOf(requested, requested[j])] == requested[j];
      }
    }
  }

  /** A repeated key moves the ones after it: the third key gets the second slot. */
  lemma RepeatedKeyShiftsSlots(k: InstrumentationKey, other: InstrumentationKey, max: nat)
    requires k != other && max >= 3
    ensures RegisterAll([k, k, other], max) == [k, other] && SlotOf(RegisterAll([k, k, other], max), other) == 1
  {
    assert [k, k, other][..2] == [k, k] && [k, k][..1] == [k] && [k][..0] == [];
    assert RegisterAll([k], max) == [k];
    assert RegisterAll([k, k], max) == [k];
    assert RegisterAll([k, k, other], max) == [k, other];
    assert [k, other][1..] == [other];
  }
}
