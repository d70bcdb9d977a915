/**
  Two client runs of the observer, each driving one `Observer` object
  through registration, field changes, polls and unregistration.
 */
module Scenarios {
  import opened Reflection
  import opened Callbacks
  import opened Registry
  import opened Dispatch
  import opened FieldObserver

  /**
    A target `t` whose field `count` starts at `v0`, with callback `c1`
    registered on it: after the field is set to `v5` a Tick invokes `c1`
    once with `v5`; setting the same value again and ticking invokes
    nothing; after unregistering the key, setting `v9` and ticking invokes
    nothing either.
   */
  method CountScenario(t: TargetId, c1: CallbackId, v0: Value, v5: Value, v9: Value, failing: set<CallbackId>)
    returns (first: seq<Invocation>, second: seq<Invocation>, third: seq<Invocation>)
    requires v0 != v5
    ensures first == [Invocation((Obj(t), "count"), c1, v5, c1 in failing)]
    ensures second == []
    ensures third == []
  {
    var key := (Obj(t), "count");
    var observer := new Observer();
    var outcome := observer.ObserveField(Obj(t), "count", c1, Heap(map[(t, "count") := v0]));
    assert observer.watched == map[key := Record(Obj(t), FieldHandle("count"), v0, [c1])];

    var heap5 := Heap(map[(t, "count") := v5]);
    assert Elems([key]) == {key};
    first := observer.Tick(heap5, [key], failing);
    assert observer.watched == map[key := Record(Obj(t), FieldHandle("count"), v5, [c1])];

    second := observer.Tick(heap5, [key], failing);

    observer.UnObserveFieldGlobal(Obj(t), "count");
    assert observer.watched == map[];
    third := observer.Tick(Heap(map[(t, "count") := v9]), [], failing);
  }

  /**
    Registering a field the target does not have reports FieldNotFound,
    creates no record, and no later Tick invokes anything.
   */
  method MissingFieldScenario(t: TargetId, c1: CallbackId, heap: Heap, later: Heap, failing: set<CallbackId>)
    returns (outcome: Outcome, calls: seq<Invocation>)
    requires (t, "doesNotExist") !in heap.values
    ensures outcome == FieldNotFound
    ensures calls == []
  {
    var observer := new Observer();
    outcome := observer.ObserveField(Obj(t), "doesNotExist", c1, heap);
    assert observer.watched == map[];
    calls := observer.Tick(later, [], failing);
  }
}
