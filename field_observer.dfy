/**
  The field observer itself: the WatchedFields dictionary, here the field of
  an `Observer` object rather than a static field, with the registration,
  unregistration and polling operations of FieldObserver. Each method is
  specified by the function of the same operation on the registry value
  (Registry.Observe, Registry.UnobserveGlobal, Registry.UnobserveScoped,
  Dispatch.Ticked and Dispatch.TickCalls).
 */
module FieldObserver {
  import opened Reflection
  import opened Callbacks
  import opened Registry
  import opened Dispatch

  class Observer {
    /** The dictionary from (target, field name) to the WatchedField record. */
    var watched: Watches

    /** Every record sits under its own target and field name and has a callback. */
    ghost predicate Valid()
      reads this
    {
      WellFormed(watched)
    }

    /** The static initialiser: the dictionary starts out empty. */
    constructor ()
      ensures Valid() && watched == map[]
    {
      watched := map[];
    }

    /**
      ObserveField: appends the callback to the key's record, or resolves the
      field, snapshots its current value and creates the record with just
      this callback. Invokes nothing.
     */
    method ObserveField(target: Ref, fieldName: string, callback: CallbackId, heap: Heap) returns (outcome: Outcome)
      requires Valid()
      modifies this
      ensures Valid()
      ensures (watched, outcome) == Observe(old(watched), heap, target, fieldName, callback)
    {
      var key := (target, fieldName);

      if key in watched {
        var wf := watched[key];
        watched := watched[key := wf.(callbacks := wf.callbacks + [callback])];
        outcome := Appended;
        return;
      }

      if target.Null? {
        // target.GetType() throws a NullReferenceException
        outcome := NullTarget;
        return;
      }
      var field := Resolve(heap, target.id, fieldName);
      if field.None? {
        // the warning "field not found" is logged
        outcome := FieldNotFound;
        return;
      }

      var currentValue := Read(heap, target.id, field.value);
      var newWatched := Record(target, field.value, currentValue, []);
      newWatched := newWatched.(callbacks := newWatched.callbacks + [callback]);
      assert newWatched.callbacks == [callback];

      watched := watched[key := newWatched];
      outcome := Registered;
    }

    /** UnObserveFieldGlobal: drops the key's record with all its callbacks; a no-op on an absent key. */
    method UnObserveFieldGlobal(target: Ref, fieldName: string)
      requires Valid()
      modifies this
      ensures Valid()
      ensures watched == UnobserveGlobal(old(watched), (target, fieldName))
    {
      var key := (target, fieldName);
      var present := DoesContainKey(key);
      if !present {
        return;
      }
      watched := watched - {key};
    }

    /**
      UnObserveFieldScoped: removes the first occurrence of the callback from
      the key's record, and the record itself once its list is empty.
     */
    method UnObserveFieldScoped(target: Ref, fieldName: string, callback: CallbackId)
      requires Valid()
      modifies this
      ensures Valid()
      ensures watched == UnobserveScoped(old(watched), (target, fieldName), callback)
    {
      var key := (target, fieldName);
      var present := DoesContainKey(key);
      if !present {
        return;
      }

      var wf := watched[key];
      watched := watched[key := wf.(callbacks := RemoveFirst(wf.callbacks, callback))];
      if |watched[key].callbacks| == 0 {
        watched := watched - {key};
      }
    }

    /** DoesContainKey: whether the dictionary holds a record for the key. */
    method DoesContainKey(key: Key) returns (present: bool)
      ensures present <==> key in watched
    {
      present := key in watched;
    }

    /**
      The inner foreach of Tick: calls every callback of the list, in list
      order, with `current`. A callback in `failing` throws; its error is
      logged (the call is flagged) and the loop goes on.
     */
    method Invoke(key: Key, callbacks: seq<CallbackId>, current: Value, failing: set<CallbackId>) returns (calls: seq<Invocation>)
      ensures calls == Notify(key, callbacks, current, failing)
    {
      calls := [];
      var j := 0;
      while j < |callbacks|
        invariant 0 <= j <= |callbacks|
        invariant calls == Notify(key, callbacks[..j], current, failing)
      {
        var callback := callbacks[j];
        // try { callback(current); } catch { the error is logged }
        var failed := callback in failing;
        calls := calls + [Invocation(key, callback, current, failed)];
        assert callbacks[..j + 1] == callbacks[..j] + [callback];
        j := j + 1;
      }
      assert callbacks[..j] == callbacks;
    }

    /**
      One turn of Tick's outer foreach: a record with a null target is
      skipped; otherwise its field is read and, when the value differs from
      the snapshot, it becomes the new snapshot before the callbacks run.
     */
    method Poll(key: Key, heap: Heap, failing: set<CallbackId>) returns (calls: seq<Invocation>)
      requires Valid()
      requires key in watched && Readable(heap, watched[key])
      modifies this
      ensures Valid()
      ensures watched == old(watched)[key := Polled(heap, old(watched)[key])]
      ensures calls == RecordCalls(heap, key, old(watched)[key], failing)
    {
      calls := [];
      var wf := watched[key];
      if wf.target.Null? {
        return;
      }
      var current := Read(heap, wf.target.id, wf.field);
      if current != wf.lastValue {
        watched := watched[key := wf.(lastValue := current)];
        calls := Invoke(key, wf.callbacks, current, failing);
      }
    }

    /**
      Tick: visits the records in the dictionary's enumeration order `order`
      and polls each one. Returns the callback calls made, in the order made.
     */
    method Tick(heap: Heap, order: seq<Key>, failing: set<CallbackId>) returns (calls: seq<Invocation>)
      requires Valid()
      requires IsEnumeration(watched, order)
      requires AllReadable(watched, heap)
      modifies this
      ensures Valid()
      ensures watched == Ticked(old(watched), heap)
      ensures calls == TickCalls(old(watched), order, heap, failing)
    {
      ghost var start := watched;
      PartlyTickedEnds(start, heap);
      calls := [];
      var i := 0;
      while i < |order|
        invariant 0 <= i <= |order|
        invariant Valid()
        invariant watched == PartlyTicked(start, Elems(order[..i]), heap)
        invariant calls == TickCalls(start, order[..i], heap, failing)
      {
        var key := order[i];
        ElemsAt(order, i);
        NoDupAt(order, i);
        PartlyTickedStep(start, Elems(order[..i]), key, heap);
        TickCallsStep(start, order, i, heap, failing);
        ElemsStep(order, i);
        var own := Poll(key, heap, failing);
        calls := calls + own;
        i := i + 1;
      }
      assert order[..i] == order;
    }
  }
}
