/**
  The poll step (FieldObserver.Tick) as functions of the registry contents,
  the heap it reads and the dictionary's enumeration order: which callbacks
  it invokes, in what order and with what value, and what the snapshots are
  afterwards. The properties of polling are proved here about those
  functions.
 */
module Dispatch {
  import opened Reflection
  import opened Callbacks
  import opened Registry

  /**
    One `callback(current)` call made by Tick on behalf of the record under
    `key`; `failed` records that the callback threw and the error was logged.
   */
  datatype Invocation = Invocation(key: Key, callback: CallbackId, value: Value, failed: bool)

  /** A record whose target is not null can still read its field (a type's fields never change). */
  predicate Readable(heap: Heap, rec: Record)
  {
    rec.target.Obj? ==> CanRead(heap, rec.target.id, rec.field)
  }

  predicate AllReadable(m: Watches, heap: Heap)
  {
    forall k :: k in m ==> Readable(heap, m[k])
  }

  /** The keys listed in `s`. */
  function Elems(s: seq<Key>): (r: set<Key>)
  {
    if s == [] then {} else Elems(s[..|s| - 1]) + {s[|s| - 1]}
  }

  /** No key occurs twice in `s`. */
  predicate NoDup(s: seq<Key>)
  {
    s == [] || (NoDup(s[..|s| - 1]) && s[|s| - 1] !in Elems(s[..|s| - 1]))
  }

  /**
    `order` lists every key of the dictionary exactly once: the order in
    which `foreach` over the dictionary visits its entries.
   */
  predicate IsEnumeration(m: Watches, order: seq<Key>)
  {
    NoDup(order) && Elems(order) == m.Keys
  }

  lemma {:induction false} ElemsAt(s: seq<Key>, i: nat)
    requires i < |s|
    ensures s[i] in Elems(s)
    decreases |s|
  {
    if i < |s| - 1 {
      assert s[..|s| - 1][i] == s[i];
      ElemsAt(s[..|s| - 1], i);
    }
  }

  /** Listing one more element adds just that element. */
  lemma ElemsStep(s: seq<Key>, i: nat)
    requires i < |s|
    ensures Elems(s[..i + 1]) == Elems(s[..i]) + {s[i]}
  {
    assert s[..i + 1][..i] == s[..i];
  }

  lemma {:induction false} NoDupPrefix(s: seq<Key>, i: nat)
    requires NoDup(s) && i <= |s|
    ensures NoDup(s[..i])
    decreases |s|
  {
    if i < |s| {
      assert s[..|s| - 1][..i] == s[..i];
      NoDupPrefix(s[..|s| - 1], i);
    } else {
      assert s[..i] == s;
    }
  }

  /** In a list without duplicates, an element does not occur before its own position. */
  lemma NoDupAt(s: seq<Key>, i: nat)
    requires NoDup(s) && i < |s|
    ensures s[i] !in Elems(s[..i])
  {
    NoDupPrefix(s, i + 1);
    assert s[..i + 1][..i] == s[..i];
  }

  /**
    The record is polled (its target is not null) and its field no longer
    equals the snapshot. A field that cannot be read counts as unchanged;
    Tick is only run when every field can be read.
   */
  predicate Changed(heap: Heap, rec: Record)
  {
    rec.target.Obj? && CanRead(heap, rec.target.id, rec.field) &&
    Read(heap, rec.target.id, rec.field) != rec.lastValue
  }

  /** The inner foreach: every callback of the list, in list order, called with `v`. */
  function Notify(key: Key, cbs: seq<CallbackId>, v: Value, failing: set<CallbackId>): (r: seq<Invocation>)
    ensures |r| == |cbs|
    ensures forall i :: 0 <= i < |cbs| ==> r[i] == Invocation(key, cbs[i], v, cbs[i] in failing)
  {
    if cbs == [] then []
    else
      var last := cbs[|cbs| - 1];
      Notify(key, cbs[..|cbs| - 1], v, failing) + [Invocation(key, last, v, last in failing)]
  }

  /** The calls one record contributes to a Tick. */
  function RecordCalls(heap: Heap, key: Key, rec: Record, failing: set<CallbackId>): (r: seq<Invocation>)
    ensures |r| == if Changed(heap, rec) then |rec.callbacks| else 0
    ensures forall i :: 0 <= i < |r| ==>
      r[i] == Invocation(key, rec.callbacks[i], Read(heap, rec.target.id, rec.field), rec.callbacks[i] in failing)
  {
    if Changed(heap, rec) then Notify(key, rec.callbacks, Read(heap, rec.target.id, rec.field), failing) else []
  }

  /** The record after it has been polled: the snapshot takes the current value when it differs. */
  function Polled(heap: Heap, rec: Record): (r: Record)
    ensures r.target == rec.target && r.field == rec.field && r.callbacks == rec.callbacks
    ensures rec.target.Obj? && CanRead(heap, rec.target.id, rec.field) ==>
      r.lastValue == Read(heap, rec.target.id, rec.field)
    ensures rec.target.Null? ==> r == rec
    ensures !Changed(heap, rec) ==> r == rec
  {
    if Changed(heap, rec) then rec.(lastValue := Read(heap, rec.target.id, rec.field)) else rec
  }

  /** The registry after a Tick: every record polled, nothing added, removed or re-subscribed. */
  function Ticked(m: Watches, heap: Heap): (r: Watches)
    ensures r.Keys == m.Keys
    ensures forall k :: k in m ==> r[k] == Polled(heap, m[k])
    ensures WellFormed(m) ==> WellFormed(r)
    ensures AllReadable(m, heap) ==> AllReadable(r, heap)
  {
    map k | k in m :: Polled(heap, m[k])
  }

  /** The registry part-way through a Tick: the records under `done` have been polled. */
  function PartlyTicked(m: Watches, done: set<Key>, heap: Heap): (r: Watches)
    ensures r.Keys == m.Keys
    ensures WellFormed(m) ==> WellFormed(r)
    ensures forall k :: k in m ==> r[k] == if k in done then Polled(heap, m[k]) else m[k]
  {
    map k | k in m :: if k in done then Polled(heap, m[k]) else m[k]
  }

  /** Polling one more record of a part-way Tick. */
  lemma PartlyTickedStep(m: Watches, done: set<Key>, key: Key, heap: Heap)
    requires key in m && key !in done
    ensures PartlyTicked(m, done + {key}, heap) == PartlyTicked(m, done, heap)[key := Polled(heap, m[key])]
  {
  }

  /** Before and after the loop. */
  lemma PartlyTickedEnds(m: Watches, heap: Heap)
    ensures PartlyTicked(m, {}, heap) == m
    ensures PartlyTicked(m, m.Keys, heap) == Ticked(m, heap)
  {
  }

  /** All calls of a Tick that visits the records under `order`, one record after another. */
  function TickCalls(m: Watches, order: seq<Key>, heap: Heap, failing: set<CallbackId>): (r: seq<Invocation>)
  {
    if order == [] then []
    else
      var key := order[|order| - 1];
      TickCalls(m, order[..|order| - 1], heap, failing) +
      (if key in m then RecordCalls(heap, key, m[key], failing) else [])
  }

  /** A Tick over one more record of the enumeration makes that record's calls after the others. */
  lemma TickCallsStep(m: Watches, order: seq<Key>, i: nat, heap: Heap, failing: set<CallbackId>)
    requires i < |order| && order[i] in m
    ensures TickCalls(m, order[..i + 1], heap, failing) ==
      TickCalls(m, order[..i], heap, failing) + RecordCalls(heap, order[i], m[order[i]], failing)
  {
    assert order[..i + 1][..i] == order[..i];
  }

  /** The calls made for the record under `key`, in the order they were made. */
  function CallsFor(calls: seq<Invocation>, key: Key): (r: seq<Invocation>)
    ensures |r| <= |calls|
    ensures forall i :: 0 <= i < |r| ==> r[i].key == key
  {
    if calls == [] then []
    else
      var last := calls[|calls| - 1];
      CallsFor(calls[..|calls| - 1], key) + (if last.key == key then [last] else [])
  }

  lemma {:induction false} CallsForConcat(a: seq<Invocation>, b: seq<Invocation>, key: Key)
    ensures CallsFor(a + b, key) == CallsFor(a, key) + CallsFor(b, key)
    decreases |b|
  {
    if b == [] {
      assert a + b == a;
    } else {
      var n := |b| - 1;
      assert (a + b)[..|a + b| - 1] == a + b[..n];
      CallsForConcat(a, b[..n], key);
    }
  }

  lemma {:induction false} CallsForSameKey(calls: seq<Invocation>, key: Key)
    requires forall i :: 0 <= i < |calls| ==> calls[i].key == key
    ensures CallsFor(calls, key) == calls
  {
    if calls != [] {
      CallsForSameKey(calls[..|calls| - 1], key);
    }
  }

  lemma {:induction false} CallsForOtherKey(calls: seq<Invocation>, key: Key)
    requires forall i :: 0 <= i < |calls| ==> calls[i].key != key
    ensures CallsFor(calls, key) == []
  {
    if calls != [] {
      CallsForOtherKey(calls[..|calls| - 1], key);
    }
  }

  /**
    Within a Tick over a prefix of the enumeration, the calls made for `key`
    are that record's calls if the prefix reached it, and none otherwise.
   */
  lemma {:induction false} CallsForTick(m: Watches, order: seq<Key>, heap: Heap, failing: set<CallbackId>, key: Key)
    requires NoDup(order)
    requires key in m
    ensures CallsFor(TickCalls(m, order, heap, failing), key) ==
      if key in Elems(order) then RecordCalls(heap, key, m[key], failing) else []
  {
    if order != [] {
      var n := |order| - 1;
      var last := order[n];
      var front := order[..n];
      CallsForTick(m, front, heap, failing, key);
      var own := if last in m then RecordCalls(heap, last, m[last], failing) else [];
      CallsForConcat(TickCalls(m, front, heap, failing), own, key);
      if last == key {
        CallsForSameKey(own, key);
      } else {
        CallsForOtherKey(own, key);
      }
    }
  }

  /**
    Whatever order the dictionary visits its entries in, a record whose field
    changed has every one of its callbacks invoked once per occurrence in its
    list, in list order, with the current value -- whether or not any of
    them fails -- and a record whose field did not change has none invoked.
   */
  lemma RecordFiresInOrder(m: Watches, order: seq<Key>, heap: Heap, failing: set<CallbackId>, key: Key)
    requires IsEnumeration(m, order)
    requires key in m
    ensures var calls := CallsFor(TickCalls(m, order, heap, failing), key);
      var rec := m[key];
      (Changed(heap, rec) ==>
         |calls| == |rec.callbacks| &&
         forall i :: 0 <= i < |calls| ==>
           calls[i] == Invocation(key, rec.callbacks[i], Read(heap, rec.target.id, rec.field), rec.callbacks[i] in failing)) &&
      (!Changed(heap, rec) ==> calls == [])
  {
    CallsForTick(m, order, heap, failing, key);
  }

  /** A record whose target is null is skipped: nothing is invoked for it and it is left as it was. */
  lemma NullTargetSkipped(m: Watches, order: seq<Key>, heap: Heap, failing: set<CallbackId>, key: Key)
    requires IsEnumeration(m, order)
    requires key in m && m[key].target.Null?
    ensures CallsFor(TickCalls(m, order, heap, failing), key) == []
    ensures Ticked(m, heap)[key] == m[key]
  {
    CallsForTick(m, order, heap, failing, key);
  }

  /**
    Failing callbacks change nothing about which calls a Tick makes, in what
    order or with which values: only the logged `failed` flags differ.
   */
  lemma {:induction false} FailuresDoNotStopDispatch(m: Watches, order: seq<Key>, heap: Heap, f1: set<CallbackId>, f2: set<CallbackId>)
    ensures var a, b := TickCalls(m, order, heap, f1), TickCalls(m, order, heap, f2);
      |a| == |b| &&
      forall i :: 0 <= i < |a| ==> a[i].key == b[i].key && a[i].callback == b[i].callback && a[i].value == b[i].value
  {
    if order != [] {
      FailuresDoNotStopDispatch(m, order[..|order| - 1], heap, f1, f2);
    }
  }

  /** Each call's `failed` flag says exactly whether that callback is one that throws. */
  predicate FlagsExact(calls: seq<Invocation>, failing: set<CallbackId>)
  {
    forall i :: 0 <= i < |calls| ==> (calls[i].failed <==> calls[i].callback in failing)
  }

  /** A Tick logs a callback error exactly for the calls of callbacks that throw. */
  lemma {:induction false} FailedFlagsExact(m: Watches, order: seq<Key>, heap: Heap, failing: set<CallbackId>)
    ensures FlagsExact(TickCalls(m, order, heap, failing), failing)
  {
    if order != [] {
      var front := order[..|order| - 1];
      var key := order[|order| - 1];
      FailedFlagsExact(m, front, heap, failing);
      var before := TickCalls(m, front, heap, failing);
      var own := if key in m then RecordCalls(heap, key, m[key], failing) else [];
      assert FlagsExact(own, failing);
      assert TickCalls(m, order, heap, failing) == before + own;
    }
  }

  /** When no polled field differs from its snapshot, a Tick invokes nothing and changes nothing. */
  lemma {:induction false} QuietWhenUnchanged(m: Watches, order: seq<Key>, heap: Heap, failing: set<CallbackId>)
    requires forall k :: k in m ==> !Changed(heap, m[k])
    ensures TickCalls(m, order, heap, failing) == []
    ensures Ticked(m, heap) == m
  {
    if order != [] {
      QuietWhenUnchanged(m, order[..|order| - 1], heap, failing);
    }
  }

  /**
    A second Tick with no field changes in between invokes nothing, because
    the first one already brought every snapshot up to date.
   */
  lemma SecondTickQuiet(m: Watches, order: seq<Key>, heap: Heap, failing: set<CallbackId>)
    ensures TickCalls(Ticked(m, heap), order, heap, failing) == []
    ensures Ticked(Ticked(m, heap), heap) == Ticked(m, heap)
  {
    var t := Ticked(m, heap);
    QuietWhenUnchanged(t, order, heap, failing);
  }

  /**
    Registration invokes nothing and snapshots the current value, so a Tick
    that sees the same heap does not fire the new record either.
   */
  lemma RegistrationIsQuiet(m: Watches, heap: Heap, target: Ref, name: string, cb: CallbackId, failing: set<CallbackId>)
    requires Observe(m, heap, target, name, cb).1 == Registered
    ensures var r := Observe(m, heap, target, name, cb).0;
      Readable(heap, r[(target, name)]) && RecordCalls(heap, (target, name), r[(target, name)], failing) == []
  {
  }
}
