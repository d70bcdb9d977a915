/**
  The registry as a value: the contents of the WatchedFields dictionary, with
  each WatchedField record seen as a datatype. The methods of
  FieldObserver.Observer are specified by the functions here, and the
  properties of registration and unregistration are proved about them.
 */
module Registry {
  import opened Reflection
  import opened Callbacks

  /** A dictionary key: the target reference and the field name. */
  type Key = (Ref, string)

  /** What a WatchedField record holds. */
  datatype Record = Record(target: Ref, field: FieldHandle, lastValue: Value, callbacks: seq<CallbackId>)

  type Watches = map<Key, Record>

  /** What ObserveField did, including its two ways of not registering. */
  datatype Outcome =
    | Appended       // a record existed: the callback was added to its list
    | Registered     // a new record was created
    | FieldNotFound  // no such field: the warning is logged and nothing else happens
    | NullTarget     // a null target with no record: target.GetType() throws

  /**
    The registry invariant: a record is stored under its own target and field
    name, and no record has an empty callback list.
   */
  predicate WellFormed(m: Watches)
  {
    forall k :: k in m ==> m[k].target == k.0 && m[k].field.name == k.1 && m[k].callbacks != []
  }

  /** Every key other than `key` is present in `r` exactly when it is in `m`, with the same record. */
  predicate SameElsewhere(m: Watches, r: Watches, key: Key)
  {
    (forall k :: k in m && k != key ==> k in r && r[k] == m[k]) &&
    (forall k :: k in r && k != key ==> k in m)
  }

  /** ObserveField(target, fieldName, callback) as a function of the registry and the heap. */
  function Observe(m: Watches, heap: Heap, target: Ref, name: string, cb: CallbackId): (r: (Watches, Outcome))
    ensures WellFormed(m) ==> WellFormed(r.0)
    ensures SameElsewhere(m, r.0, (target, name))
    // an existing record gets the callback at the end of its list and keeps its accessor and snapshot
    ensures (target, name) in m <==> r.1 == Appended
    ensures r.1 == Appended ==>
      (target, name) in r.0 &&
      r.0[(target, name)] == m[(target, name)].(callbacks := m[(target, name)].callbacks + [cb])
    // a fresh registration snapshots the field's current value and holds just this callback
    ensures r.1 == Registered <==>
      (target, name) !in m && target.Obj? && (target.id, name) in heap.values
    ensures r.1 == Registered ==>
      (target, name) in r.0 &&
      r.0[(target, name)] == Record(target, FieldHandle(name), heap.values[(target.id, name)], [cb])
    // a missing field or a null target leaves the registry as it was
    ensures r.1 == FieldNotFound <==> (target, name) !in m && target.Obj? && (target.id, name) !in heap.values
    ensures r.1 == NullTarget <==> (target, name) !in m && target.Null?
    ensures r.1 in {FieldNotFound, NullTarget} ==> r.0 == m
  {
    var key := (target, name);
    if key in m then
      (m[key := m[key].(callbacks := m[key].callbacks + [cb])], Appended)
    else if target.Null? then
      (m, NullTarget)
    else
      match Resolve(heap, target.id, name)
      case None => (m, FieldNotFound)
      case Some(field) => (m[key := Record(target, field, Read(heap, target.id, field), [cb])], Registered)
  }

  /** UnObserveFieldGlobal(target, fieldName): the key's record goes, with all its callbacks. */
  function UnobserveGlobal(m: Watches, key: Key): (r: Watches)
    ensures key !in r
    ensures SameElsewhere(m, r, key)
    ensures key !in m ==> r == m
    ensures WellFormed(m) ==> WellFormed(r)
  {
    if key !in m then m else m - {key}
  }

  /**
    UnObserveFieldScoped(target, fieldName, callback): the first occurrence of
    the callback leaves the record's list, and the record goes when its list
    is then empty.
   */
  function UnobserveScoped(m: Watches, key: Key, cb: CallbackId): (r: Watches)
    ensures SameElsewhere(m, r, key)
    ensures key !in m ==> r == m
    ensures key in m ==> (key in r <==> RemoveFirst(m[key].callbacks, cb) != [])
    ensures key in r ==> r[key] == m[key].(callbacks := RemoveFirst(m[key].callbacks, cb))
    ensures WellFormed(m) ==> WellFormed(r)
  {
    if key !in m then m
    else
      var rest := RemoveFirst(m[key].callbacks, cb);
      if |rest| == 0 then m - {key} else m[key := m[key].(callbacks := rest)]
  }

  /** Removing the whole record a second time changes nothing. */
  lemma UnobserveGlobalIdempotent(m: Watches, key: Key)
    ensures UnobserveGlobal(UnobserveGlobal(m, key), key) == UnobserveGlobal(m, key)
  {
  }

  /** A scoped removal of a callback the record does not hold changes nothing. */
  lemma UnobserveScopedAbsent(m: Watches, key: Key, cb: CallbackId)
    requires WellFormed(m)
    requires key in m ==> cb !in m[key].callbacks
    ensures UnobserveScoped(m, key, cb) == m
  {
  }

  /**
    A scoped removal takes out exactly one occurrence of the callback (the
    first, by the contract of `UnobserveScoped`); the record disappears
    exactly when that was its last callback.
   */
  lemma UnobserveScopedRemovesOne(m: Watches, key: Key, cb: CallbackId)
    requires key in m && cb in m[key].callbacks
    ensures var r := UnobserveScoped(m, key, cb);
      (key !in r <==> m[key].callbacks == [cb]) &&
      (key in r ==> multiset(m[key].callbacks) == multiset(r[key].callbacks) + multiset{cb})
  {
    RemoveFirstEmpty(m[key].callbacks, cb);
    RemoveFirstMultiset(m[key].callbacks, cb);
  }

  /** Removing a callback just appended to an existing record restores the record. */
  lemma AppendThenRemove(m: Watches, key: Key, cb: CallbackId)
    requires key in m && m[key].callbacks != [] && cb !in m[key].callbacks
    ensures UnobserveScoped(m[key := m[key].(callbacks := m[key].callbacks + [cb])], key, cb) == m
  {
    var rec := m[key];
    var grown := m[key := rec.(callbacks := rec.callbacks + [cb])];
    RemoveFirstAppended(rec.callbacks, cb);
    assert RemoveFirst(grown[key].callbacks, cb) == rec.callbacks;
    assert grown[key].(callbacks := rec.callbacks) == rec;
    assert UnobserveScoped(grown, key, cb) == grown[key := rec];
    assert grown[key := rec] == m by {
      MapRestore(m, key, rec.(callbacks := rec.callbacks + [cb]));
    }
  }

  /** Writing back a key's old entry undoes an update of that key. */
  lemma MapRestore(m: Watches, key: Key, v: Record)
    requires key in m
    ensures m[key := v][key := m[key]] == m
  {
  }

  /** Registering a callback and removing it again restores the registry. */
  lemma ObserveThenUnobserveScoped(m: Watches, heap: Heap, target: Ref, name: string, cb: CallbackId)
    requires WellFormed(m)
    requires (target, name) in m ==> cb !in m[(target, name)].callbacks
    ensures UnobserveScoped(Observe(m, heap, target, name, cb).0, (target, name), cb) == m
  {
    var key := (target, name);
    if key in m {
      AppendThenRemove(m, key, cb);
    } else if target.Obj? && (target.id, name) in heap.values {
      var grown := m[key := Record(target, FieldHandle(name), heap.values[(target.id, name)], [cb])];
      assert UnobserveScoped(grown, key, cb) == grown - {key};
      assert grown - {key} == m;
    }
  }
}
