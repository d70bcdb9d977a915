# FieldObserver — a verified Dafny model

`ObserverUtil.FieldObserver` is a polling field-change registry. A client
registers a callback on a (target object, field name) pair. From then on,
every `Tick` (called once per frame by the host) reads the field again. When
the value no longer equals the snapshot from the last read, `Tick` takes the
new value as the snapshot and calls every callback registered on the pair,
passing it the new value. A callback that throws has its error logged, and
dispatch goes on.

The model has one module per concern:

- `Reflection` (reflection.dfy) holds what the observer reaches through
  reflection. Targets are opaque identities. A `Ref` is a possibly-null
  reference to one. A `Heap` value says which named fields each target has
  and what they hold now. `Resolve` stands for `GetField`, and `Read` stands
  for `FieldInfo.GetValue`.
- `Callbacks` (callbacks.dfy) holds callback lists. Callbacks are opaque
  handles, so duplicates are possible. `RemoveFirst` is `List.Remove`.
- `Registry` (registry.dfy) describes the `WatchedFields` dictionary as a
  value: a map from `(target, fieldName)` to a `Record`. `Record` holds
  WatchedField's `Target`, `Field`, `LastValue` and `Callbacks`. It specifies
  `ObserveField`, `UnObserveFieldGlobal` and `UnObserveFieldScoped` as
  functions, and proves the registration and unregistration properties about
  them. `WellFormed` is the registry invariant: no record has an empty
  callback list, and each record sits under its own target and name.
- `Dispatch` (dispatch.dfy) specifies `Tick` by two functions:
  - `Ticked` gives the registry after the poll.
  - `TickCalls` gives the sequence of callback `Invocation`s the poll makes,
    in order. Each invocation carries the record's key, the callback, the
    value passed, and whether the callback threw.

  The enumeration order of the dictionary is a parameter, `order`: any
  duplicate-free listing of its keys. The cross-record properties are proved
  for every such order.
- `FieldObserver` (field_observer.dfy) holds the imperative model. The class
  `Observer` owns the dictionary as a mutable `map` field. Each of its methods
  mirrors one source method, branch for branch:
  - `ObserveField`, `UnObserveFieldGlobal`, `UnObserveFieldScoped` and
    `DoesContainKey` follow the source directly.
  - `Tick` is the outer `foreach`, with a loop invariant over the records
    already visited.
  - `Poll` is one turn of that loop.
  - `Invoke` is the inner `foreach` over the callbacks.

  Each method that changes the dictionary is proved to keep `Valid()` (the
  invariant `WellFormed`). Each method is proved to leave exactly the state,
  and return exactly the calls, that the specification functions give.
- `Scenarios` (scenarios.dfy) holds two client runs against an `Observer`:
  - the `count` field going 0 → 5 → 5, then being unregistered before it
    changes to 9;
  - registering a field that does not exist.

A callback that throws is one in the `failing` set passed to `Tick`. Its
call still appears in the result, flagged `failed`; that flag stands for the
logged error. `ObserveField` returns an `Outcome`: `Appended`, `Registered`,
`FieldNotFound` (the logged warning) or `NullTarget` (the
NullReferenceException that `target.GetType()` throws).

Two facts about the code shape the model:

- A callback that changes the registry during `Tick` can make one of its two
  `foreach` loops throw (Runtime/FieldObserver.cs:82 and 94), or can change
  what the rest of the same `Tick` does (see "## Left out"). The model does
  not let callbacks touch the registry.
- A record whose target has died is never collected. The only check is the
  null test at Runtime/FieldObserver.cs:86.

## Model

| member | source | states |
|---|---|---|
| `Reflection.Resolve` | Runtime/FieldObserver.cs:29-32 | field lookup succeeds exactly when the target has a field of that name, and the accessor reads that field |
| `Callbacks.RemoveFirst` | Runtime/FieldObserver.cs:68 | `List.Remove`: the list is unchanged when the callback is absent, otherwise exactly the element at the first occurrence is cut out |
| `Callbacks.RemoveFirstMultiset` | Runtime/FieldObserver.cs:68 | removal takes away exactly one occurrence of the callback and keeps every other element |
| `Callbacks.RemoveFirstLength` | Runtime/FieldObserver.cs:68 | removal shortens the list by one exactly when the callback occurs in it |
| `Callbacks.RemoveFirstEmpty` | Runtime/FieldObserver.cs:68-69 | the list becomes empty exactly when it was empty or held only that callback |
| `Callbacks.RemoveFirstAppended` | Runtime/FieldObserver.cs:25 | removing a callback just appended to a list that did not hold it gives back the original list |
| `Registry.Observe` | Runtime/FieldObserver.cs:19-48 | existing key: callback appended at the end, field and snapshot kept; missing field or null target: registry unchanged; fresh key: one record whose snapshot is the current value and whose list is `[callback]`; no other key changes; the invariant is kept |
| `Registry.UnobserveGlobal` | Runtime/FieldObserver.cs:50-58 | the key is absent afterwards, every other key keeps its record, an absent key leaves the registry unchanged, the invariant is kept |
| `Registry.UnobserveScoped` | Runtime/FieldObserver.cs:60-73 | the first occurrence leaves the key's list; the record stays exactly when the rest is non-empty; absent key: no change; other keys unchanged; invariant kept |
| `Registry.UnobserveGlobalIdempotent` | Runtime/FieldObserver.cs:50-58 | global removal applied twice equals applying it once |
| `Registry.UnobserveScopedAbsent` | Runtime/FieldObserver.cs:60-73 | scoped removal of a callback the record does not hold, or of an absent key, changes nothing |
| `Registry.UnobserveScopedRemovesOne` | Runtime/FieldObserver.cs:68-72 | scoped removal drops the record exactly when the callback was its only one, and otherwise removes one occurrence of the callback and nothing else |
| `Registry.AppendThenRemove` | Runtime/FieldObserver.cs:23-27 | appending a new callback to an existing record and then removing it scoped restores the registry |
| `Registry.ObserveThenUnobserveScoped` | Runtime/FieldObserver.cs:19-73 | registering a callback the key did not have and removing it scoped restores the registry, whichever branch registration took |
| `Dispatch.Notify` | Runtime/FieldObserver.cs:94-104 | the inner loop makes one call per list element, in list order, each with the current value and flagged exactly when that callback throws |
| `Dispatch.RecordCalls` | Runtime/FieldObserver.cs:86-104 | a record with a null target or an unchanged field makes no call; a changed one makes one call per list element, in list order, each passing the field's current value and flagged exactly when that callback throws |
| `Dispatch.Polled` | Runtime/FieldObserver.cs:86-92 | polling keeps target, field and callbacks; a non-null target's snapshot becomes the current value; a null target's or an unchanged record is left as it is |
| `Dispatch.Ticked` | Runtime/FieldObserver.cs:80-107 | a Tick keeps the same keys and polls every record; it keeps the invariant and readability |
| `Dispatch.CallsForTick` | Runtime/FieldObserver.cs:82-106 | in a Tick over part of the enumeration, the calls made for one key are that record's own calls if the key was visited, and none otherwise |
| `Dispatch.RecordFiresInOrder` | Runtime/FieldObserver.cs:82-104 | for any enumeration order, a changed record has each callback called once per occurrence, in list order, with the current value; an unchanged record has none called |
| `Dispatch.NullTargetSkipped` | Runtime/FieldObserver.cs:86 | a record with a null target gets no call and keeps its snapshot |
| `Dispatch.FailuresDoNotStopDispatch` | Runtime/FieldObserver.cs:96-103 | which callbacks throw does not change which calls a Tick makes, their order or their values |
| `Dispatch.FailedFlagsExact` | Runtime/FieldObserver.cs:100-103 | an error is logged for exactly the calls of callbacks that throw |
| `Dispatch.QuietWhenUnchanged` | Runtime/FieldObserver.cs:90 | with no field differing from its snapshot, a Tick makes no call and changes nothing |
| `Dispatch.SecondTickQuiet` | Runtime/FieldObserver.cs:92 | a second Tick on the same heap makes no call and leaves the registry as the first one did |
| `Dispatch.RegistrationIsQuiet` | Runtime/FieldObserver.cs:38-47 | a fresh record is readable, and a Tick on the heap it was registered from makes no call for it |
| `FieldObserver.Observer.constructor` | Runtime/FieldObserver.cs:9 | the dictionary starts empty and satisfies the invariant |
| `FieldObserver.Observer.ObserveField` | Runtime/FieldObserver.cs:19-48 | keeps the invariant; the new dictionary and the outcome are those of `Registry.Observe` |
| `FieldObserver.Observer.UnObserveFieldGlobal` | Runtime/FieldObserver.cs:50-58 | keeps the invariant; the new dictionary is that of `Registry.UnobserveGlobal` |
| `FieldObserver.Observer.UnObserveFieldScoped` | Runtime/FieldObserver.cs:60-73 | keeps the invariant; the new dictionary is that of `Registry.UnobserveScoped` |
| `FieldObserver.Observer.DoesContainKey` | Runtime/FieldObserver.cs:75-78 | true exactly when the dictionary has the key |
| `FieldObserver.Observer.Invoke` | Runtime/FieldObserver.cs:94-104 | the loop over the callbacks makes exactly the calls `Dispatch.Notify` gives |
| `FieldObserver.Observer.Poll` | Runtime/FieldObserver.cs:84-105 | one turn of the outer loop replaces only this key's record, by the polled record, and makes that record's calls |
| `FieldObserver.Observer.Tick` | Runtime/FieldObserver.cs:80-107 | keeps the invariant; the new dictionary is `Dispatch.Ticked` and the calls are `Dispatch.TickCalls` for the given enumeration order |
| `Scenarios.CountScenario` | Runtime/FieldObserver.cs:19-107 | count 0 → 5 calls the callback once with 5; a repeated 5 calls nothing; after global removal a change to 9 calls nothing |
| `Scenarios.MissingFieldScenario` | Runtime/FieldObserver.cs:29-36 | a missing field reports FieldNotFound, creates no record, and a later Tick calls nothing |

## Left out

- Reflection (`GetType`, `GetField` with its binding flags and lookup through
  the type hierarchy, `FieldInfo.GetValue`) is a runtime capability. It is
  replaced by the `Heap` value, which is passed to the operations that read
  fields.
- `UnityEngine.Debug.LogWarning` and `LogError` are output. `FieldNotFound`
  and the `failed` flag of an invocation mark where they happen. The message
  texts and the exception objects are not modelled.
- Exceptions thrown by callbacks are modelled only as membership in the
  `failing` set. What a callback does besides being called is not modelled.
- Callbacks that change the registry while `Tick` runs are not modelled. In
  the source the effect depends on what they change:
  - Adding a key (Runtime/FieldObserver.cs:47) makes the outer `foreach`
    (line 82) throw. Removing a key (lines 57 and 71) does the same on
    runtimes whose `Dictionary.Remove` invalidates enumerators.
  - Changing the list being iterated makes the inner `foreach` (line 94)
    throw. That throw is outside the `try` at lines 96-103, so it ends
    `Tick`.
  - Changing another record's list without adding or removing a key, by
    `Callbacks.Add` (line 25) or `Callbacks.Remove` (line 68), throws
    nothing. The change takes effect within the same `Tick`: a callback
    appended to a changed record visited later is called in that `Tick`.
- The host's notion of a destroyed object is not modelled; only the null test
  is. Records with a null target cannot actually arise, because
  `ObserveField` on a null target throws before it creates anything. The
  model still checks the skip branch and proves `Dispatch.NullTargetSkipped`
  for any registry that holds such a record.
- `object.Equals` is modelled as equality on the abstract `Value` type.
- Key equality is modelled as equality of target identities. The source's
  `ValueTuple` key compares targets with the default equality comparer, which
  uses a type's own `Equals` override if it has one.
- Field writes made by a callback during `Tick` are not modelled. `Tick` reads
  every field from the one `Heap` it is given. The source reads each field
  when it reaches that record (Runtime/FieldObserver.cs:88). So if a callback
  writes a watched field of a record later in the enumeration, the source
  sees the write in the same `Tick`, and the model does not.
- Dictionary enumeration order is the `order` parameter of `Tick`. Every
  cross-record property holds for every order.
- Thread safety and the host's frame loop are not modelled; `Tick` is one
  call.
- WatchedField records are values in the map, not separate heap objects.
  The class is private, and no reference to a record ever leaves the
  dictionary. Updating a record in place therefore cannot be told apart from
  writing a new record under the same key, so the model does not capture
  aliasing of records.
- The static class is modelled as one `Observer` object that owns the
  dictionary.
- A null `fieldName`, which would make `GetField` throw, is not modelled:
  strings here are never null.
- FieldObserver.Observer.Tick: requires every record's field to be readable
  in the heap it is given. In the source, a record is created only for a
  field that exists on the target's type, and types do not lose fields, so
  `GetValue` cannot fail there.
