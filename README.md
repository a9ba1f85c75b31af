# Metric registry and metric keys, modelled in Dafny

This project models two parts of a metrics facade:

- The metric registry (`metrics-util/src/registry.rs`). It maps a metric key to a dense numeric id and a handle that lives forever. Re-registering a key returns the cached pair.
- The metric identity (`metrics/src/key.rs`). A `Key` is a name plus an optional, ordered list of `Label`s, each a key/value pair of strings.

The registry is the class `Registry.Registry`. Its fields are the ones the source keeps:

- `mappings`, the published map `key -> (id, handle)`;
- `handles`, the append-only table of `(key, handle)` pairs indexed by id;
- `factoryCalls`, a ghost log of the `(id, key)` arguments of every factory call.

`Valid()` is the object invariant. It says the map and the table agree in both directions and that the factory was called exactly once per table slot, with that slot's id and key. The same state machine is also given as values: a `Snapshot`, one call as `Step`, and a run of calls as `Replay`. Lemmas about several registrations in a row are stated on those values. `GetOrCreateHandle` promises that its new state is `Step` of the old one.

The factory is a parameter `(nat, K) -> H`, and `with_handle`'s accessor is a parameter `(K, H) -> V`. Handles are opaque values of type `H`. `ScopedString` (a static-or-owned string) is `string`.

The key model is a datatype with pure functions. Equality is Dafny's structural equality, which is also what the source derives.

Modules: `Wrappers` (Option), `Keys`, `Registry`, and `Scenarios` (clients of the registry: re-registering `requests` with a second factory; registering `a`, `b`, `a` for ids 0, 1, 0; and label order making distinct entries).

## Model

| member | source | states |
|---|---|---|
| `Keys.NewLabel` | metrics/src/key.rs:129-136 | `key()` and `value()` of the new label are the arguments, and `into_parts()` gives them back as a pair |
| `Keys.LabelKey` | metrics/src/key.rs:138-141 | `key()` is the label's key: together with the value it rebuilds the label |
| `Keys.LabelValue` | metrics/src/key.rs:143-146 | `value()` is the label's value: together with the key it rebuilds the label |
| `Keys.LabelIntoParts` | metrics/src/key.rs:148-151 | the pair `into_parts` returns rebuilds the label |
| `Keys.LabelPartsRoundTrip` | metrics/src/key.rs:138-151 | rebuilding a label from `into_parts` gives the same label, and `into_parts` is `(key(), value())` |
| `Keys.IntoLabels` | metrics/src/key.rs:180-184 | converting a vector of labels into labels is the identity |
| `Keys.LabelsFromPairs` | metrics/src/key.rs:186-194 | a collection of key/value pairs becomes the same number of labels, each one taking apart into its pair, in order |
| `Keys.FromName` | metrics/src/key.rs:19-28 | the key has the given name and no labels, so `labels()` is empty |
| `Keys.FromNameAndLabels` | metrics/src/key.rs:30-40 | the key has the given name and exactly the given labels, in the given order |
| `Keys.AddLabels` | metrics/src/key.rs:42-51 | the name is unchanged, the labels become present, and the new label list is the old one (empty if absent) followed by the new labels, so the old labels are a prefix |
| `Keys.MapName` | metrics/src/key.rs:66-76 | the new name is `f` of the old name, and the labels are exactly as before |
| `Keys.Name` | metrics/src/key.rs:53-56 | `name()` is the key's name: with the key's labels it rebuilds the key |
| `Keys.Labels` | metrics/src/key.rs:58-64 | `labels()` yields nothing for a key without labels, and otherwise the labels that rebuild the key |
| `Keys.IntoParts` | metrics/src/key.rs:78-81 | the name and label option that `into_parts` returns rebuild the key |
| `Keys.IntoPartsRoundTrip` | metrics/src/key.rs:78-81 | `into_parts` undoes both constructors: `(n, None)` from `from_name`, `(n, Some(ls))` from `from_name_and_labels` |
| `Keys.PartsRebuildKey` | metrics/src/key.rs:18-81 | every key is rebuilt from its parts by the constructor its parts call for |
| `Keys.KeyEquality` | metrics/src/key.rs:8-12 | two keys are equal exactly when their names and ordered label lists (including absence) are equal |
| `Keys.LabelOrderMatters` | metrics/src/key.rs:8-16 | two different labels given in the two orders make two different keys |
| `Keys.NoLabelsIsNotEmptyLabels` | metrics/src/key.rs:8-12 | a key without labels and one with an empty label list read the same through `labels()` but are not equal |
| `Keys.LabelToString` | metrics/src/key.rs:93 | a shown label is as long as its key, ` = ` and its value together |
| `Keys.LabelToStringParts` | metrics/src/key.rs:93 | a shown label is its key, then ` = `, then its value, and nothing else |
| `Keys.LabelStrings` | metrics/src/key.rs:89-94 | the rendered labels are one string per label, in the labels' order |
| `Keys.Join` | metrics/src/key.rs:95 | joining no parts gives the empty string, and joining one part gives that part |
| `Keys.JoinShape` | metrics/src/key.rs:95 | joined text starts with the first part, followed by the separator when there are several parts, and ends with the last part |
| `Keys.Display` | metrics/src/key.rs:84-97 | the text starts with `Key(` and the name and ends with `)`; it is exactly `Key(<name>)` if and only if the key has no labels |
| `Keys.JoinAppend` | metrics/src/key.rs:89-95 | joining the concatenation of two non-empty lists is joining each, with one separator between |
| `Keys.LabelStringsAppend` | metrics/src/key.rs:89-94 | rendering the labels of a concatenation renders each part, in order |
| `Keys.DisplayAddLabels` | metrics/src/key.rs:84-97 | after appending labels to a key that has some, the displayed list is the old list, `", "`, then the new labels, in order |
| `Keys.DisplayAddLabelsToBare` | metrics/src/key.rs:84-97 | after adding labels to a key with none, the display lists just the new labels, as `Key(<name>, [..])` |
| `Keys.DisplayNoLabelsVsEmpty` | metrics/src/key.rs:84-97 | no labels displays as `Key(n)`, and an empty label list as `Key(n, [])` |
| `Registry.Empty` | metrics-util/src/registry.rs:37-43 | the initial state has an empty map and an empty table, and satisfies the invariant |
| `Registry.Step` | metrics-util/src/registry.rs:53-90 | one registration keeps the invariant and leaves the key mapped to the returned pair. A hit changes nothing. A miss returns the old table length as the id and the factory's handle for `(id, key)`, appends `(key, handle)`, and adds only that key. Every earlier entry keeps its value |
| `Registry.StepIdempotent` | metrics-util/src/registry.rs:57-69 | registering a key a second time, with any factory, returns the same id and handle and changes nothing |
| `Registry.ConsistentIff` | metrics-util/src/registry.rs:76-86 | under the invariant, a key maps to `(i, h)` exactly when `i` is below the table length and slot `i` holds `(key, h)` |
| `Registry.ConsistentNoDuplicates` | metrics-util/src/registry.rs:63-87 | under the invariant, no key appears in two slots of the table |
| `Registry.ConsistentSize` | metrics-util/src/registry.rs:76-86 | under the invariant, the map's keys are exactly the table's keys, and the map has as many entries as the table |
| `Registry.ConsistentDenseIds` | metrics-util/src/registry.rs:71-76 | under the invariant, the ids the map hands out are exactly `0 .. table length` |
| `Registry.FirstOccurrencesDistinct` | metrics-util/src/registry.rs:57-69 | the distinct keys in order of first registration have no repetition and are all the keys registered |
| `Registry.ReplayConsistent` | metrics-util/src/registry.rs:53-90 | every run of registrations keeps the map and the table in agreement |
| `Registry.ReplayKeys` | metrics-util/src/registry.rs:84-86 | a run of registrations adds exactly the keys registered to the map |
| `Registry.ReplayFromEmpty` | metrics-util/src/registry.rs:71-86 | from a new registry, registering any sequence of keys gives the i-th distinct key id i and the handle `f(i, key)`. The table has one slot per distinct key, and the map holds exactly the keys registered |
| `Registry.ReplayAppendOnly` | metrics-util/src/registry.rs:76-80 | later registrations never shrink the table or change an earlier slot |
| `Registry.FactoryOncePerKey` | metrics-util/src/registry.rs:63-80 | under the invariant, no two factory calls in the log are for the same key: the factory runs at most once per key over the registry's life |
| `Registry.Registry.constructor` | metrics-util/src/registry.rs:37-43 | `new()` gives an empty map, an empty table and no factory calls, and the invariant holds |
| `Registry.Registry.GetOrCreateHandle` | metrics-util/src/registry.rs:53-90 | the invariant is kept and the new state is `Step` of the old one. On a hit, the stored pair is returned, neither structure changes and the factory is not called. On a miss, the id is the old table length, the factory is called once with `(id, key)`, exactly `(key, handle)` is appended, and the map gains exactly `key -> (id, handle)` |
| `Registry.Registry.WithHandle` | metrics-util/src/registry.rs:92-102 | below the table length, the accessor is applied to the slot's key and handle; at or past it, the result is absent. Under the invariant, the result is absent exactly when no key was given that id. Nothing changes |
| `Registry.Registry.GetHandles` | metrics-util/src/registry.rs:104-111 | the result has the same keys as the map, each sent to its handle with the id dropped. Under the invariant, every returned pair is a slot of the table |
| `Scenarios.ReregisterKeepsFirstHandle` | metrics-util/src/registry.rs:53-90 | registering `requests` with `f1` and then with `f2` gives id 0 twice and `f1`'s handle, and the only factory call is `f1(0, requests)` |
| `Scenarios.RegisterTwoKeys` | metrics-util/src/registry.rs:53-111 | registering `a`, `b`, `a` gives ids 0, 1, 0 and a table of two entries. Id 0 names `a`, id 2 names nothing, and `get_handles` holds exactly `a` and `b` |
| `Scenarios.LabelsDistinguishEntries` | metrics-util/src/registry.rs:53-90 | these four keys get ids 0 to 3 and four table entries: `a`, `a` with a label, and `a` with two labels in each of the two orders |

## Left out

- Concurrency in `registry.rs` is not modelled. That covers the `ArcSwap` load and store, the `ShardedLock` around the table, the writer `Mutex`, and the second lookup of the map under the writer lock. That second lookup only matters when calls race, so one sequential lookup stands in for both.
- Lock poisoning is not modelled. The source's `expect` on a poisoned table lock panics, and a panic cannot occur in the model.
- The factory is a total function, so a factory that panics is not modelled. In the source, such a panic happens while the table's write guard is held. That poisons the table lock, so later misses and every `with_handle` panic. A later registration does not simply retry.
- `Box::leak` and the `'static` lifetime of handles are not modelled. The model stores handle values, so reference identity and never-freed memory are not expressed.
- `im::HashMap` structural sharing and the `std::collections::HashMap` returned by `get_handles` are both modelled as Dafny `map`s. Hashing and iteration order are not modelled.
- Keys.AddLabels: modelled as a function that returns the updated key rather than one that changes a `&mut Key` in place. `Key` is a value type, so `k := AddLabels(k, ls)` has the same effect. Aliasing of the key is not expressed.
- `Key::labels` returns an iterator in the source. The model (`Keys.Labels`) returns the sequence the iterator would yield.
- The `From` conversions for `Key` (from a name, from a `(name, labels)` pair) and for `Label` (from an owned or borrowed pair) are not modelled separately. They only forward to the constructors. The borrowed-pair conversion is what `Keys.LabelsFromPairs` uses for each pair.
- `metrics/src/handles.rs` is not part of this model. Its counter, gauge and histogram handles forward to capability objects supplied from outside, and its no-op defaults have no observable behaviour.
- The `OnceCell` in `metrics/src/common.rs` is not part of this model. It is a thread-safe lazy-initialisation primitive. Only `ScopedString` is kept, as `string`.
- `metrics/src/lib.rs` and `metrics/benches/macros.rs` are not part of this model. They hold module declarations, macro re-exports, documentation and a benchmark harness.
