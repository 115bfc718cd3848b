# Versioned properties: a verified model of the versioned-value engine

This project models the core of EntityFrameworkCore.VersionedProperties in Dafny.
That core is `VersionedBase`, the wrapper behind every versioned property of an
entity. It holds an `Id`, the current `Value`, the `Modified` timestamp, the
`IsReadOnly` flag, and a list of local version records that are not yet
persisted. Each real change of `Value` pushes the superseded value and its
timestamp onto that list. Saving the owning entity flushes the list into the
context's `DbSet` of version records and then clears it. Deleting the entity
deletes the stored records of the value's id. `SetSnapshotVersion` freezes a
value and can replay a historical record into it. Every write through the
`Id`, `Modified`, `IsReadOnly` and `Value` setters and `SetSnapshotVersion` is
wrapped in `PropertyChanging` / `PropertyChanged` notifications. The constructor
and `Clone` set the fields silently, and adding a record to the local list
raises no property notification.

Layout:

- `primitives.dfy` (module `Primitives`): the shared types. `Guid` is a natural
  number, and `EmptyGuid` (0) stands for `Guid.Empty`. `DateTime` is a tick
  count. The file also defines the `Version` record, the `Outcome` and `Error`
  types for the exceptions, the notification `Event`s, and the equivalence
  contract of an equality comparer.
- `store.dfy` (module `VersionStore`): the durable record set as a sequence.
  It defines the query by id, what a delete by id leaves, and the newest-first
  order of `GetVersions`, with lemmas about flushing and deleting.
- `state.dfy` (module `VersionedState`): the observable state as a datatype, and
  the `Value` setter (`Assign`) and `SetSnapshotVersion` (`Freeze`) as pure
  functions returning the outcome, the new state and the raised events, with
  `AssignSeen` and `FreezeSeen` giving the state each event's listeners see.
  The lemmas here state what those functions promise.
- `versioned.dfy` (module `VersionedProperties`): the class `Versioned`, with the
  five fields of `VersionedBase`, the `LocalVersions` view as a separate wrapper
  object, and a ghost trace of notifications, each paired with the state its
  listeners see. Its methods are proved to move between exactly the states
  that `Assign` and `Freeze` describe. The module also has the `Set` extension.
- `scenarios.dfy` (module `VersionedScenarios`): client methods showing what
  callers can conclude from the contracts alone.

Two inputs the source reads from the environment are parameters. `now` stands
for `DateTime.UtcNow` and `freshId` for `Guid.NewGuid()`; the model only
assumes that `freshId` is not `Guid.Empty`. `ValueEqualityComparer` is the
constructor parameter `valueEq`, required to be an equivalence relation.
`DefaultValue` is also a constructor parameter.

`Clone` behaves as written (`VersionedBase.cs:48-49`). The clone gets its own
copy of the local list. Its public `LocalVersions` view, however, is built from
the source object's list. The model keeps the view and the internal list apart
to show this. The clone's view goes on showing the records the source adds
later. It never shows the records the clone adds itself
(`VersionedScenarios.CloneThenWriteBoth`). So "a fresh clone equals its source"
is proved when the source's view and the source's own list have the same
contents. That always holds for a value built by the constructor, whose view
wraps its own list. For a clone it holds until the clone or the object it was
cloned from changes its list, so a clone of a fresh clone equals it too. The same
split shows after a save: `OnInsertedOrUpdated` clears the clone's own list, but
the clone's view goes on showing whatever the other object's list holds.

## Model

| member | source | states |
|---|---|---|
| `VersionStore.WithId` | EntityFrameworkCore.VersionedProperties/VersionedBase.cs:153 | the query by id returns only stored records carrying that id, and every stored record carrying it |
| `VersionStore.WithoutId` | EntityFrameworkCore.VersionedProperties/VersionedBase.cs:188 | what a delete by id leaves: only records of other ids, and every one of them |
| `VersionStore.SortByAddedDescending` | EntityFrameworkCore.VersionedProperties/VersionedBase.cs:153 | `OrderByDescending(x => x.Added)` returns a permutation of its input ordered newest first |
| `VersionStore.VersionsAreTheRecordsOfId` | EntityFrameworkCore.VersionedProperties/VersionedBase.cs:153 | GetVersions yields exactly the stored records of the id, with multiplicity, newest first |
| `VersionStore.WithIdAppend` | EntityFrameworkCore.VersionedProperties/VersionedBase.cs:181 | querying by id after an AddRange equals the old query result followed by the appended records of that id |
| `VersionStore.WithIdOfOwnRecords` | EntityFrameworkCore.VersionedProperties/VersionedBase.cs:129-133 | records that all carry the id are returned unchanged by the query for that id |
| `VersionStore.DeletePartitionsStore` | EntityFrameworkCore.VersionedProperties/VersionedBase.cs:188 | every stored record is either deleted or kept, none lost and none duplicated |
| `VersionStore.DeleteKeepsOtherIds` | EntityFrameworkCore.VersionedProperties/VersionedBase.cs:188 | deleting one id's records leaves every other id's records exactly as they were, in order |
| `VersionStore.FlushedRecordsAreQueryable` | EntityFrameworkCore.VersionedProperties/VersionedBase.cs:179-182 | after the local records of an id are flushed, GetVersions yields the old stored records of that id plus every flushed record |
| `VersionStore.DeletedIdHasNoVersions` | EntityFrameworkCore.VersionedProperties/VersionedBase.cs:186-190 | after a delete by id, GetVersions for that id is empty |
| `VersionedState.Initial` | EntityFrameworkCore.VersionedProperties/VersionedBase.cs:33-40 | a new value is writable, has no local records and satisfies the id/record invariant |
| `VersionedState.AssignToReadOnlyFails` | EntityFrameworkCore.VersionedProperties/VersionedBase.cs:122-123 | a write to a read-only value throws the read-only exception, changes nothing and raises no event |
| `VersionedState.FirstAssignRecordsNothing` | EntityFrameworkCore.VersionedProperties/VersionedBase.cs:121-137 | with no Modified yet, a write (even of an equal value) appends no record and assigns no id; Value and Modified take the write; events are Value then Modified |
| `VersionedState.EqualAssignIsNoOp` | EntityFrameworkCore.VersionedProperties/VersionedBase.cs:124-126 | once Modified is set, a write equal under the comparer changes nothing and raises no event |
| `VersionedState.RealChangeAppendsOneRecord` | EntityFrameworkCore.VersionedProperties/VersionedBase.cs:127-136 | a real change gives a non-empty id (kept if already set), appends exactly one record {id, old Modified, old Value} after the unchanged earlier records, takes the new Value and time, and raises Id (if assigned), Value, Modified (if different), each Changing before Changed |
| `VersionedState.AssignNotifiesEachStep` | EntityFrameworkCore.VersionedProperties/VersionedBase.cs:119-137 | the Value setter's listener trace has one entry per event; the first listener sees the old state (up to the silently added record), the last sees the final state |
| `VersionedState.RealChangeRecordsBeforeValueEvents` | EntityFrameworkCore.VersionedProperties/VersionedBase.cs:127-135 | in a real change, Id listeners see the id before the record exists; Changing(Value) listeners already see the record with the old Value and Modified; Changed(Value) listeners see the new Value with the old Modified |
| `VersionedState.AssignKeepsConsistent` | EntityFrameworkCore.VersionedProperties/VersionedBase.cs:127-133 | a write keeps the invariant: local records imply a non-empty id, and every local record carries that id |
| `VersionedState.AssignAllKeepsConsistent` | EntityFrameworkCore.VersionedProperties/VersionedBase.cs:121-137 | any run of writes keeps that invariant |
| `VersionedState.FreezeEffect` | EntityFrameworkCore.VersionedProperties/VersionedBase.cs:204-211 | SetSnapshotVersion always sets read-only; with null it keeps Value and Modified; with a record it takes the record's value and time; Id and local records are never touched |
| `VersionedState.FreezeKeepsConsistent` | EntityFrameworkCore.VersionedProperties/VersionedBase.cs:204-211 | SetSnapshotVersion keeps the id/record invariant |
| `VersionedState.FreezeNotifiesEachStep` | EntityFrameworkCore.VersionedProperties/VersionedBase.cs:204-211 | SetSnapshotVersion's listener trace has one entry per event, runs from the old state to the final one, and every listener after the first sees the value already read-only |
| `VersionedState.FrozenIgnoresWrites` | EntityFrameworkCore.VersionedProperties/VersionedBase.cs:122-123 | read-only is absorbing: no run of writes changes a read-only value |
| `VersionedState.ChangingWritesAppendHistory` | EntityFrameworkCore.VersionedProperties/VersionedBase.cs:124-136 | from a modified writable value, writes that each change the value append one record per write, in order, each holding the value and time it superseded |
| `VersionedState.HistoryOfChangingWrites` | EntityFrameworkCore.VersionedProperties/VersionedBase.cs:121-137 | from a new value, n changing writes leave n-1 records in chronological order, record k holding write k's value and time, all under the id drawn by the second write |
| `VersionedProperties.Versioned.constructor` | EntityFrameworkCore.VersionedProperties/VersionedBase.cs:33-40 | empty Id, no Modified, writable, DefaultValue, a fresh empty list wrapped by LocalVersions, no events |
| `VersionedProperties.Versioned.SetId` | EntityFrameworkCore.VersionedProperties/VersionedBase.cs:88-91 | the Id setter writes the id and raises Changing/Changed only when it differs; listeners of Changing see the old state and listeners of Changed the new one |
| `VersionedProperties.Versioned.SetModified` | EntityFrameworkCore.VersionedProperties/VersionedBase.cs:98-101 | the Modified setter writes the timestamp and raises Changing/Changed only when it differs; Changing is seen before the write and Changed after it |
| `VersionedProperties.Versioned.SetIsReadOnly` | EntityFrameworkCore.VersionedProperties/VersionedBase.cs:109-112 | the IsReadOnly setter writes the flag and raises Changing/Changed only when it differs; Changing is seen before the write and Changed after it |
| `VersionedProperties.Versioned.NotifyValueChange` | EntityFrameworkCore.VersionedProperties/VersionedBase.cs:214-218 | Changing, then the write, then Changed, unconditionally: listeners of Changing see the old state and listeners of Changed see the new value, and nothing else changes |
| `VersionedProperties.Versioned.NotifyValueChangeIfNotEqual` | EntityFrameworkCore.VersionedProperties/VersionedBase.cs:220-223 | the pair of events only when the new value differs under default equality, Changing seen before the write and Changed after it |
| `VersionedProperties.Versioned.SetValue` | EntityFrameworkCore.VersionedProperties/VersionedBase.cs:119-137 | the outcome, new state, appended events and the state each listener sees are those of `Assign` and `AssignSeen`, and the id/record invariant is kept |
| `VersionedProperties.Versioned.SetSnapshotVersion` | EntityFrameworkCore.VersionedProperties/VersionedBase.cs:204-211 | the new state, appended events and the state each listener sees are those of `Freeze` and `FreezeSeen`, and the invariant is kept |
| `VersionedProperties.Versioned.Clone` | EntityFrameworkCore.VersionedProperties/VersionedBase.cs:42-51 | a fresh object with the same Id, Modified, IsReadOnly, Value, comparer and records in its own fresh list; its LocalVersions view wraps the source's list; it equals the source when the source's view shows its own list |
| `VersionedProperties.Versioned.Equals` | EntityFrameworkCore.VersionedProperties/VersionedBase.cs:56-68 | false for null, true for the same object, otherwise equal Id, Modified and IsReadOnly, Value equal under the comparer, and equal LocalVersions contents |
| `VersionedProperties.EqualsIsSymmetric` | EntityFrameworkCore.VersionedProperties/VersionedBase.cs:58-68 | Equals is symmetric between two values sharing one equivalence comparer |
| `VersionedProperties.Versioned.GetVersions` | EntityFrameworkCore.VersionedProperties/VersionedBase.cs:153 | newest first, and exactly the stored records of this id |
| `VersionedProperties.Versioned.OnInsertingOrUpdating` | EntityFrameworkCore.VersionedProperties/VersionedBase.cs:179-182 | appends the local records to the store in order, keeps them locally, and makes each of them visible to GetVersions |
| `VersionedProperties.Versioned.OnInsertedOrUpdated` | EntityFrameworkCore.VersionedProperties/VersionedBase.cs:184 | empties the local list and changes nothing else; when the LocalVersions view wraps that list, the view is empty too |
| `VersionedProperties.Versioned.OnDeleted` | EntityFrameworkCore.VersionedProperties/VersionedBase.cs:186-190 | removes exactly the stored records of this id, keeps every other id's records in order, leaves GetVersions empty, and empties the local list |
| `VersionedProperties.Set` | EntityFrameworkCore.VersionedProperties/VersionedBase.cs:256-279 | throws for a null entity and, naming the read-only message, for a read-only property (left in place); otherwise installs a fresh clone with the same state, comparer and default value and an empty notification trace, ignoring `newValue` |
| `VersionedScenarios.CloneThenWriteBoth` | EntityFrameworkCore.VersionedProperties/VersionedBase.cs:42-51 | after cloning, writes to source and clone leave each with its own Value and its own records (under its own fresh id when the source had none), while the clone's LocalVersions view shows the source's list |
| `VersionedScenarios.SnapshotRejectsWrite` | EntityFrameworkCore.VersionedProperties/VersionedBase.cs:204-211 | after SetSnapshotVersion with a record, a write throws the read-only exception and Value and Modified stay as the record set them |

## Left out

- Snapshot queries: `ToSnapshots`, `ToSnapshotsAsync` and their caches (`EntityVersionedTypeCache`, `GroupJoinCache`, `VersionedBaseTypeCache`, `GenericTypes`) are not modelled. They build expression trees by reflection. The reconstruction step is unfinished in the source: line 315 sets the result to null and line 317 calls `ToArray()` on it. The async variant casts a tuple query to `IQueryable<T>`.
- Reflection lookups are not modelled: `GetVersionDbSet` / `GetVersionDbSetFunc`, the `CheckDbContext` type test and its exception, and the `DEBUG`-only `Versions` property. The hooks receive the record set directly.
- The database is not modelled. `DbSet`, `AddRange` and the bulk `Delete()` of Z.EntityFramework.Plus become a sequence of records (`VersionDbSet.records`). Queries are evaluated at once, not deferred. The change tracker does not add an already tracked record twice, whereas the model appends the local records again if `OnInsertingOrUpdating` runs twice without `OnInsertedOrUpdated` in between. Records appended by `OnInsertingOrUpdating` are visible to `GetVersions` at once, before the save commits.
- VersionedProperties.Versioned.GetVersions: ties on `added` are ordered by the database in the source; the model fixes one order for them.
- VersionedProperties.Set: the property-expression checks (null expression, not a property of the entity) and the accessor cache are not modelled. They are reflection and a concurrent dictionary. The entity carries one versioned property, which is never null.
- Clock and Guid generation are parameters. `freshId` is only assumed non-empty, not globally unique.
- Notification listeners are a ghost trace of events and of the state each one sees. Listeners that throw or re-enter are not modelled. Neither are the collection-changed notifications that `ObservableCollection` raises on `Add` and `Clear`.
- VersionedProperties.Versioned.SetSnapshotVersion: the record parameter is typed, so the `InvalidCastException` of the cast at line 208 cannot occur in the model.
- VersionedProperties.Versioned.Equals: `VersionBase` is not part of this model, so `SequenceEqual` on records is structural equality of (versioned id, added, value). The `Equals(Object)` overload (line 56) is covered by the null case.
- `ToString` (line 53) is not modelled: it only returns `Value?.ToString() ?? String.Empty`, delegating to the value type's own `ToString`, which lies outside this model.
- `GetHashCode` is not modelled. It mixes `Id` (twice), `Modified` and `Value` with unchecked 32-bit arithmetic.
- The sealed subclasses under `VersionedTypes/` carry no logic. They also come from another revision: they extend a three-argument base. Their one behaviour, the empty-string default of `VersionedRequiredString`, is an instance of the `defaultValue` constructor parameter.
