/** VersionedBase: a versioned property value whose fields are updated in place,
    with its list of not-yet-persisted records, its change notifications, the
    persistence hooks run around saving and deleting the owning entity, and the
    `Set` helper that replaces a versioned property by a clone of itself. */
module VersionedProperties {
  import opened Primitives
  import opened VersionStore
  import opened VersionedState

  /** An ObservableCollection<TVersion>: a list updated in place. */
  class VersionList<V> {
    var items: seq<Version<V>>

    constructor (items: seq<Version<V>>)
      ensures this.items == items
    {
      this.items := items;
    }

    method Add(r: Version<V>)
      modifies this
      ensures items == old(items) + [r]
    {
      items := items + [r];
    }

    method Clear()
      modifies this
      ensures items == []
    {
      items := [];
    }
  }

  /** A ReadOnlyObservableCollection<TVersion>: a read-only wrapper around a list,
      showing whatever the wrapped list holds. */
  class LocalVersionsView<V> {
    const inner: VersionList<V>

    constructor (inner: VersionList<V>)
      ensures this.inner == inner
    {
      this.inner := inner;
    }
  }

  /** The DbSet<TVersion> of the host context: the durable version records. */
  class VersionDbSet<V> {
    var records: seq<Version<V>>

    constructor (records: seq<Version<V>>)
      ensures this.records == records
    {
      this.records := records;
    }
  }

  /** VersionedBase<TVersioned, TValue, TVersion, TIVersions>. `defaultValue` is
      the overridable DefaultValue and `valueEq` the overridable
      ValueEqualityComparer of the concrete subclass. */
  class Versioned<V(==, !new)> {
    const defaultValue: V
    const valueEq: (V, V) -> bool

    var id: Guid
    var modified: Option<DateTime>
    var isReadOnly: bool
    var value: V
    var internalLocalVersions: VersionList<V>
    /** The public LocalVersions: a wrapper that need not wrap this object's own
        list (see Clone). */
    var localVersions: LocalVersionsView<V>

    /** Every PropertyChanging / PropertyChanged notification raised so far, in order. */
    ghost var events: seq<Event>
    /** For each notification in `events`, the state of this object its
        listeners saw when it was raised. */
    ghost var observed: seq<State<V>>

    /** Id, Modified, IsReadOnly, Value and the object's own local records. */
    function Current(): State<V>
      reads this, internalLocalVersions
    {
      VersionedState.State(id, modified, isReadOnly, value, internalLocalVersions.items)
    }

    /** What the public LocalVersions view shows. */
    function LocalVersions(): seq<Version<V>>
      reads this, localVersions.inner
    {
      localVersions.inner.items
    }

    ghost predicate Valid()
      reads this, internalLocalVersions
    {
      IsEquivalence(valueEq) && Consistent(Current()) && |observed| == |events|
    }

    /** The protected constructor: no id, no Modified, writable, DefaultValue,
        and a fresh empty list that the LocalVersions view wraps. */
    constructor (defaultValue: V, valueEq: (V, V) -> bool)
      requires IsEquivalence(valueEq)
      ensures Valid()
      ensures Current() == Initial(defaultValue)
      ensures this.defaultValue == defaultValue && this.valueEq == valueEq
      ensures fresh(internalLocalVersions) && fresh(localVersions)
      ensures localVersions.inner == internalLocalVersions
      ensures events == [] && observed == []
    {
      this.defaultValue := defaultValue;
      this.valueEq := valueEq;
      id := EmptyGuid;
      modified := None;
      isReadOnly := false;
      value := defaultValue;
      var list := new VersionList([]);
      internalLocalVersions := list;
      localVersions := new LocalVersionsView(list);
      events, observed := [], [];
    }

    /** The internal Id setter: NotifyChangeIfNotEqual on `id`. */
    method SetId(newId: Guid)
      modifies this
      ensures Current() == old(Current()).(id := newId)
      ensures events == old(events) + ChangeEvents(IdName, newId != old(id))
      ensures observed == old(observed) + (if newId != old(id) then [old(Current()), Current()] else [])
      ensures internalLocalVersions == old(internalLocalVersions) && localVersions == old(localVersions)
    {
      if id != newId {
        events, observed := events + [Changing(IdName)], observed + [Current()];
        id := newId;
        events, observed := events + [Changed(IdName)], observed + [Current()];
      }
    }

    /** The internal Modified setter: NotifyChangeIfNotEqual on `modified`. */
    method SetModified(newModified: Option<DateTime>)
      modifies this
      ensures Current() == old(Current()).(modified := newModified)
      ensures events == old(events) + ChangeEvents(ModifiedName, newModified != old(modified))
      ensures observed == old(observed) + (if newModified != old(modified) then [old(Current()), Current()] else [])
      ensures internalLocalVersions == old(internalLocalVersions) && localVersions == old(localVersions)
    {
      if modified != newModified {
        events, observed := events + [Changing(ModifiedName)], observed + [Current()];
        modified := newModified;
        events, observed := events + [Changed(ModifiedName)], observed + [Current()];
      }
    }

    /** The private IsReadOnly setter: NotifyChangeIfNotEqual on `isReadOnly`. */
    method SetIsReadOnly(newIsReadOnly: bool)
      modifies this
      ensures Current() == old(Current()).(isReadOnly := newIsReadOnly)
      ensures events == old(events) + ChangeEvents(IsReadOnlyName, newIsReadOnly != old(isReadOnly))
      ensures observed == old(observed) + (if newIsReadOnly != old(isReadOnly) then [old(Current()), Current()] else [])
      ensures internalLocalVersions == old(internalLocalVersions) && localVersions == old(localVersions)
    {
      if isReadOnly != newIsReadOnly {
        events, observed := events + [Changing(IsReadOnlyName)], observed + [Current()];
        isReadOnly := newIsReadOnly;
        events, observed := events + [Changed(IsReadOnlyName)], observed + [Current()];
      }
    }

    /** NotifyChange on `value`: Changing, the write, Changed, whether or not the
        value differs. */
    method NotifyValueChange(newValue: V)
      modifies this
      ensures Current() == old(Current()).(value := newValue)
      ensures events == old(events) + ChangeEvents(ValueName, true)
      ensures observed == old(observed) + [old(Current()), Current()]
      ensures internalLocalVersions == old(internalLocalVersions) && localVersions == old(localVersions)
    {
      events, observed := events + [Changing(ValueName)], observed + [Current()];
      value := newValue;
      events, observed := events + [Changed(ValueName)], observed + [Current()];
    }

    /** NotifyChangeIfNotEqual on `value`, with default equality. */
    method NotifyValueChangeIfNotEqual(newValue: V)
      modifies this
      ensures Current() == old(Current()).(value := newValue)
      ensures events == old(events) + ChangeEvents(ValueName, newValue != old(value))
      ensures observed == old(observed) + (if newValue != old(value) then [old(Current()), Current()] else [])
      ensures internalLocalVersions == old(internalLocalVersions) && localVersions == old(localVersions)
    {
      if value != newValue {
        NotifyValueChange(newValue);
      }
    }

    /** The Value setter. `now` is the clock reading (DateTime.UtcNow) and
        `freshId` the Guid that Guid.NewGuid() would return. */
    method SetValue(newValue: V, now: DateTime, freshId: Guid) returns (outcome: Outcome)
      requires Valid() && freshId != EmptyGuid
      modifies this, internalLocalVersions
      ensures Valid()
      ensures internalLocalVersions == old(internalLocalVersions) && localVersions == old(localVersions)
      ensures var step := Assign(old(Current()), Write(newValue, now, freshId), valueEq);
        && outcome == step.outcome
        && Current() == step.after
        && events == old(events) + step.events
        && observed == old(observed) + AssignSeen(old(Current()), Write(newValue, now, freshId), valueEq)
    {
      AssignKeepsConsistent(Current(), Write(newValue, now, freshId), valueEq);
      if isReadOnly {
        return Fail(InvalidOperation(ReadOnlyExceptionMessage));
      }
      if modified.Some? {
        if valueEq(value, newValue) {
          return Pass;
        }
        if id == EmptyGuid {
          SetId(freshId);
        }
        internalLocalVersions.Add(Version(id, modified.value, value));
      }
      NotifyValueChange(newValue);
      SetModified(Some(now));
      return Pass;
    }

    /** SetSnapshotVersion: always freezes; a given record is replayed into
        Value and Modified. */
    method SetSnapshotVersion(version: Option<Version<V>>)
      requires Valid()
      modifies this
      ensures Valid()
      ensures internalLocalVersions == old(internalLocalVersions) && localVersions == old(localVersions)
      ensures var step := Freeze(old(Current()), version);
        && Current() == step.after
        && events == old(events) + step.events
        && observed == old(observed) + FreezeSeen(old(Current()), version)
    {
      FreezeKeepsConsistent(Current(), version);
      SetIsReadOnly(true);
      if version.None? {
        return;
      }
      var v := version.value;
      NotifyValueChangeIfNotEqual(v.value);
      SetModified(Some(v.added));
    }

    /** Clone: a new object with this one's Id, Modified, IsReadOnly and Value, and
        its own copy of this one's local list. The clone's LocalVersions view is
        built from this object's list, not the copy, so it goes on showing what
        this object records and nothing the clone records. */
    method Clone() returns (c: Versioned<V>)
      requires Valid()
      ensures fresh(c) && fresh(c.internalLocalVersions) && fresh(c.localVersions)
      ensures c.Valid()
      ensures c.Current() == Current()
      ensures c.defaultValue == defaultValue && c.valueEq == valueEq
      ensures c.localVersions.inner == internalLocalVersions
      ensures c.events == [] && c.observed == []
      ensures LocalVersions() == internalLocalVersions.items ==> c.Equals(this)
    {
      c := new Versioned(defaultValue, valueEq);
      c.id := id;
      c.modified := modified;
      c.isReadOnly := isReadOnly;
      c.value := value;
      c.internalLocalVersions := new VersionList(internalLocalVersions.items);
      c.localVersions := new LocalVersionsView(internalLocalVersions);
    }

    /** Equals(TVersioned): false for null, true for the same object, otherwise
        field by field, Value under the comparer and the LocalVersions views by
        reference or element by element. */
    function Equals(other: Versioned?<V>): (r: bool)
      reads this, localVersions.inner, other
      reads if other != null then {other.localVersions.inner} else {}
      ensures other == null ==> !r
      ensures other == this ==> r
      ensures other != null && other != this ==>
        (r <==> && id == other.id && modified == other.modified
                && isReadOnly == other.isReadOnly && valueEq(value, other.value)
                && LocalVersions() == other.LocalVersions())
    {
      if other == null then false
      else if other == this then true
      else
        && id == other.id
        && modified == other.modified
        && isReadOnly == other.isReadOnly
        && valueEq(value, other.value)
        && (localVersions == other.localVersions || LocalVersions() == other.LocalVersions())
    }

    /** GetVersions: the stored records of this id, newest first. */
    function GetVersions(db: VersionDbSet<V>): (r: seq<Version<V>>)
      reads this, db
      ensures DescendingByAdded(r)
      ensures multiset(r) == multiset(WithId(db.records, id))
    {
      Versions(db.records, id)
    }

    /** OnInsertingOrUpdating: appends the local records to the store, in order,
        and keeps them. */
    method OnInsertingOrUpdating(db: VersionDbSet<V>)
      requires Valid()
      modifies db
      ensures db.records == old(db.records) + internalLocalVersions.items
      ensures forall v :: v in internalLocalVersions.items ==> v in GetVersions(db)
    {
      db.records := db.records + internalLocalVersions.items;
      FlushedRecordsAreQueryable(old(db.records), internalLocalVersions.items, id);
    }

    /** OnInsertedOrUpdated: empties the local list. */
    method OnInsertedOrUpdated()
      requires Valid()
      modifies internalLocalVersions
      ensures Valid()
      ensures Current() == old(Current()).(local := [])
      ensures localVersions.inner == internalLocalVersions ==> LocalVersions() == []
    {
      internalLocalVersions.Clear();
    }

    /** OnDeleted: deletes every stored record of this id, keeps every other
        record, and empties the local list. */
    method OnDeleted(db: VersionDbSet<V>)
      requires Valid()
      modifies db, internalLocalVersions
      ensures Valid()
      ensures Current() == old(Current()).(local := [])
      ensures db.records == WithoutId(old(db.records), id)
      ensures GetVersions(db) == []
      ensures forall other :: other != id ==> WithId(db.records, other) == WithId(old(db.records), other)
    {
      db.records := WithoutId(db.records, id);
      internalLocalVersions.Clear();
      DeletedIdHasNoVersions(old(db.records), id);
      forall other | other != id
        ensures WithId(db.records, other) == WithId(old(db.records), other)
      {
        DeleteKeepsOtherIds(old(db.records), id, other);
      }
    }
  }

  /** Equals is symmetric between two versioned values sharing one comparer,
      as IEquatable requires. */
  lemma EqualsIsSymmetric<V(!new)>(a: Versioned<V>, b: Versioned<V>)
    requires a.valueEq == b.valueEq && IsEquivalence(a.valueEq)
    ensures a.Equals(b) <==> b.Equals(a)
  {
  }

  /** An entity with one versioned property, reached through the property's
      getter and setter. */
  class Entity<V(==, !new)> {
    var property: Versioned<V>

    constructor (property: Versioned<V>)
      ensures this.property == property
    {
      this.property := property;
    }
  }

  /** VersionedExtensions.Set: throws for a null entity or a read-only property,
      otherwise replaces the property with its clone. `newValue` is accepted and
      never used, so the installed clone keeps the old value. */
  method Set<V(==, !new)>(entity: Entity?<V>, newValue: V) returns (outcome: Outcome)
    requires entity != null ==> entity.property.Valid()
    modifies entity
    ensures entity == null ==> outcome == Fail(ArgumentNull("entity"))
    ensures entity != null && old(entity.property.isReadOnly) ==>
      && outcome == Fail(InvalidOperation(ReadOnlyExceptionMessage))
      && entity.property == old(entity.property)
    ensures entity != null && !old(entity.property.isReadOnly) ==>
      && outcome == Pass
      && fresh(entity.property)
      && entity.property.Valid()
      && entity.property.Current() == old(entity.property.Current())
      && entity.property.valueEq == old(entity.property.valueEq)
      && entity.property.defaultValue == old(entity.property.defaultValue)
      && entity.property.events == [] && entity.property.observed == []
      && entity.property.localVersions.inner == old(entity.property.internalLocalVersions)
  {
    if entity == null {
      return Fail(ArgumentNull("entity"));
    }
    var versioned := entity.property;
    if versioned.isReadOnly {
      return Fail(InvalidOperation(ReadOnlyExceptionMessage));
    }
    var c := versioned.Clone();
    entity.property := c;
    return Pass;
  }
}
