/** What callers of VersionedBase can rely on, shown on the class's contracts
    alone: a clone's value is independent of its source while its LocalVersions
    view is not, and a snapshot rejects every later write. */
module VersionedScenarios {
  import opened Primitives
  import opened VersionedState
  import opened VersionedProperties

  /** Clone `a`, then change `a`'s value and then the clone's. Each keeps its own
      Value and its own local records. But the clone's LocalVersions view shows
      `a`'s list: it gains the record of `a`'s write and never shows the record
      of the clone's own write. When `a` had no id yet, each write draws its own
      fresh id, so the two lists carry different ids. */
  method CloneThenWriteBoth<V(==, !new)>(a: Versioned<V>, v: V, w: V, now: DateTime, freshA: Guid, freshC: Guid)
    returns (c: Versioned<V>)
    requires a.Valid() && freshA != EmptyGuid && freshC != EmptyGuid && freshA != freshC
    requires !a.isReadOnly && a.modified.Some?
    requires !a.valueEq(a.value, v) && !a.valueEq(a.value, w)
    modifies a, a.internalLocalVersions
    ensures fresh(c)
    ensures a.value == v && c.value == w
    ensures a.internalLocalVersions.items == old(a.internalLocalVersions.items) + [Version(a.id, old(a.modified.value), old(a.value))]
    ensures c.internalLocalVersions.items == old(a.internalLocalVersions.items) + [Version(c.id, old(a.modified.value), old(a.value))]
    ensures c.LocalVersions() == a.internalLocalVersions.items
    ensures old(a.id) != EmptyGuid ==> a.id == old(a.id) && c.id == old(a.id)
    ensures old(a.id) == EmptyGuid ==> a.id == freshA && c.id == freshC
  {
    c := a.Clone();
    var before := a.internalLocalVersions.items;
    var r1 := a.SetValue(v, now, freshA);
    assert c.value == old(a.value);
    var r2 := c.SetValue(w, now, freshC);
    assert a.value == v;
    assert a.internalLocalVersions.items == before + [Version(a.id, old(a.modified.value), old(a.value))];
  }

  /** After SetSnapshotVersion with a record, a write throws the read-only
      exception and Value and Modified stay as the record set them. */
  method SnapshotRejectsWrite<V(==, !new)>(a: Versioned<V>, r: Version<V>, v: V, now: DateTime, freshId: Guid)
    returns (outcome: Outcome)
    requires a.Valid() && freshId != EmptyGuid
    modifies a, a.internalLocalVersions
    ensures outcome == Fail(InvalidOperation(ReadOnlyExceptionMessage))
    ensures a.isReadOnly && a.value == r.value && a.modified == Some(r.added)
    ensures a.id == old(a.id) && a.internalLocalVersions.items == old(a.internalLocalVersions.items)
  {
    a.SetSnapshotVersion(Some(r));
    outcome := a.SetValue(v, now, freshId);
  }
}
