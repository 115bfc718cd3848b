/** Value types shared by the versioned-property engine: identifiers, timestamps,
    version records, the change-notification events and the error outcomes. */
module Primitives {

  /** A Guid, modelled as a natural number; `EmptyGuid` stands for Guid.Empty. */
  type Guid = nat
  const EmptyGuid: Guid := 0

  /** A DateTime, modelled as a tick count. */
  type DateTime = int

  /** Nullable values (`DateTime?`, a version that may be null). */
  datatype Option<T> = None | Some(value: T)

  /** One superseded value of a versioned property (VersionBase<TValue>):
      the id of the owning versioned value, the time the value was superseded,
      and the superseded value itself. */
  datatype Version<V> = Version(versionedId: Guid, added: DateTime, value: V)

  /** The message of the InvalidOperationException thrown on a write to a snapshot. */
  const ReadOnlyExceptionMessage: string :=
    "This versioned object is in a read-only state, possibly because it is a snapshot of a previous state"

  /** The exceptions the core throws. */
  datatype Error =
    | ArgumentNull(paramName: string)
    | InvalidOperation(message: string)

  /** Normal completion, or the exception an operation throws. */
  datatype Outcome = Pass | Fail(error: Error)

  /** The tracked properties, as named in PropertyChanging/PropertyChanged arguments. */
  datatype PropertyName = IdName | ModifiedName | IsReadOnlyName | ValueName

  /** One notification delivered to the PropertyChanging / PropertyChanged listeners. */
  datatype Event = Changing(name: PropertyName) | Changed(name: PropertyName)

  /** The pair of events NotifyChange raises around a field write, or nothing
      when the conditional variant finds the value unchanged. */
  function ChangeEvents(name: PropertyName, changed: bool): seq<Event> {
    if changed then [Changing(name), Changed(name)] else []
  }

  /** The contract of an IEqualityComparer: an equivalence relation. */
  ghost predicate IsEquivalence<V(!new)>(eq: (V, V) -> bool) {
    && (forall x :: eq(x, x))
    && (forall x, y :: eq(x, y) ==> eq(y, x))
    && (forall x, y, z :: eq(x, y) && eq(y, z) ==> eq(x, z))
  }
}
