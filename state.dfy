/** The observable state of a versioned value and the effect of each operation on
    it, as pure functions. The class in versioned.dfy is proved to move between
    exactly these states; the lemmas here state what those moves promise. */
module VersionedState {
  import opened Primitives

  /** Id, Modified, IsReadOnly, Value and the not-yet-persisted local records. */
  datatype State<V> = State(
    id: Guid,
    modified: Option<DateTime>,
    isReadOnly: bool,
    value: V,
    local: seq<Version<V>>)

  /** What an operation returns, the state it leaves and the events it raises. */
  datatype Step<V> = Step(outcome: Outcome, after: State<V>, events: seq<Event>)

  /** What the listeners of a field setter's Changing / Changed pair see: the
      state before the write, then the state after it, or nothing when the
      field did not change (the partner of ChangeEvents). */
  function Seen<V>(before: State<V>, after: State<V>, changed: bool): (r: seq<State<V>>)
    ensures |r| == |ChangeEvents(IdName, changed)|
  {
    if changed then [before, after] else []
  }

  /** One assignment to Value: the value, and the clock and the new Guid the
      setter would read. */
  datatype Write<V> = Write(value: V, now: DateTime, freshId: Guid)

  /** The invariant of the local records: when there are any, the id has been
      assigned and every record points back to it. */
  ghost predicate Consistent<V>(s: State<V>) {
    && (|s.local| > 0 ==> s.id != EmptyGuid)
    && forall i :: 0 <= i < |s.local| ==> s.local[i].versionedId == s.id
  }

  /** The state of a newly constructed versioned value. */
  function Initial<V>(defaultValue: V): (s: State<V>)
    ensures Consistent(s) && !s.isReadOnly && s.local == []
  {
    State(EmptyGuid, None, false, defaultValue, [])
  }

  /** The Value setter, with `eq` the value equality comparer. */
  function Assign<V>(s: State<V>, w: Write<V>, eq: (V, V) -> bool): Step<V> {
    if s.isReadOnly then
      Step(Fail(InvalidOperation(ReadOnlyExceptionMessage)), s, [])
    else if s.modified.Some? && eq(s.value, w.value) then
      Step(Pass, s, [])
    else
      var id := if s.modified.Some? && s.id == EmptyGuid then w.freshId else s.id;
      var local := if s.modified.Some? then s.local + [Version(id, s.modified.value, s.value)] else s.local;
      Step(Pass,
           State(id, Some(w.now), s.isReadOnly, w.value, local),
           ChangeEvents(IdName, id != s.id)
             + ChangeEvents(ValueName, true)
             + ChangeEvents(ModifiedName, Some(w.now) != s.modified))
  }

  /** What the listeners of the Value setter's events see, one state per event:
      the id is written first, then the record of the superseded value is
      added (raising nothing), then Value and then Modified are written. */
  function AssignSeen<V>(s: State<V>, w: Write<V>, eq: (V, V) -> bool): seq<State<V>> {
    if s.isReadOnly || (s.modified.Some? && eq(s.value, w.value)) then []
    else
      var after := Assign(s, w, eq).after;
      var withId := s.(id := after.id);
      var recorded := withId.(local := after.local);
      var written := recorded.(value := after.value);
      Seen(s, withId, after.id != s.id)
        + Seen(recorded, written, true)
        + Seen(written, after, after.modified != s.modified)
  }

  /** SetSnapshotVersion: freeze, then replay the given record, if any. The
      field comparisons are default equality, not the value comparer. */
  function Freeze<V(==)>(s: State<V>, version: Option<Version<V>>): Step<V> {
    var frozen := ChangeEvents(IsReadOnlyName, !s.isReadOnly);
    match version
    case None => Step(Pass, s.(isReadOnly := true), frozen)
    case Some(r) =>
      Step(Pass,
           s.(isReadOnly := true, value := r.value, modified := Some(r.added)),
           frozen
             + ChangeEvents(ValueName, r.value != s.value)
             + ChangeEvents(ModifiedName, Some(r.added) != s.modified))
  }

  /** What the listeners of SetSnapshotVersion's events see, one state per
      event: IsReadOnly is written first, then Value, then Modified. */
  function FreezeSeen<V(==)>(s: State<V>, version: Option<Version<V>>): seq<State<V>> {
    var after := Freeze(s, version).after;
    var frozen := s.(isReadOnly := true);
    var replayed := frozen.(value := after.value);
    Seen(s, frozen, !s.isReadOnly)
      + Seen(frozen, replayed, after.value != s.value)
      + Seen(replayed, after, after.modified != s.modified)
  }

  /** A run of assignments, one after the other. */
  function AssignAll<V>(s: State<V>, ws: seq<Write<V>>, eq: (V, V) -> bool): State<V>
    decreases |ws|
  {
    if ws == [] then s else AssignAll(Assign(s, ws[0], eq).after, ws[1..], eq)
  }

  /** A write to a read-only value throws the read-only exception and changes
      nothing, raising no event. */
  lemma AssignToReadOnlyFails<V>(s: State<V>, w: Write<V>, eq: (V, V) -> bool)
    requires s.isReadOnly
    ensures Assign(s, w, eq) == Step(Fail(InvalidOperation(ReadOnlyExceptionMessage)), s, [])
  {
  }

  /** The first write ever (no Modified yet) records no history and assigns no id,
      even when the new value equals the current one; afterwards Value and
      Modified hold the write. */
  lemma FirstAssignRecordsNothing<V>(s: State<V>, w: Write<V>, eq: (V, V) -> bool)
    requires !s.isReadOnly && s.modified.None?
    ensures var t := Assign(s, w, eq);
      && t.outcome == Pass
      && t.after == s.(value := w.value, modified := Some(w.now))
      && t.events == [Changing(ValueName), Changed(ValueName), Changing(ModifiedName), Changed(ModifiedName)]
  {
  }

  /** Once Modified is set, writing a value equal under the comparer is a no-op. */
  lemma EqualAssignIsNoOp<V>(s: State<V>, w: Write<V>, eq: (V, V) -> bool)
    requires !s.isReadOnly && s.modified.Some? && eq(s.value, w.value)
    ensures Assign(s, w, eq) == Step(Pass, s, [])
  {
  }

  /** A real change assigns an id if there was none, appends exactly one record
      of the superseded value and timestamp, and takes the new value and time;
      events come in the order Id (when assigned), Value, Modified (when it
      differs), each Changing before its Changed. */
  lemma RealChangeAppendsOneRecord<V>(s: State<V>, w: Write<V>, eq: (V, V) -> bool)
    requires !s.isReadOnly && s.modified.Some? && !eq(s.value, w.value)
    requires w.freshId != EmptyGuid
    ensures var t := Assign(s, w, eq).after;
      && Assign(s, w, eq).outcome == Pass
      && t.id != EmptyGuid
      && (s.id != EmptyGuid ==> t.id == s.id)
      && |t.local| == |s.local| + 1
      && t.local[..|s.local|] == s.local
      && t.local[|s.local|] == Version(t.id, s.modified.value, s.value)
      && t.value == w.value && t.modified == Some(w.now) && !t.isReadOnly
    ensures Assign(s, w, eq).events ==
      (if s.id == EmptyGuid then [Changing(IdName), Changed(IdName)] else [])
      + [Changing(ValueName), Changed(ValueName)]
      + (if Some(w.now) != s.modified then [Changing(ModifiedName), Changed(ModifiedName)] else [])
  {
  }

  /** The Value setter raises one notification per entry of its listener trace.
      The first listener sees the state before the write, except that the
      history record, which raises no notification of its own, may already be
      in the local list; the last listener sees the state the write leaves. */
  lemma AssignNotifiesEachStep<V>(s: State<V>, w: Write<V>, eq: (V, V) -> bool)
    ensures var t, seen := Assign(s, w, eq), AssignSeen(s, w, eq);
      && |seen| == |t.events|
      && (seen != [] ==> seen[0] == s.(local := seen[0].local) && seen[|seen| - 1] == t.after)
  {
  }

  /** In a real change, listeners of the Id pair see the id assigned before the
      record is added; listeners of Changing(Value) already see the record of
      the superseded value, with Value and Modified not yet written; listeners
      of Changed(Value) see the new value with Modified not yet written. */
  lemma RealChangeRecordsBeforeValueEvents<V>(s: State<V>, w: Write<V>, eq: (V, V) -> bool)
    requires !s.isReadOnly && s.modified.Some? && !eq(s.value, w.value)
    requires w.freshId != EmptyGuid
    ensures var t, seen := Assign(s, w, eq), AssignSeen(s, w, eq);
      var k := if s.id == EmptyGuid then 2 else 0;
      && |seen| >= k + 2
      && (s.id == EmptyGuid ==> seen[1].id == t.after.id && seen[1].local == s.local)
      && t.events[k] == Changing(ValueName) && t.events[k + 1] == Changed(ValueName)
      && seen[k].local == t.after.local && seen[k].value == s.value && seen[k].modified == s.modified
      && seen[k + 1].value == w.value && seen[k + 1].modified == s.modified
  {
  }

  /** Every write keeps the local records consistent with the id. */
  lemma AssignKeepsConsistent<V>(s: State<V>, w: Write<V>, eq: (V, V) -> bool)
    requires Consistent(s) && w.freshId != EmptyGuid
    ensures Consistent(Assign(s, w, eq).after)
  {
  }

  /** Any run of writes keeps the local records consistent with the id. */
  lemma {:induction false} AssignAllKeepsConsistent<V>(s: State<V>, ws: seq<Write<V>>, eq: (V, V) -> bool)
    requires Consistent(s)
    requires forall k :: 0 <= k < |ws| ==> ws[k].freshId != EmptyGuid
    ensures Consistent(AssignAll(s, ws, eq))
    decreases |ws|
  {
    if ws != [] {
      AssignKeepsConsistent(s, ws[0], eq);
      AssignAllKeepsConsistent(Assign(s, ws[0], eq).after, ws[1..], eq);
    }
  }

  /** SetSnapshotVersion always leaves the value read-only. With no record it
      changes nothing else; with a record it takes the record's value and time.
      Id and the local records are never touched. */
  lemma FreezeEffect<V>(s: State<V>, version: Option<Version<V>>)
    ensures var t := Freeze(s, version);
      && t.outcome == Pass
      && t.after.isReadOnly
      && t.after.id == s.id && t.after.local == s.local
      && (version.None? ==> t.after.value == s.value && t.after.modified == s.modified)
      && (version.Some? ==> t.after.value == version.value.value
                            && t.after.modified == Some(version.value.added))
  {
  }

  /** Freezing keeps the local records consistent with the id. */
  lemma FreezeKeepsConsistent<V>(s: State<V>, version: Option<Version<V>>)
    requires Consistent(s)
    ensures Consistent(Freeze(s, version).after)
  {
  }

  /** SetSnapshotVersion raises one notification per entry of its listener
      trace, from the state before it to the state it leaves, and freezes
      first: every listener after the first sees a read-only value. */
  lemma FreezeNotifiesEachStep<V>(s: State<V>, version: Option<Version<V>>)
    ensures var t, seen := Freeze(s, version), FreezeSeen(s, version);
      && |seen| == |t.events|
      && (seen != [] ==> seen[0] == s && seen[|seen| - 1] == t.after)
      && forall i :: 0 < i < |seen| ==> seen[i].isReadOnly
  {
  }

  /** Read-only is absorbing: after SetSnapshotVersion no run of writes changes
      anything, so Value and Modified stay as the snapshot set them. */
  lemma {:induction false} FrozenIgnoresWrites<V>(s: State<V>, ws: seq<Write<V>>, eq: (V, V) -> bool)
    requires s.isReadOnly
    ensures AssignAll(s, ws, eq) == s
    decreases |ws|
  {
    if ws != [] {
      AssignToReadOnlyFails(s, ws[0], eq);
      FrozenIgnoresWrites(s, ws[1..], eq);
    }
  }

  /** No two consecutive writes of the run are equal under the comparer, and the
      first differs from `previous`. */
  ghost predicate EachWriteChanges<V>(previous: V, ws: seq<Write<V>>, eq: (V, V) -> bool) {
    && (|ws| > 0 ==> !eq(previous, ws[0].value))
    && forall k :: 0 <= k < |ws| - 1 ==> !eq(ws[k].value, ws[k + 1].value)
  }

  /** The records at `n`, `n + 1`, ... hold writes 0, 1, ... of `ws` when the
      record at `n` holds write 0 and the ones after it hold the rest. */
  lemma RecordsOfRun<V>(records: seq<Version<V>>, n: nat, id: Guid, ws: seq<Write<V>>)
    requires |ws| > 1 && n + |ws| - 1 <= |records|
    requires records[n] == Version(id, ws[0].now, ws[0].value)
    requires forall j :: 0 <= j < |ws| - 2 ==> records[n + 1 + j] == Version(id, ws[1..][j].now, ws[1..][j].value)
    ensures forall j :: 0 <= j < |ws| - 1 ==> records[n + j] == Version(id, ws[j].now, ws[j].value)
  {
    forall j | 0 < j < |ws| - 1 ensures records[n + j] == Version(id, ws[j].now, ws[j].value) {
      assert records[n + 1 + (j - 1)] == Version(id, ws[1..][j - 1].now, ws[1..][j - 1].value);
    }
  }

  /** From a writable state that has been modified, a run of writes that each
      change the value appends one record per write, in order: the record of
      write k holds the value and time that write k superseded. */
  lemma {:induction false} ChangingWritesAppendHistory<V>(s: State<V>, ws: seq<Write<V>>, eq: (V, V) -> bool)
    requires !s.isReadOnly && s.modified.Some? && |ws| > 0
    requires EachWriteChanges(s.value, ws, eq)
    requires forall k :: 0 <= k < |ws| ==> ws[k].freshId != EmptyGuid
    ensures var t := AssignAll(s, ws, eq);
      && var id := if s.id == EmptyGuid then ws[0].freshId else s.id;
      && t.id == id && !t.isReadOnly
      && t.value == ws[|ws| - 1].value && t.modified == Some(ws[|ws| - 1].now)
      && |t.local| == |s.local| + |ws|
      && t.local[..|s.local|] == s.local
      && t.local[|s.local|] == Version(id, s.modified.value, s.value)
      && forall j :: 0 <= j < |ws| - 1 ==> t.local[|s.local| + 1 + j] == Version(id, ws[j].now, ws[j].value)
    decreases |ws|
  {
    var s1 := Assign(s, ws[0], eq).after;
    var id := if s.id == EmptyGuid then ws[0].freshId else s.id;
    assert s1.id == id && !s1.isReadOnly && s1.modified == Some(ws[0].now) && s1.value == ws[0].value;
    assert s1.local == s.local + [Version(id, s.modified.value, s.value)];
    if |ws| > 1 {
      var rest := ws[1..];
      assert EachWriteChanges(s1.value, rest, eq) by {
        forall k | 0 <= k < |rest| - 1 ensures !eq(rest[k].value, rest[k + 1].value) {
          assert rest[k] == ws[k + 1] && rest[k + 1] == ws[k + 2];
        }
      }
      ChangingWritesAppendHistory(s1, rest, eq);
      var t := AssignAll(s1, rest, eq);
      assert t == AssignAll(s, ws, eq);
      RecordsOfRun(t.local, |s1.local|, id, ws);
      assert t.local[..|s.local|] == t.local[..|s1.local|][..|s.local|];
    }
  }

  /** The history of a fresh versioned value after n writes, each changing the
      value: n - 1 records in chronological order, record k holding write k's
      value and time; Value and Modified hold the last write. The first write
      records nothing, so the id is the one drawn by the second write. */
  lemma HistoryOfChangingWrites<V>(defaultValue: V, ws: seq<Write<V>>, eq: (V, V) -> bool)
    requires |ws| > 0
    requires forall k :: 0 <= k < |ws| - 1 ==> !eq(ws[k].value, ws[k + 1].value)
    requires forall k :: 0 <= k < |ws| ==> ws[k].freshId != EmptyGuid
    ensures var t := AssignAll(Initial(defaultValue), ws, eq);
      && |t.local| == |ws| - 1
      && (forall k :: 0 <= k < |ws| - 1 ==> t.local[k] == Version(ws[1].freshId, ws[k].now, ws[k].value))
      && t.id == (if |ws| > 1 then ws[1].freshId else EmptyGuid)
      && t.value == ws[|ws| - 1].value && t.modified == Some(ws[|ws| - 1].now)
  {
    var s0 := Initial(defaultValue);
    var s1 := Assign(s0, ws[0], eq).after;
    FirstAssignRecordsNothing(s0, ws[0], eq);
    if |ws| > 1 {
      var rest := ws[1..];
      assert EachWriteChanges(s1.value, rest, eq) by {
        forall k | 0 <= k < |rest| - 1 ensures !eq(rest[k].value, rest[k + 1].value) {
          assert rest[k] == ws[k + 1] && rest[k + 1] == ws[k + 2];
        }
      }
      ChangingWritesAppendHistory(s1, rest, eq);
      var t := AssignAll(s1, rest, eq);
      assert t == AssignAll(s0, ws, eq);
      forall k | 0 <= k < |ws| - 1 ensures t.local[k] == Version(ws[1].freshId, ws[k].now, ws[k].value) {
        if k > 0 {
          assert rest[k - 1] == ws[k];
        }
      }
    }
  }
}
