/** The durable set of version records (the DbSet<TVersion> of the host context),
    modelled as a sequence, and the three queries the versioned value runs on it:
    the records of one id, the records of every other id (what survives a
    delete-by-id), and GetVersions' descending order on `added`. */
module VersionStore {
  import opened Primitives

  /** The records of `store` that belong to the versioned value `id`, in store order
      (`Where(x => x.VersionedId == id)`). */
  function WithId<V>(store: seq<Version<V>>, id: Guid): (r: seq<Version<V>>)
    ensures forall i :: 0 <= i < |r| ==> r[i] in store && r[i].versionedId == id
    ensures forall i :: 0 <= i < |store| && store[i].versionedId == id ==> store[i] in r
    ensures |r| <= |store|
  {
    if store == [] then []
    else if store[0].versionedId == id then [store[0]] + WithId(store[1..], id)
    else WithId(store[1..], id)
  }

  /** The records of `store` that do not belong to `id`, in store order: what is
      left after `Where(x => x.VersionedId == id).Delete()`. */
  function WithoutId<V>(store: seq<Version<V>>, id: Guid): (r: seq<Version<V>>)
    ensures forall i :: 0 <= i < |r| ==> r[i] in store && r[i].versionedId != id
    ensures forall i :: 0 <= i < |store| && store[i].versionedId != id ==> store[i] in r
    ensures |r| <= |store|
  {
    if store == [] then []
    else if store[0].versionedId != id then [store[0]] + WithoutId(store[1..], id)
    else WithoutId(store[1..], id)
  }

  /** Newest first: every record is at least as recent as each one after it. */
  ghost predicate DescendingByAdded<V>(s: seq<Version<V>>) {
    forall i, j :: 0 <= i < j < |s| ==> s[i].added >= s[j].added
  }

  /** Inserts `x` into a sequence already ordered newest first. */
  function InsertByAdded<V>(x: Version<V>, s: seq<Version<V>>): (r: seq<Version<V>>)
    requires DescendingByAdded(s)
    ensures DescendingByAdded(r)
    ensures multiset(r) == multiset(s) + multiset{x}
    ensures |r| == |s| + 1
    ensures r[0] == x || (s != [] && r[0] == s[0])
  {
    if s == [] || x.added >= s[0].added then [x] + s
    else
      assert s == [s[0]] + s[1..];
      [s[0]] + InsertByAdded(x, s[1..])
  }

  /** `OrderByDescending(x => x.Added)`: a permutation of `s`, newest first. The
      order of records with equal `added` is left to the database by the source;
      this model keeps a fixed one. */
  function SortByAddedDescending<V>(s: seq<Version<V>>): (r: seq<Version<V>>)
    ensures DescendingByAdded(r)
    ensures multiset(r) == multiset(s)
    ensures |r| == |s|
  {
    if s == [] then []
    else
      assert s == [s[0]] + s[1..];
      InsertByAdded(s[0], SortByAddedDescending(s[1..]))
  }

  /** GetVersions: the stored records of `id`, newest first. */
  function Versions<V>(store: seq<Version<V>>, id: Guid): seq<Version<V>> {
    SortByAddedDescending(WithId(store, id))
  }

  /** GetVersions yields exactly the stored records of `id`, each as often as it is
      stored, newest first. */
  lemma VersionsAreTheRecordsOfId<V>(store: seq<Version<V>>, id: Guid)
    ensures DescendingByAdded(Versions(store, id))
    ensures multiset(Versions(store, id)) == multiset(WithId(store, id))
    ensures forall v :: v in Versions(store, id) <==> v in store && v.versionedId == id
  {
    var w := WithId(store, id);
    forall v ensures v in Versions(store, id) <==> v in w {
      calc {
        v in Versions(store, id);
        v in multiset(Versions(store, id));
        v in multiset(w);
        v in w;
      }
    }
  }

  /** Querying by id distributes over appending records to the store. */
  lemma {:induction false} WithIdAppend<V>(a: seq<Version<V>>, b: seq<Version<V>>, id: Guid)
    ensures WithId(a + b, id) == WithId(a, id) + WithId(b, id)
  {
    if a == [] {
      assert a + b == b;
    } else {
      assert (a + b)[1..] == a[1..] + b;
      WithIdAppend(a[1..], b, id);
    }
  }

  /** Querying records that all belong to `id` returns them unchanged. */
  lemma {:induction false} WithIdOfOwnRecords<V>(s: seq<Version<V>>, id: Guid)
    requires forall v :: v in s ==> v.versionedId == id
    ensures WithId(s, id) == s
  {
    if s != [] {
      WithIdOfOwnRecords(s[1..], id);
    }
  }

  /** Deleting by id and keeping the rest splits the store in two: every record
      is either deleted or kept, never both, never lost. */
  lemma {:induction false} DeletePartitionsStore<V>(store: seq<Version<V>>, id: Guid)
    ensures multiset(WithId(store, id)) + multiset(WithoutId(store, id)) == multiset(store)
  {
    if store != [] {
      DeletePartitionsStore(store[1..], id);
      assert store == [store[0]] + store[1..];
      if store[0].versionedId == id {
        assert WithId(store, id) == [store[0]] + WithId(store[1..], id);
        assert WithoutId(store, id) == WithoutId(store[1..], id);
      } else {
        assert WithId(store, id) == WithId(store[1..], id);
        assert WithoutId(store, id) == [store[0]] + WithoutId(store[1..], id);
      }
    }
  }

  /** Deleting the records of `id` leaves the records of every other id exactly as
      they were, in the same order. */
  lemma {:induction false} DeleteKeepsOtherIds<V>(store: seq<Version<V>>, id: Guid, other: Guid)
    requires other != id
    ensures WithId(WithoutId(store, id), other) == WithId(store, other)
  {
    if store != [] {
      DeleteKeepsOtherIds(store[1..], id, other);
    }
  }

  /** Flushing local records that all carry `id` into the store makes GetVersions
      yield the stored records of `id` together with every flushed record. */
  lemma FlushedRecordsAreQueryable<V>(store: seq<Version<V>>, local: seq<Version<V>>, id: Guid)
    requires forall v :: v in local ==> v.versionedId == id
    ensures multiset(Versions(store + local, id)) == multiset(Versions(store, id)) + multiset(local)
    ensures forall v :: v in local ==> v in Versions(store + local, id)
  {
    WithIdAppend(store, local, id);
    WithIdOfOwnRecords(local, id);
    VersionsAreTheRecordsOfId(store + local, id);
  }

  /** After a delete by id, GetVersions for that id yields nothing. */
  lemma {:induction false} DeletedIdHasNoVersions<V>(store: seq<Version<V>>, id: Guid)
    ensures WithId(WithoutId(store, id), id) == []
    ensures Versions(WithoutId(store, id), id) == []
  {
    if store != [] {
      DeletedIdHasNoVersions(store[1..], id);
    }
  }
}
