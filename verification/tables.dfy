/** One storage bucket of the relational backend, and the single generic
    upsert / lookup / listing / removal routine that the user repository
    applies to users, tokens and WebAuthn credentials alike. Field-by-field
    conversion between entity and storage model is field-preserving here, so a
    stored row and the entity decoded from it carry the same data. */
module Tables {
  import opened Wrappers
  import opened Seqs

  /** Storage-assigned primary key. Auto-increment keys start at 1, so the
      truthiness test `if (user.id)` in cnpmcore's `UserRepository` is
      exactly "an id is present". */
  type RowId = n: nat | n > 0 witness 1

  /** A persisted record: its primary key and the entity's domain fields. */
  datatype Row<F> = Row(id: RowId, fields: F)

  /** A bucket: rows in storage order plus the next auto-increment key. */
  datatype Table<F> = Table(rows: seq<Row<F>>, nextId: RowId)

  /** An in-memory entity; `id` is None until the entity has been inserted. */
  datatype Entity<F> = Entity(id: Option<RowId>, fields: F)

  /** What a save did. The TypeScript `save*` methods return nothing; the tag
      makes the silent no-op on a missing row observable. */
  datatype SaveOutcome = Inserted(id: RowId) | Updated(id: RowId) | SkippedMissing

  function EmptyTable<F>(): (t: Table<F>)
    ensures |t.rows| == 0 && Valid(t)
  {
    Table([], 1)
  }

  /** Primary keys are below the counter and pairwise distinct. */
  predicate Valid<F>(t: Table<F>) {
    && (forall i :: 0 <= i < |t.rows| ==> t.rows[i].id < t.nextId)
    && (forall i, j :: 0 <= i < j < |t.rows| ==> t.rows[i].id != t.rows[j].id)
  }

  predicate HasRow<F>(t: Table<F>, id: RowId) {
    exists i :: 0 <= i < |t.rows| && t.rows[i].id == id
  }

  /** The generic upsert: update the row with the entity's id, silently do
      nothing when that row is gone, insert under a fresh key when the entity
      has no id. */
  function Save<F>(t: Table<F>, e: Entity<F>): (res: (Table<F>, SaveOutcome))
    ensures res.1.Inserted? <==> e.id.None?
    ensures res.1.SkippedMissing? <==> e.id.Some? && !HasRow(t, e.id.value)
    ensures res.1.Updated? <==> e.id.Some? && HasRow(t, e.id.value)
    ensures Valid(t) ==> Valid(res.0)
    // a row that vanished makes the save a no-op, without error
    ensures res.1.SkippedMissing? ==> res.0 == t
    // an insert appends exactly one row, under a key not used before
    ensures res.1.Inserted? ==>
      && |res.0.rows| == |t.rows| + 1
      && res.0.rows[..|t.rows|] == t.rows
      && res.0.rows[|t.rows|] == Row(res.1.id, e.fields)
      && (Valid(t) ==> !HasRow(t, res.1.id))
    // an update rewrites the fields of the row with that key and nothing else
    ensures res.1.Updated? ==>
      && res.1.id == e.id.value
      && res.0.nextId == t.nextId
      && |res.0.rows| == |t.rows|
      && HasRow(res.0, e.id.value)
      && (Valid(t) ==> forall i :: 0 <= i < |t.rows| ==>
            res.0.rows[i] == if t.rows[i].id == e.id.value then Row(e.id.value, e.fields) else t.rows[i])
  {
    match e.id
    case None =>
      var t' := Table(t.rows + [Row(t.nextId, e.fields)], t.nextId + 1);
      assert t'.rows[..|t.rows|] == t.rows;
      (t', Inserted(t.nextId))
    case Some(id) =>
      match IndexWhere(t.rows, (r: Row<F>) => r.id == id)
      case None => (t, SkippedMissing)
      case Some(i) =>
        var t' := Table(t.rows[i := Row(id, e.fields)], t.nextId);
        assert t'.rows[i].id == id;
        (t', Updated(id))
  }

  /** Two saves of not-yet-persisted entities are two inserts with two
      distinct keys, both of which are then stored. */
  lemma InsertsGetDistinctIds<F>(t: Table<F>, a: Entity<F>, b: Entity<F>)
    requires Valid(t) && a.id.None? && b.id.None?
    ensures Save(t, a).1.Inserted? && Save(Save(t, a).0, b).1.Inserted?
    ensures Save(t, a).1.id != Save(Save(t, a).0, b).1.id
    ensures HasRow(Save(Save(t, a).0, b).0, Save(t, a).1.id)
    ensures HasRow(Save(Save(t, a).0, b).0, Save(Save(t, a).0, b).1.id)
  {
  }

  /** Saving an entity that already has an id twice is the same as saving it
      once: the second save rewrites the row with the values it already has. */
  lemma SaveExistingIdempotent<F>(t: Table<F>, e: Entity<F>)
    requires Valid(t) && e.id.Some?
    ensures Save(Save(t, e).0, e) == Save(t, e)
  {
    var (t1, o1) := Save(t, e);
    var (t2, o2) := Save(t1, e);
    if o1.Updated? {
      assert o2.Updated?;
      forall i | 0 <= i < |t1.rows|
        ensures t2.rows[i] == t1.rows[i]
      {
      }
      assert t2.rows == t1.rows;
    }
  }

  /** `findOne`: the first row, in storage order, whose fields satisfy `p`. */
  function FindOne<F>(t: Table<F>, p: F -> bool): (r: Option<Row<F>>)
    ensures r.None? <==> forall i :: 0 <= i < |t.rows| ==> !p(t.rows[i].fields)
    ensures r.Some? ==> r.value in t.rows && p(r.value.fields)
  {
    match IndexWhere(t.rows, (row: Row<F>) => p(row.fields))
    case None => None
    case Some(i) => Some(t.rows[i])
  }

  /** A predicate on domain fields, lifted to stored rows. */
  function OnFields<F(!new)>(p: F -> bool): (q: Row<F> -> bool)
    ensures forall row :: q(row) == p(row.fields)
  {
    (row: Row<F>) => p(row.fields)
  }

  /** `find`: every row whose fields satisfy `p`, in storage order. */
  function FindAll<F(!new)>(t: Table<F>, p: F -> bool): (r: seq<Row<F>>)
    ensures forall row :: row in r <==> row in t.rows && p(row.fields)
    ensures forall row :: multiset(r)[row] == if p(row.fields) then multiset(t.rows)[row] else 0
    ensures Subsequence(r, t.rows)
  {
    FilterMultiplicity(t.rows, OnFields(p));
    FilterIsSubsequence(t.rows, OnFields(p));
    Filter(t.rows, OnFields(p))
  }

  /** `remove`: delete every row whose fields satisfy `p`; report how many. */
  function RemoveAll<F(!new)>(t: Table<F>, p: F -> bool): (res: (Table<F>, nat))
    ensures res.0.nextId == t.nextId
    ensures forall row :: row in res.0.rows <==> row in t.rows && !p(row.fields)
    ensures forall row :: multiset(res.0.rows)[row] == if p(row.fields) then 0 else multiset(t.rows)[row]
    ensures Subsequence(res.0.rows, t.rows)
    ensures res.1 == |FindAll(t, p)|
    ensures res.1 == |t.rows| - |res.0.rows|
    ensures (forall i :: 0 <= i < |t.rows| ==> !p(t.rows[i].fields)) ==> res == (t, 0)
    ensures res.1 == 0 <==> res.0 == t
    ensures Valid(t) ==> Valid(res.0)
  {
    var kept := Filter(t.rows, OffFields(p));
    RemoveAllKeeps(t, p);
    (Table(kept, t.nextId), |t.rows| - |kept|)
  }

  /** The complement of `OnFields(p)`: the rows `remove` keeps. */
  function OffFields<F(!new)>(p: F -> bool): (q: Row<F> -> bool)
    ensures forall row :: q(row) == !p(row.fields)
  {
    (row: Row<F>) => !p(row.fields)
  }

  /** The rows kept by `remove` and the rows matched by `find` split the
      table; the kept rows keep their order, multiplicities and valid keys. */
  lemma RemoveAllKeeps<F(!new)>(t: Table<F>, p: F -> bool)
    ensures |FindAll(t, p)| + |Filter(t.rows, OffFields(p))| == |t.rows|
    ensures forall row ::
              multiset(Filter(t.rows, OffFields(p)))[row] == if p(row.fields) then 0 else multiset(t.rows)[row]
    ensures Subsequence(Filter(t.rows, OffFields(p)), t.rows)
    ensures Valid(t) ==> Valid(Table(Filter(t.rows, OffFields(p)), t.nextId))
  {
    FilterPartition(t.rows, OnFields(p), OffFields(p));
    FilterMultiplicity(t.rows, OffFields(p));
    FilterIsSubsequence(t.rows, OffFields(p));
    if Valid(t) {
      FilterKeepsValid(t, OffFields(p));
    }
  }

  /** A filtered bucket keeps its keys distinct and below the counter. */
  lemma FilterKeepsValid<F(!new)>(t: Table<F>, p: Row<F> -> bool)
    requires Valid(t)
    ensures Valid(Table(Filter(t.rows, p), t.nextId))
  {
    FilterKeepsPairwise(t.rows, p, (a: Row<F>, b: Row<F>) => a.id != b.id);
  }
}
