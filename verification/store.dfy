/** Convex's document store, reduced to what the handlers use: a table is the
    sequence of its documents in insertion (creation-time) order, every
    document carries an `_id`, and `get`, `patch` and `delete` address one
    document by that id. */
module Store {
  import opened Common

  /** A document id. Convex ids are opaque non-empty strings; here they are
      drawn from one counter, so a later insert always has a larger id. */
  type Id = nat

  /** A stored document: its `_id` and its fields. */
  datatype Doc<T> = Doc(id: Id, val: T)

  /** A table in creation order. */
  type Table<T> = seq<Doc<T>>

  /** Ids strictly increase along the table: table order is creation order. */
  predicate Ascending<T>(t: Table<T>) {
    forall i, j :: 0 <= i < j < |t| ==> t[i].id < t[j].id
  }

  /** Every id in the table was handed out before `next`. */
  predicate Below<T>(t: Table<T>, next: Id) {
    forall i :: 0 <= i < |t| ==> t[i].id < next
  }

  /** Ids strictly decrease: newest first. */
  predicate Descending<T>(t: Table<T>) {
    forall i, j :: 0 <= i < j < |t| ==> t[i].id > t[j].id
  }

  predicate Keyed<T>(t: Table<T>, next: Id) {
    Ascending(t) && Below(t, next)
  }

  /** Row selector of a lookup by id. */
  function HasId<T>(id: Id): Doc<T> -> bool {
    (d: Doc<T>) => d.id == id
  }

  /** `ctx.db.get(id)`: the document with that id, if it exists. */
  function Get<T>(t: Table<T>, id: Id): (r: Option<Doc<T>>)
    ensures r.Some? ==> r.value in t && r.value.id == id
    ensures r.None? <==> forall i :: 0 <= i < |t| ==> t[i].id != id
  {
    Find(t, HasId(id))
  }

  /** Writes `v` as the fields of the document with id `id`. */
  function Replace<T>(t: Table<T>, id: Id, v: T): (r: Table<T>)
    ensures |r| == |t|
    ensures forall i :: 0 <= i < |t| ==> r[i] == (if t[i].id == id then Doc(id, v) else t[i])
  {
    seq(|t|, i requires 0 <= i < |t| => if t[i].id == id then Doc(id, v) else t[i])
  }

  /** `ctx.db.delete(id)`. */
  function Delete<T(!new)>(t: Table<T>, id: Id): (r: Table<T>)
    ensures forall d :: d in r <==> d in t && d.id != id
    ensures forall next :: Keyed(t, next) ==> Keyed(r, next)
  {
    var p := (d: Doc<T>) => d.id != id;
    FilterAscending(t, p);
    Filter(t, p)
  }

  /** A sub-table (any filter of a table) keeps the creation order. */
  lemma {:induction false} FilterAscending<T(!new)>(t: Table<T>, p: Doc<T> -> bool)
    ensures Ascending(t) ==> Ascending(Filter(t, p))
  {
    if |t| > 0 && Ascending(t) {
      var t' := t[..|t| - 1];
      FilterAscending(t', p);
      assert t == t' + [t[|t| - 1]];
      FilterSnoc(t', t[|t| - 1], p);
      var f := Filter(t', p);
      forall i | 0 <= i < |f|
        ensures f[i].id < t[|t| - 1].id
      {
        assert f[i] in t';
      }
    }
  }

  /** In an ascending table, the document found by `Get` is the only one
      with that id. */
  lemma GetUnique<T>(t: Table<T>, id: Id, k: nat)
    requires Ascending(t)
    requires k < |t| && t[k].id == id
    ensures Get(t, id) == Some(t[k])
  {
    var r := FindFirst(t, HasId(id));
    assert r.Some?;
  }

  /** Replacing fields keeps every id, hence the table stays keyed. */
  lemma ReplaceKeyed<T>(t: Table<T>, next: Id, id: Id, v: T)
    ensures Keyed(t, next) ==> Keyed(Replace(t, id, v), next)
  {
  }
}
