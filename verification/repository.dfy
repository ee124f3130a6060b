/** The generic repository of interfaces/ISQLAlchemyRepository.py over an
    in-memory table: one table per entity type, its rows in table order.
    The read queries are functions of the rows; the writes are methods of
    `Table`, each one atomic commit. Rows come back in table order, since the
    statements carry no ORDER BY. */
module Repository {
  import opened Wrappers
  import opened Seqs
  import opened Paging

  /** The identity passed to `session.get`: a simple key, or the tuple of the
      parts of a composite key in the declared key-column order. */
  datatype Identity<V> = Simple(part: V) | Composite(parts: seq<V>)

  /** `key[0] if len(key) == 1 else key` */
  function IdentityOf<V>(key: seq<V>): (id: Identity<V>)
    requires key != []
    ensures id.Simple? <==> |key| == 1
    ensures id.Simple? ==> id.part == key[0]
    ensures id.Composite? ==> id.parts == key
  {
    if |key| == 1 then Simple(key[0]) else Composite(key)
  }

  /** Row `x` passes the optional WHERE clause. */
  predicate Holds<T>(pred: Option<T -> bool>, x: T) {
    pred.None? || pred.value(x)
  }

  /** `select(model)` with the optional `where(predicate)`, before paging. */
  function Matching<T>(rows: seq<T>, pred: Option<T -> bool>): (r: seq<T>)
    ensures forall x :: x in r ==> x in rows && Holds(pred, x)
    ensures forall x :: x in rows && Holds(pred, x) ==> x in r
  {
    match pred
    case None => rows
    case Some(p) => Filter(rows, p)
  }

  /** `get_all`: every row, paged by `_build_statement`. */
  function GetAll<T>(rows: seq<T>, page: Option<int>, pageSize: Option<int>): (r: Result<seq<T>>)
    ensures r.Err? <==> !PagingValid(page, pageSize)
    ensures r.Err? ==> r.error == ValueError
    ensures r.Ok? ==> forall x :: x in r.value ==> x in rows
    ensures !Paged(page, pageSize) ==> r == Ok(rows)
  {
    Paginate(rows, page, pageSize)
  }

  /** `get`: the rows satisfying the predicate, paged by `_build_statement`. */
  function Get<T>(rows: seq<T>, pred: Option<T -> bool>, page: Option<int>, pageSize: Option<int>): (r: Result<seq<T>>)
    ensures r.Err? <==> !PagingValid(page, pageSize)
    ensures r.Err? ==> r.error == ValueError
    ensures !Paged(page, pageSize) ==> r.Ok? && forall x :: x in rows && Holds(pred, x) ==> x in r.value
    ensures r.Ok? ==> forall x :: x in r.value ==> x in rows && Holds(pred, x)
  {
    Paginate(Matching(rows, pred), page, pageSize)
  }

  /** `get_first`: the first row in table order that satisfies the predicate,
      or `None`. It never pages, so it never raises. */
  function GetFirst<T>(rows: seq<T>, pred: Option<T -> bool>): (r: Option<T>)
    ensures r.None? <==> forall x :: x in rows ==> !Holds(pred, x)
    ensures r.Some? ==>
              exists i :: && 0 <= i < |rows| && rows[i] == r.value && Holds(pred, rows[i])
                          && forall j :: 0 <= j < i ==> !Holds(pred, rows[j])
  {
    var m := Matching(rows, pred);
    if m == [] then None
    else
      assert m[0] in m;
      MatchingHead(rows, pred);
      Some(m[0])
  }

  lemma MatchingHead<T>(rows: seq<T>, pred: Option<T -> bool>)
    ensures Matching(rows, pred) != [] ==>
              exists i :: && 0 <= i < |rows| && rows[i] == Matching(rows, pred)[0] && Holds(pred, rows[i])
                          && forall j :: 0 <= j < i ==> !Holds(pred, rows[j])
  {
    match pred
    case None =>
      if rows != [] {
        assert Holds(pred, rows[0]) && rows[0] == Matching(rows, pred)[0];
      }
    case Some(p) => FilterHead(rows, p);
  }

  /** `session.get`: the row whose primary key is `id`, or `None`. */
  function FindByKey<V(==,!new), T>(rows: seq<T>, keyOf: T -> Identity<V>, id: Identity<V>): (r: Option<T>)
    ensures r.Some? ==> r.value in rows && keyOf(r.value) == id
    ensures r.None? <==> forall x :: x in rows ==> keyOf(x) != id
  {
    if rows == [] then None
    else if keyOf(rows[0]) == id then Some(rows[0])
    else FindByKey(rows[1..], keyOf, id)
  }

  /** `get_by_id(*key)`: no key parts give `None` without reading the table;
      otherwise the row whose key is the identity the parts form. */
  function GetById<V(==,!new), T>(rows: seq<T>, keyOf: T -> Identity<V>, key: seq<V>): (r: Option<T>)
    ensures key == [] ==> r.None?
    ensures r.Some? ==> r.value in rows && keyOf(r.value) == IdentityOf(key)
    ensures key != [] && r.None? ==> forall x :: x in rows ==> keyOf(x) != IdentityOf(key)
  {
    if key == [] then None else FindByKey(rows, keyOf, IdentityOf(key))
  }

  /** `count`: `SELECT count(*)` with the optional predicate. */
  function Count<T>(rows: seq<T>, pred: Option<T -> bool>): (n: nat)
    ensures n <= |rows|
    ensures pred.None? ==> n == |rows|
  {
    match pred
    case None => |rows|
    case Some(p) => CountWhere(rows, p)
  }

  /** No two rows share a primary key. */
  predicate UniqueKeys<V(==,!new), T>(rows: seq<T>, keyOf: T -> Identity<V>) {
    rows == [] || (FindByKey(rows[1..], keyOf, keyOf(rows[0])).None? && UniqueKeys(rows[1..], keyOf))
  }

  /** `merge` then `commit`: the row with the entity's key is overwritten in
      place, or the entity is appended when no row has that key. */
  function Upsert<V(==,!new), T>(rows: seq<T>, keyOf: T -> Identity<V>, e: T): (r: seq<T>)
    ensures FindByKey(r, keyOf, keyOf(e)) == Some(e)
    ensures forall id :: id != keyOf(e) ==> FindByKey(r, keyOf, id) == FindByKey(rows, keyOf, id)
    ensures |r| == if FindByKey(rows, keyOf, keyOf(e)).Some? then |rows| else |rows| + 1
  {
    if rows == [] then [e]
    else if keyOf(rows[0]) == keyOf(e) then [e] + rows[1..]
    else [rows[0]] + Upsert(rows[1..], keyOf, e)
  }

  /** The table after the rows with key `id` are deleted. */
  function RemoveKey<V(==,!new), T>(rows: seq<T>, keyOf: T -> Identity<V>, id: Identity<V>): (r: seq<T>)
    ensures FindByKey(r, keyOf, id).None?
    ensures forall other :: other != id ==> FindByKey(r, keyOf, other) == FindByKey(rows, keyOf, other)
  {
    if rows == [] then []
    else if keyOf(rows[0]) == id then RemoveKey(rows[1..], keyOf, id)
    else [rows[0]] + RemoveKey(rows[1..], keyOf, id)
  }

  /** None of `entities` has a key stored in `rows`, and no two of them share one:
      the condition under which a bulk insert commits. */
  predicate Insertable<V(==,!new), T>(rows: seq<T>, keyOf: T -> Identity<V>, entities: seq<T>) {
    && UniqueKeys(entities, keyOf)
    && forall i :: 0 <= i < |entities| ==> FindByKey(rows, keyOf, keyOf(entities[i])).None?
  }

  // ---------------------------------------------------------------------------
  // Properties of the queries

  /** `get(None)` is `get_all()`. */
  lemma GetWithoutPredicateIsGetAll<T>(rows: seq<T>, page: Option<int>, pageSize: Option<int>)
    ensures Get(rows, None, page, pageSize) == GetAll(rows, page, pageSize)
  {
  }

  /** `get_all` and `get` hand `page` and `page_size` to `_build_statement`
      unchanged: a paged call returns the paging window over the unpaged
      result, or the `ValueError` the paging check raises. */
  lemma QueriesArePaged<T>(rows: seq<T>, pred: Option<T -> bool>, page: Option<int>, pageSize: Option<int>)
    ensures GetAll(rows, page, pageSize) == Paginate(GetAll(rows, None, None).value, page, pageSize)
    ensures Get(rows, pred, page, pageSize) == Paginate(Get(rows, pred, None, None).value, page, pageSize)
  {
  }

  /** A result of `get` is a subsequence of the table: the matching rows, in table order. */
  lemma GetIsSubseq<T>(rows: seq<T>, pred: Option<T -> bool>, page: Option<int>, pageSize: Option<int>)
    requires PagingValid(page, pageSize)
    ensures IsSubseq(Get(rows, pred, page, pageSize).value, rows)
  {
    var m := Matching(rows, pred);
    PageIsSubseq(m, page, pageSize);
    match pred
    case None =>
    case Some(p) =>
      FilterIsSubseq(rows, p);
      SubseqTrans(Get(rows, pred, page, pageSize).value, m, rows);
  }

  /** `get_first` is the head of the unpaged `get`, or `None` when that is empty. */
  lemma GetFirstIsHeadOfGet<T>(rows: seq<T>, pred: Option<T -> bool>)
    ensures var all := Get(rows, pred, None, None).value;
            GetFirst(rows, pred) == if all == [] then None else Some(all[0])
  {
  }

  /** `count(pred)` is the length of the unpaged `get(pred)`; `count()` is the table size. */
  lemma CountIsLengthOfGet<T>(rows: seq<T>, pred: Option<T -> bool>)
    ensures Count(rows, pred) == |Get(rows, pred, None, None).value|
  {
    match pred
    case None =>
    case Some(p) => CountIsFilterLength(rows, p);
  }

  /** The pages `get(pred, page=i, page_size=k)` for `i` from 1 to the last
      page are the pages `PagesUpTo` joins, and joined they give the unpaged
      `get(pred)`. */
  lemma GetPagesCover<T>(rows: seq<T>, pred: Option<T -> bool>, k: nat)
    requires k >= 1
    ensures var all := Get(rows, pred, None, None).value;
            && (forall i :: 1 <= i <= PageCount(|all|, k) ==>
                  Get(rows, pred, Some(i), Some(k)) == Paginate(all, Some(i), Some(k)))
            && PagesUpTo(all, k, PageCount(|all|, k)) == all
  {
    var all := Get(rows, pred, None, None).value;
    forall i | 1 <= i <= PageCount(|all|, k)
      ensures Get(rows, pred, Some(i), Some(k)) == Paginate(all, Some(i), Some(k))
    {
      QueriesArePaged(rows, pred, Some(i), Some(k));
    }
    PagesCover(all, k);
  }

  // ---------------------------------------------------------------------------
  // Properties of keys and writes

  /** The recursive uniqueness check says the same as "distinct positions, distinct keys". */
  lemma {:induction false} UniqueKeysDistinct<V(!new), T>(rows: seq<T>, keyOf: T -> Identity<V>)
    ensures UniqueKeys(rows, keyOf) <==>
              forall i, j :: 0 <= i < j < |rows| ==> keyOf(rows[i]) != keyOf(rows[j])
  {
    if rows != [] {
      var tail := rows[1..];
      UniqueKeysDistinct(tail, keyOf);
      if UniqueKeys(rows, keyOf) {
        forall i, j | 0 <= i < j < |rows|
          ensures keyOf(rows[i]) != keyOf(rows[j])
        {
          assert rows[j] == tail[j - 1];
          if i > 0 {
            assert rows[i] == tail[i - 1];
          } else {
            assert rows[j] in tail;
          }
        }
      }
      if forall i, j :: 0 <= i < j < |rows| ==> keyOf(rows[i]) != keyOf(rows[j]) {
        forall x | x in tail
          ensures keyOf(x) != keyOf(rows[0])
        {
          var j :| 0 <= j < |tail| && tail[j] == x;
          assert rows[j + 1] == x;
        }
        forall i, j | 0 <= i < j < |tail|
          ensures keyOf(tail[i]) != keyOf(tail[j])
        {
          assert tail[i] == rows[i + 1] && tail[j] == rows[j + 1];
        }
      }
    }
  }

  /** With unique keys, the lookup of a stored row's key finds that very row. */
  lemma {:induction false} FindStored<V(!new), T>(rows: seq<T>, keyOf: T -> Identity<V>, x: T)
    requires UniqueKeys(rows, keyOf) && x in rows
    ensures FindByKey(rows, keyOf, keyOf(x)) == Some(x)
  {
    if rows[0] != x {
      assert x in rows[1..];
      FindStored(rows[1..], keyOf, x);
    }
  }

  /** A lookup in `a + b` looks in `a` first, then in `b`. */
  lemma {:induction false} FindInConcat<V(!new), T>(a: seq<T>, b: seq<T>, keyOf: T -> Identity<V>, id: Identity<V>)
    ensures FindByKey(a + b, keyOf, id) ==
              if FindByKey(a, keyOf, id).Some? then FindByKey(a, keyOf, id) else FindByKey(b, keyOf, id)
  {
    if a != [] {
      assert (a + b)[0] == a[0] && (a + b)[1..] == a[1..] + b;
      FindInConcat(a[1..], b, keyOf, id);
    } else {
      assert a + b == b;
    }
  }

  /** Appending rows with fresh, distinct keys keeps the keys unique. */
  lemma {:induction false} AppendUnique<V(!new), T>(rows: seq<T>, keyOf: T -> Identity<V>, entities: seq<T>)
    requires UniqueKeys(rows, keyOf) && Insertable(rows, keyOf, entities)
    ensures UniqueKeys(rows + entities, keyOf)
  {
    if rows == [] {
      assert rows + entities == entities;
    } else {
      var tail := rows[1..];
      assert (rows + entities)[1..] == tail + entities;
      forall i | 0 <= i < |entities|
        ensures FindByKey(tail, keyOf, keyOf(entities[i])).None?
      {
        assert forall x :: x in tail ==> x in rows;
      }
      AppendUnique(tail, keyOf, entities);
      FindInConcat(tail, entities, keyOf, keyOf(rows[0]));
      forall x | x in entities
        ensures keyOf(x) != keyOf(rows[0])
      {
        var i :| 0 <= i < |entities| && entities[i] == x;
        assert rows[0] in rows;
      }
    }
  }

  /** Overwriting or appending by key keeps the keys unique. */
  lemma {:induction false} UpsertUnique<V(!new), T>(rows: seq<T>, keyOf: T -> Identity<V>, e: T)
    requires UniqueKeys(rows, keyOf)
    ensures UniqueKeys(Upsert(rows, keyOf, e), keyOf)
  {
    if rows != [] {
      var tail := rows[1..];
      if keyOf(rows[0]) == keyOf(e) {
        assert ([e] + tail)[1..] == tail;
      } else {
        UpsertUnique(tail, keyOf, e);
        assert ([rows[0]] + Upsert(tail, keyOf, e))[1..] == Upsert(tail, keyOf, e);
      }
    }
  }

  /** Deleting by key keeps the keys unique, and removes exactly one row when
      the key was stored and none otherwise. */
  lemma {:induction false} RemoveKeyUnique<V(!new), T>(rows: seq<T>, keyOf: T -> Identity<V>, id: Identity<V>)
    requires UniqueKeys(rows, keyOf)
    ensures UniqueKeys(RemoveKey(rows, keyOf, id), keyOf)
    ensures |RemoveKey(rows, keyOf, id)| == |rows| - if FindByKey(rows, keyOf, id).Some? then 1 else 0
  {
    if rows != [] {
      var tail := rows[1..];
      RemoveKeyUnique(tail, keyOf, id);
      if keyOf(rows[0]) != id {
        assert ([rows[0]] + RemoveKey(tail, keyOf, id))[1..] == RemoveKey(tail, keyOf, id);
      }
    }
  }

  /** Filtering rows out keeps the keys unique. */
  lemma {:induction false} FilterUnique<V(!new), T>(rows: seq<T>, keyOf: T -> Identity<V>, p: T -> bool)
    requires UniqueKeys(rows, keyOf)
    ensures UniqueKeys(Filter(rows, p), keyOf)
  {
    if rows != [] {
      var tail := rows[1..];
      FilterUnique(tail, keyOf, p);
      if p(rows[0]) {
        assert ([rows[0]] + Filter(tail, p))[1..] == Filter(tail, p);
      }
    }
  }

  /** An added row is found by its key, and the table grows by one. */
  lemma AddedIsFound<V(!new), T>(rows: seq<T>, keyOf: T -> Identity<V>, e: T)
    requires FindByKey(rows, keyOf, keyOf(e)).None?
    ensures FindByKey(rows + [e], keyOf, keyOf(e)) == Some(e)
    ensures Count(rows + [e], None) == Count(rows, None) + 1
  {
    FindInConcat(rows, [e], keyOf, keyOf(e));
  }

  /** One table of the store: its rows in table order and the function that
      reads an entity's primary key. Every write is one atomic commit. */
  class Table<V(==,!new), T(!new)> {
    var rows: seq<T>
    const keyOf: T -> Identity<V>

    /** The primary-key constraint. */
    ghost predicate Valid()
      reads this
    {
      UniqueKeys(rows, keyOf)
    }

    constructor (keyOf: T -> Identity<V>)
      ensures Valid() && rows == [] && this.keyOf == keyOf
    {
      this.keyOf := keyOf;
      rows := [];
    }

    /** `add`: `session.add` then `commit`. An entity whose key is already
        stored fails the commit with an integrity error and nothing changes. */
    method Add(entity: T) returns (r: Outcome)
      requires Valid()
      modifies this
      ensures Valid()
      ensures r.Done? <==> FindByKey(old(rows), keyOf, keyOf(entity)).None?
      ensures r.Failed? ==> r.error == IntegrityError && rows == old(rows)
      ensures r.Done? ==> rows == old(rows) + [entity]
      ensures r.Done? ==> FindByKey(rows, keyOf, keyOf(entity)) == Some(entity)
    {
      if FindByKey(rows, keyOf, keyOf(entity)).Some? {
        return Failed(IntegrityError);
      }
      AppendUnique(rows, keyOf, [entity]);
      AddedIsFound(rows, keyOf, entity);
      rows := rows + [entity];
      r := Done;
    }

    /** `bulk_add`: all entities in one commit, or none of them when a key
        collides with a stored row or with another entity of the batch. */
    method BulkAdd(entities: seq<T>) returns (r: Outcome)
      requires Valid()
      modifies this
      ensures Valid()
      ensures r.Done? <==> Insertable(old(rows), keyOf, entities)
      ensures r.Failed? ==> r.error == IntegrityError && rows == old(rows)
      ensures r.Done? ==> rows == old(rows) + entities
    {
      if !Insertable(rows, keyOf, entities) {
        return Failed(IntegrityError);
      }
      AppendUnique(rows, keyOf, entities);
      rows := rows + entities;
      r := Done;
    }

    /** `update`: `session.merge` then `commit`, an upsert by primary key. */
    method Update(entity: T)
      requires Valid()
      modifies this
      ensures Valid()
      ensures rows == Upsert(old(rows), keyOf, entity)
      ensures FindByKey(rows, keyOf, keyOf(entity)) == Some(entity)
      ensures forall id :: id != keyOf(entity) ==> FindByKey(rows, keyOf, id) == FindByKey(old(rows), keyOf, id)
    {
      UpsertUnique(rows, keyOf, entity);
      rows := Upsert(rows, keyOf, entity);
    }

    /** `delete`: `session.delete(session.merge(entity))` then `commit`. When no
        row has the entity's key, the merged copy is only pending and
        `session.delete` raises; nothing changes. */
    method Delete(entity: T) returns (r: Outcome)
      requires Valid()
      modifies this
      ensures Valid()
      ensures r.Done? <==> FindByKey(old(rows), keyOf, keyOf(entity)).Some?
      ensures r.Failed? ==> r.error == InvalidRequestError && rows == old(rows)
      ensures r.Done? ==> rows == RemoveKey(old(rows), keyOf, keyOf(entity)) && |rows| == old(|rows|) - 1
      ensures FindByKey(rows, keyOf, keyOf(entity)).None?
      ensures forall id :: id != keyOf(entity) ==> FindByKey(rows, keyOf, id) == FindByKey(old(rows), keyOf, id)
    {
      if FindByKey(rows, keyOf, keyOf(entity)).None? {
        return Failed(InvalidRequestError);
      }
      RemoveKeyUnique(rows, keyOf, keyOf(entity));
      rows := RemoveKey(rows, keyOf, keyOf(entity));
      r := Done;
    }
  }
}
