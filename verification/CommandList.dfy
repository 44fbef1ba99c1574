/** The dashboard's command list: newest first, paged by a cursor while commands keep changing. */
module CommandList {
  import opened Common
  import opened CommandLifecycle
  import opened CommandStatus
  import K = Keyset
  import T = CommandTable

  datatype Key = Key(at: T.Time, id: T.CommandId)

  predicate Newer(a: Key, b: Key) { a.at > b.at || (a.at == b.at && a.id > b.id) }

  function Self(k: Key): Key { k }

  /** The caller's hosts, and the optional filters. */
  datatype Query = Query(visible: set<T.HostId>, status: Option<Status>, host: Option<T.HostId>)

  predicate Admits(q: Query, row: T.Row) {
    && row.host in q.visible
    && (q.status.Some? ==> Selects(q.status.value, row))
    && (q.host.Some? ==> row.host == q.host.value)
  }

  predicate Listed(db: T.Db, q: Query, k: Key) {
    k.id in db.rows && db.rows[k.id].issuedAt == k.at && Admits(q, db.rows[k.id])
  }

  /** `table` holds the keys of the commands the query matches, in any order. */
  ghost predicate Lists(table: seq<Key>, db: T.Db, q: Query) {
    && K.DistinctKeys(table, Self)
    && forall k: Key :: k in table <==> Listed(db, q, k)
  }

  lemma NewerIsStrictTotal()
    ensures K.StrictTotalOrder(Newer)
  {
  }

  /** Pages `i` and later are taken at moments of one run, in order. */
  ghost predicate Snapshots(db: T.Db, ops: seq<T.Op>, at: seq<nat>, tables: seq<seq<Key>>, q: Query) {
    && T.Start(db) && |at| == |tables|
    && (forall i :: 0 <= i < |at| ==> at[i] <= |ops| && Lists(tables[i], T.At(db, ops, at[i]), q))
    && (forall i, j :: 0 <= i < j < |at| ==> at[i] <= at[j])
  }

  /** A command never changes its place in the list. */
  lemma SameKey(db: T.Db, ops: seq<T.Op>, at: seq<nat>, tables: seq<seq<Key>>, q: Query, i: nat, j: nat, a: Key, b: Key)
    requires Snapshots(db, ops, at, tables, q) && i < |tables| && j < |tables|
    requires a in tables[i] && b in tables[j] && a.id == b.id
    ensures a == b
  {
    if i > j {
      SameKey(db, ops, at, tables, q, j, i, b, a);
    } else if i < j {
      RunKeepsInv(db, ops, at[i]);
      OnlyForward(db, ops, at[i], at[j], a.id);
    }
  }

  /**
   While commands are issued, decided, completed and deleted between requests, no command is listed twice, and a
   command that matched at each request is listed once the walk ends.
   */
  lemma ListingUnderChange(db: T.Db, ops: seq<T.Op>, at: seq<nat>, tables: seq<seq<Key>>, q: Query, limit: nat, k: Key)
    requires Snapshots(db, ops, at, tables, q) && limit >= 1
    ensures
      var walk := K.Follow(tables, None, limit, Self, Newer);
      && (forall i, j :: 0 <= i < j < |walk.rows| ==> walk.rows[i].id != walk.rows[j].id)
      && (walk.finished && (forall i :: 0 <= i < |at| ==> Listed(T.At(db, ops, at[i]), q, k)) ==> k in walk.rows)
  {
    NewerIsStrictTotal();
    K.FollowAscends(tables, None, limit, Self, Newer);
    var walk := K.Follow(tables, None, limit, Self, Newer);
    forall i, j | 0 <= i < j < |walk.rows| ensures walk.rows[i].id != walk.rows[j].id {
      assert Newer(Self(walk.rows[i]), Self(walk.rows[j]));
      assert K.InSome(tables, walk.rows[i]) && K.InSome(tables, walk.rows[j]);
      var a :| 0 <= a < |tables| && walk.rows[i] in tables[a];
      var b :| 0 <= b < |tables| && walk.rows[j] in tables[b];
      if walk.rows[i].id == walk.rows[j].id {
        SameKey(db, ops, at, tables, q, a, b, walk.rows[i], walk.rows[j]);
      }
    }
    if walk.finished && forall i :: 0 <= i < |at| ==> Listed(T.At(db, ops, at[i]), q, k) {
      assert K.AlwaysThere(tables, k);
      K.FollowMissesNothing(tables, None, limit, Self, Newer, k);
    }
  }

  /** Over an unchanging table the walk ends, and lists exactly the matching commands, newest first. */
  lemma ListingIsOrdered(db: T.Db, table: seq<Key>, q: Query, limit: nat, n: nat)
    requires Lists(table, db, q) && limit >= 1 && n > |table|
    ensures
      var walk := K.Follow(K.Repeat(table, n), None, limit, Self, Newer);
      && walk.finished
      && (forall i, j :: 0 <= i < j < |walk.rows| ==>
            var a, b := walk.rows[i], walk.rows[j];
            a.at > b.at || (a.at == b.at && a.id > b.id))
      && (forall k: Key :: k in walk.rows <==>
            && k.id in db.rows && db.rows[k.id].issuedAt == k.at
            && db.rows[k.id].host in q.visible
            && (q.host.Some? ==> db.rows[k.id].host == q.host.value)
            && (q.status.Some? ==> Selects(q.status.value, db.rows[k.id])))
  {
    NewerIsStrictTotal();
    K.FollowEnds(table, n, None, limit, Self, Newer);
    K.FollowIsOrderBy(table, n, limit, Self, Newer);
    K.OrderByAscending(table, Self, Newer);
    K.OrderByKeepsRows(table, Self, Newer);
    var rows := K.OrderBy(table, Self, Newer);
    forall k: Key ensures k in rows <==> k in table {
      assert k in rows <==> k in multiset(rows);
      assert k in table <==> k in multiset(table);
    }
  }
}
