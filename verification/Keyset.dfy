/**
 Keyset pagination: order by a key, take `limit + 1` rows strictly past the cursor, return `limit` of
 them and the last key as the next cursor. Generic in the row, the key and the order.
 */
module Keyset {
  import opened Common

  ghost predicate StrictTotalOrder<K(!new)>(less: (K, K) -> bool) {
    && (forall a :: !less(a, a))
    && (forall a, b, c :: less(a, b) && less(b, c) ==> less(a, c))
    && (forall a, b :: a != b ==> less(a, b) || less(b, a))
  }

  predicate DistinctKeys<R, K(==)>(rows: seq<R>, key: R -> K) {
    forall i, j :: 0 <= i < j < |rows| ==> key(rows[i]) != key(rows[j])
  }

  /** Strictly ascending, so no key occurs twice. */
  predicate Ascending<R, K>(rows: seq<R>, key: R -> K, less: (K, K) -> bool) {
    forall i, j :: 0 <= i < j < |rows| ==> less(key(rows[i]), key(rows[j]))
  }

  // ---- ORDER BY ------------------------------------------------------------------------------

  function Insert<R, K>(sorted: seq<R>, row: R, key: R -> K, less: (K, K) -> bool): (r: seq<R>)
    ensures |r| == |sorted| + 1
  {
    if sorted == [] then [row]
    else if less(key(row), key(sorted[0])) then [row] + sorted
    else [sorted[0]] + Insert(sorted[1..], row, key, less)
  }

  function OrderBy<R, K>(rows: seq<R>, key: R -> K, less: (K, K) -> bool): (r: seq<R>)
    ensures |r| == |rows|
  {
    if rows == [] then []
    else Insert(OrderBy(rows[..|rows| - 1], key, less), rows[|rows| - 1], key, less)
  }

  lemma {:induction false} InsertCounts<R, K>(sorted: seq<R>, row: R, key: R -> K, less: (K, K) -> bool)
    ensures multiset(Insert(sorted, row, key, less)) == multiset(sorted) + multiset{row}
  {
    if sorted == [] {
    } else if less(key(row), key(sorted[0])) {
    } else {
      InsertCounts(sorted[1..], row, key, less);
      assert sorted == [sorted[0]] + sorted[1..];
    }
  }

  lemma InsertKeepsRows<R, K>(sorted: seq<R>, row: R, key: R -> K, less: (K, K) -> bool)
    ensures multiset(Insert(sorted, row, key, less)) == multiset(sorted) + multiset{row}
    ensures forall r :: r in Insert(sorted, row, key, less) <==> r in sorted || r == row
    ensures var out := Insert(sorted, row, key, less);
            forall i :: 0 <= i < |out| ==> out[i] == row || out[i] in sorted
  {
    var out := Insert(sorted, row, key, less);
    InsertCounts(sorted, row, key, less);
    forall r ensures r in out <==> r in sorted || r == row {
      assert r in out <==> r in multiset(out);
    }
    forall i | 0 <= i < |out| ensures out[i] == row || out[i] in sorted {
      assert out[i] in multiset(out);
    }
  }

  lemma {:induction false} OrderByCounts<R, K>(rows: seq<R>, key: R -> K, less: (K, K) -> bool)
    ensures multiset(OrderBy(rows, key, less)) == multiset(rows)
  {
    if rows != [] {
      var init := rows[..|rows| - 1];
      OrderByCounts(init, key, less);
      InsertCounts(OrderBy(init, key, less), rows[|rows| - 1], key, less);
      assert rows == init + [rows[|rows| - 1]];
    }
  }

  lemma SameRows<R>(a: seq<R>, b: seq<R>)
    requires multiset(a) == multiset(b)
    ensures forall r :: r in a <==> r in b
    ensures forall i :: 0 <= i < |a| ==> a[i] in b
  {
    forall r ensures r in a <==> r in b { assert r in a <==> r in multiset(a); }
  }

  /** Ordering neither loses nor repeats rows. */
  lemma OrderByKeepsRows<R, K>(rows: seq<R>, key: R -> K, less: (K, K) -> bool)
    ensures multiset(OrderBy(rows, key, less)) == multiset(rows)
    ensures forall r :: r in OrderBy(rows, key, less) <==> r in rows
    ensures var out := OrderBy(rows, key, less); forall i :: 0 <= i < |out| ==> out[i] in rows
  {
    OrderByCounts(rows, key, less);
    SameRows(OrderBy(rows, key, less), rows);
  }

  lemma {:induction false} InsertAscending<R, K(!new)>(sorted: seq<R>, row: R, key: R -> K, less: (K, K) -> bool)
    requires StrictTotalOrder(less) && Ascending(sorted, key, less)
    requires forall i :: 0 <= i < |sorted| ==> key(sorted[i]) != key(row)
    ensures Ascending(Insert(sorted, row, key, less), key, less)
  {
    if sorted == [] {
    } else if less(key(row), key(sorted[0])) {
    } else {
      var rest := Insert(sorted[1..], row, key, less);
      InsertAscending(sorted[1..], row, key, less);
      InsertKeepsRows(sorted[1..], row, key, less);
      forall j | 0 <= j < |rest| ensures less(key(sorted[0]), key(rest[j])) {
        assert rest[j] == row || rest[j] in sorted[1..];
      }
    }
  }

  lemma {:induction false} OrderByAscending<R, K(!new)>(rows: seq<R>, key: R -> K, less: (K, K) -> bool)
    requires StrictTotalOrder(less) && DistinctKeys(rows, key)
    ensures Ascending(OrderBy(rows, key, less), key, less)
  {
    if rows != [] {
      var init := rows[..|rows| - 1];
      var sorted := OrderBy(init, key, less);
      OrderByAscending(init, key, less);
      OrderByKeepsRows(init, key, less);
      forall i | 0 <= i < |sorted| ensures key(sorted[i]) != key(rows[|rows| - 1]) {
        assert sorted[i] in init;
      }
      InsertAscending(sorted, rows[|rows| - 1], key, less);
    }
  }

  lemma NotEmpty<R>(x: R, s: seq<R>)
    requires x in s
    ensures |s| > 0
  {
  }

  lemma SameFirst<R, K(!new)>(a: seq<R>, b: seq<R>, key: R -> K, less: (K, K) -> bool)
    requires StrictTotalOrder(less) && Ascending(a, key, less) && Ascending(b, key, less)
    requires a != [] && b != [] && a[0] in b && b[0] in a
    ensures a[0] == b[0]
  {
    assert forall k :: 0 < k < |a| ==> less(key(a[0]), key(a[k]));
    assert forall k :: 0 < k < |b| ==> less(key(b[0]), key(b[k]));
    var i :| 0 <= i < |b| && b[i] == a[0];
    var j :| 0 <= j < |a| && a[j] == b[0];
  }

  lemma TailWithin<R, K(!new)>(a: seq<R>, b: seq<R>, key: R -> K, less: (K, K) -> bool)
    requires StrictTotalOrder(less) && Ascending(a, key, less)
    requires a != [] && b != [] && a[0] == b[0]
    requires forall i :: 0 <= i < |a| ==> a[i] in b
    ensures forall k :: 0 <= k < |a[1..]| ==> a[1..][k] in b[1..]
  {
    forall k | 0 <= k < |a[1..]| ensures a[1..][k] in b[1..] {
      var m :| 0 <= m < |b| && b[m] == a[k + 1];
      assert less(key(a[0]), key(a[k + 1]));
      assert b[1..][m - 1] == a[1..][k];
    }
  }

  /** A strictly ascending sequence is determined by its members. */
  lemma {:induction false} AscendingUnique<R, K(!new)>(a: seq<R>, b: seq<R>, key: R -> K, less: (K, K) -> bool)
    requires StrictTotalOrder(less) && Ascending(a, key, less) && Ascending(b, key, less)
    requires forall i :: 0 <= i < |a| ==> a[i] in b
    requires forall i :: 0 <= i < |b| ==> b[i] in a
    ensures a == b
  {
    if |a| > 0 { NotEmpty(a[0], b); }
    if |b| > 0 { NotEmpty(b[0], a); }
    if |a| > 0 {
      SameFirst(a, b, key, less);
      TailWithin(a, b, key, less);
      TailWithin(b, a, key, less);
      AscendingUnique(a[1..], b[1..], key, less);
    }
  }

  // ---- Pages ---------------------------------------------------------------------------------

  predicate IsPast<K>(cursor: Option<K>, k: K, less: (K, K) -> bool) {
    cursor.Some? ==> less(cursor.value, k)
  }

  /** The cursor's WHERE clause. */
  function Past<R, K>(rows: seq<R>, cursor: Option<K>, key: R -> K, less: (K, K) -> bool): (r: seq<R>)
    ensures |r| <= |rows|
  {
    if rows == [] then []
    else
      var rest := Past(rows[..|rows| - 1], cursor, key, less);
      var last := rows[|rows| - 1];
      if IsPast(cursor, key(last), less) then rest + [last] else rest
  }

  lemma {:induction false} PastHas<R, K>(rows: seq<R>, cursor: Option<K>, key: R -> K, less: (K, K) -> bool, r: R)
    ensures r in Past(rows, cursor, key, less) <==> r in rows && IsPast(cursor, key(r), less)
  {
    if rows != [] {
      var n := |rows| - 1;
      PastHas(rows[..n], cursor, key, less, r);
      assert r in rows <==> r in rows[..n] || r == rows[n];
    }
  }

  lemma {:induction false} PastKeepsDistinct<R, K>(rows: seq<R>, cursor: Option<K>, key: R -> K, less: (K, K) -> bool)
    requires DistinctKeys(rows, key)
    ensures DistinctKeys(Past(rows, cursor, key, less), key)
  {
    if rows != [] {
      var n := |rows| - 1;
      PastKeepsDistinct(rows[..n], cursor, key, less);
      var rest := Past(rows[..n], cursor, key, less);
      forall i | 0 <= i < |rest| ensures key(rest[i]) != key(rows[n]) {
        PastHas(rows[..n], cursor, key, less, rest[i]);
        var j :| 0 <= j < n && rows[j] == rest[i];
      }
    }
  }

  lemma PastMembers<R, K>(rows: seq<R>, cursor: Option<K>, key: R -> K, less: (K, K) -> bool)
    ensures forall r :: r in Past(rows, cursor, key, less) <==> r in rows && IsPast(cursor, key(r), less)
    ensures PastOf(Past(rows, cursor, key, less), rows, cursor, key, less)
    ensures DistinctKeys(rows, key) ==> DistinctKeys(Past(rows, cursor, key, less), key)
  {
    forall r ensures r in Past(rows, cursor, key, less) <==> r in rows && IsPast(cursor, key(r), less) {
      PastHas(rows, cursor, key, less, r);
    }
    if DistinctKeys(rows, key) { PastKeepsDistinct(rows, cursor, key, less); }
  }

  /** Nothing is dropped exactly when every row is past the cursor. */
  lemma {:induction false} PastAll<R, K>(rows: seq<R>, cursor: Option<K>, key: R -> K, less: (K, K) -> bool)
    ensures |Past(rows, cursor, key, less)| == |rows| <==>
              forall i :: 0 <= i < |rows| ==> IsPast(cursor, key(rows[i]), less)
  {
    if rows != [] {
      var n := |rows| - 1;
      PastAll(rows[..n], cursor, key, less);
      assert forall i :: 0 <= i < n ==> rows[..n][i] == rows[i];
    }
  }

  ghost predicate PastOf<R, K>(out: seq<R>, rows: seq<R>, cursor: Option<K>, key: R -> K, less: (K, K) -> bool) {
    forall i :: 0 <= i < |out| ==> out[i] in rows && IsPast(cursor, key(out[i]), less)
  }

  datatype PageResult<R, K> = PageResult(rows: seq<R>, next: Option<K>)

  /** One request: `limit + 1` rows are fetched to know whether another page follows. */
  function Page<R, K>(table: seq<R>, cursor: Option<K>, limit: nat, key: R -> K, less: (K, K) -> bool): PageResult<R, K> {
    var ordered := OrderBy(Past(table, cursor, key, less), key, less);
    var fetched := ordered[..Min(limit + 1, |ordered|)];
    var hasMore := |fetched| > limit;
    var rows := fetched[..Min(limit, |fetched|)];
    PageResult(rows, if hasMore && rows != [] then Some(key(rows[|rows| - 1])) else None)
  }

  lemma OrderedPast<R, K(!new)>(table: seq<R>, cursor: Option<K>, key: R -> K, less: (K, K) -> bool)
    requires StrictTotalOrder(less) && DistinctKeys(table, key)
    ensures
      var ordered := OrderBy(Past(table, cursor, key, less), key, less);
      && Ascending(ordered, key, less)
      && PastOf(ordered, table, cursor, key, less)
      && forall r :: r in table && IsPast(cursor, key(r), less) ==> r in ordered
  {
    var past := Past(table, cursor, key, less);
    PastMembers(table, cursor, key, less);
    OrderByAscending(past, key, less);
    OrderByKeepsRows(past, key, less);
    var ordered := OrderBy(past, key, less);
    forall i | 0 <= i < |ordered| ensures ordered[i] in table && IsPast(cursor, key(ordered[i]), less) {
      var j :| 0 <= j < |past| && past[j] == ordered[i];
    }
  }

  lemma CutAscending<R, K(!new)>(ordered: seq<R>, n: nat, key: R -> K, less: (K, K) -> bool)
    requires StrictTotalOrder(less) && Ascending(ordered, key, less) && 1 <= n < |ordered|
    ensures Ascending(ordered[..n], key, less)
    ensures forall i :: 0 <= i < n ==> ordered[i] in ordered
    ensures forall r :: r in ordered && r !in ordered[..n] ==> less(key(ordered[n - 1]), key(r))
  {
    forall r | r in ordered && r !in ordered[..n] ensures less(key(ordered[n - 1]), key(r)) {
      var i :| 0 <= i < |ordered| && ordered[i] == r;
      assert forall j :: 0 <= j < n ==> ordered[j] in ordered[..n];
    }
  }

  /** What one page is: an ascending prefix of what is left, and a cursor exactly when something remains. */
  lemma PageIsPrefix<R, K(!new)>(table: seq<R>, cursor: Option<K>, limit: nat, key: R -> K, less: (K, K) -> bool)
    requires StrictTotalOrder(less) && DistinctKeys(table, key) && limit >= 1
    ensures
      var page := Page(table, cursor, limit, key, less);
      && Ascending(page.rows, key, less)
      && PastOf(page.rows, table, cursor, key, less)
      && (forall r :: r in table && IsPast(cursor, key(r), less) && r !in page.rows ==>
            page.next.Some? && less(page.next.value, key(r)))
      && (page.next.Some? ==>
            page.rows != [] && page.next.value == key(page.rows[|page.rows| - 1]) && IsPast(cursor, page.next.value, less))
  {
    OrderedPast(table, cursor, key, less);
    var ordered := OrderBy(Past(table, cursor, key, less), key, less);
    var page := Page(table, cursor, limit, key, less);
    PageCuts(table, cursor, limit, key, less);
    if |ordered| > limit {
      CutAscending(ordered, limit, key, less);
      assert ordered[limit - 1] in ordered;
    }
  }

  lemma PageCuts<R, K>(table: seq<R>, cursor: Option<K>, limit: nat, key: R -> K, less: (K, K) -> bool)
    requires limit >= 1
    ensures
      var ordered := OrderBy(Past(table, cursor, key, less), key, less);
      Page(table, cursor, limit, key, less)
      == if |ordered| > limit then PageResult(ordered[..limit], Some(key(ordered[limit - 1])))
         else PageResult(ordered, None)
  {
  }

  // ---- Following the cursor while the table changes ------------------------------------------

  datatype Walk<R> = Walk(rows: seq<R>, finished: bool)

  /** The pages a client collects when the table is `tables[i]` at its i-th request. */
  function Follow<R, K>(tables: seq<seq<R>>, cursor: Option<K>, limit: nat, key: R -> K, less: (K, K) -> bool): Walk<R> {
    if tables == [] then Walk([], false)
    else
      var page := Page(tables[0], cursor, limit, key, less);
      if page.next.None? then Walk(page.rows, true)
      else
        var rest := Follow(tables[1..], page.next, limit, key, less);
        Walk(page.rows + rest.rows, rest.finished)
  }

  ghost predicate AlwaysThere<R>(tables: seq<seq<R>>, row: R) {
    forall i :: 0 <= i < |tables| ==> row in tables[i]
  }

  ghost predicate InSome<R>(tables: seq<seq<R>>, row: R) {
    exists i :: 0 <= i < |tables| && row in tables[i]
  }

  ghost predicate Sound<R, K>(rows: seq<R>, tables: seq<seq<R>>, cursor: Option<K>, key: R -> K, less: (K, K) -> bool) {
    forall i :: 0 <= i < |rows| ==> IsPast(cursor, key(rows[i]), less) && InSome(tables, rows[i])
  }

  /** What later tables gave past a page is past the cursor that page was past. */
  lemma SoundLater<R, K(!new)>(
    rest: seq<R>, tables: seq<seq<R>>, cursor: Option<K>, next: K, key: R -> K, less: (K, K) -> bool)
    requires StrictTotalOrder(less) && tables != [] && IsPast(cursor, next, less)
    requires Sound(rest, tables[1..], Some(next), key, less)
    ensures Sound(rest, tables, cursor, key, less)
  {
    forall i | 0 <= i < |rest| ensures InSome(tables, rest[i]) && IsPast(cursor, key(rest[i]), less) {
      var t :| 0 <= t < |tables[1..]| && rest[i] in tables[1..][t];
      assert rest[i] in tables[t + 1];
    }
  }

  lemma SoundPage<R, K>(rows: seq<R>, tables: seq<seq<R>>, cursor: Option<K>, key: R -> K, less: (K, K) -> bool)
    requires tables != [] && PastOf(rows, tables[0], cursor, key, less)
    ensures Sound(rows, tables, cursor, key, less)
  {
    forall i | 0 <= i < |rows| ensures InSome(tables, rows[i]) { assert rows[i] in tables[0]; }
  }

  /**
   Whatever is inserted or removed between requests, the collected rows are strictly ascending, so no
   key is ever returned twice, and each was there when its page was taken.
   */
  lemma {:induction false} FollowAscends<R, K(!new)>(
    tables: seq<seq<R>>, cursor: Option<K>, limit: nat, key: R -> K, less: (K, K) -> bool)
    requires StrictTotalOrder(less) && limit >= 1
    requires forall i :: 0 <= i < |tables| ==> DistinctKeys(tables[i], key)
    ensures Ascending(Follow(tables, cursor, limit, key, less).rows, key, less)
    ensures Sound(Follow(tables, cursor, limit, key, less).rows, tables, cursor, key, less)
  {
    if tables != [] {
      var page := Page(tables[0], cursor, limit, key, less);
      PageIsPrefix(tables[0], cursor, limit, key, less);
      SoundPage(page.rows, tables, cursor, key, less);
      if page.next.Some? {
        var rest := Follow(tables[1..], page.next, limit, key, less).rows;
        FollowAscends(tables[1..], page.next, limit, key, less);
        SoundLater(rest, tables, cursor, page.next.value, key, less);
        Joins(page.rows, rest, page.next.value, key, less);
      }
    }
  }

  /** When the walk ends, every row that was there throughout has been returned. */
  lemma {:induction false} FollowMissesNothing<R, K(!new)>(
    tables: seq<seq<R>>, cursor: Option<K>, limit: nat, key: R -> K, less: (K, K) -> bool, row: R)
    requires StrictTotalOrder(less) && limit >= 1
    requires forall i :: 0 <= i < |tables| ==> DistinctKeys(tables[i], key)
    requires Follow(tables, cursor, limit, key, less).finished
    requires AlwaysThere(tables, row) && IsPast(cursor, key(row), less)
    ensures row in Follow(tables, cursor, limit, key, less).rows
  {
    var page := Page(tables[0], cursor, limit, key, less);
    PageIsPrefix(tables[0], cursor, limit, key, less);
    assert row in tables[0];
    if row !in page.rows {
      FollowMissesNothing(tables[1..], page.next, limit, key, less, row);
    }
  }

  lemma Joins<R, K(!new)>(a: seq<R>, b: seq<R>, last: K, key: R -> K, less: (K, K) -> bool)
    requires StrictTotalOrder(less) && Ascending(a, key, less) && Ascending(b, key, less)
    requires a != [] && last == key(a[|a| - 1])
    requires forall i :: 0 <= i < |b| ==> IsPast(Some(last), key(b[i]), less)
    ensures Ascending(a + b, key, less)
  {
    forall i, j | 0 <= i < j < |a + b| ensures less(key((a + b)[i]), key((a + b)[j])) {
      if j >= |a| {
        assert less(last, key(b[j - |a|]));
      }
    }
  }

  /** Requests left before the walk over an unchanging table ends. */
  lemma PastShrinks<R, K(!new)>(table: seq<R>, cursor: Option<K>, limit: nat, key: R -> K, less: (K, K) -> bool)
    requires StrictTotalOrder(less) && DistinctKeys(table, key) && limit >= 1
    requires Page(table, cursor, limit, key, less).next.Some?
    ensures
      var page := Page(table, cursor, limit, key, less);
      |Past(table, page.next, key, less)| < |Past(table, cursor, key, less)|
  {
    PageIsPrefix(table, cursor, limit, key, less);
    var page := Page(table, cursor, limit, key, less);
    var last := page.rows[|page.rows| - 1];
    assert last in page.rows;
    PastMembers(table, cursor, key, less);
    FewerPast(table, cursor, page.next, last, key, less);
  }

  lemma {:induction false} FewerPast<R, K(!new)>(
    table: seq<R>, a: Option<K>, b: Option<K>, gone: R, key: R -> K, less: (K, K) -> bool)
    requires forall r :: r in table && IsPast(b, key(r), less) ==> IsPast(a, key(r), less)
    ensures |Past(table, b, key, less)| <= |Past(table, a, key, less)|
    ensures gone in table && IsPast(a, key(gone), less) && !IsPast(b, key(gone), less) ==>
              |Past(table, b, key, less)| < |Past(table, a, key, less)|
  {
    if table != [] {
      var last := table[|table| - 1];
      assert last in table;
      FewerPast(table[..|table| - 1], a, b, gone, key, less);
      assert gone in table <==> gone in table[..|table| - 1] || gone == last;
    }
  }

  function Repeat<T>(x: T, n: nat): (r: seq<T>)
    ensures |r| == n && forall i :: 0 <= i < n ==> r[i] == x
  {
    if n == 0 then [] else [x] + Repeat(x, n - 1)
  }

  lemma RepeatTail<T>(x: T, n: nat)
    requires n > 0
    ensures Repeat(x, n) != [] && Repeat(x, n)[0] == x && Repeat(x, n)[1..] == Repeat(x, n - 1)
  {
  }

  lemma FollowNext<R, K>(tables: seq<seq<R>>, cursor: Option<K>, limit: nat, key: R -> K, less: (K, K) -> bool)
    requires tables != []
    ensures
      var page := Page(tables[0], cursor, limit, key, less);
      Follow(tables, cursor, limit, key, less).finished <==>
        page.next.None? || Follow(tables[1..], page.next, limit, key, less).finished
  {
  }

  /** Over an unchanging table the walk ends after at most one request more than there are rows left. */
  lemma {:induction false} FollowEnds<R, K(!new)>(
    table: seq<R>, n: nat, cursor: Option<K>, limit: nat, key: R -> K, less: (K, K) -> bool)
    requires StrictTotalOrder(less) && DistinctKeys(table, key) && limit >= 1
    requires n > |Past(table, cursor, key, less)|
    ensures Follow(Repeat(table, n), cursor, limit, key, less).finished
  {
    var page := Page(table, cursor, limit, key, less);
    RepeatTail(table, n);
    FollowNext(Repeat(table, n), cursor, limit, key, less);
    if page.next.Some? {
      PastShrinks(table, cursor, limit, key, less);
      FollowEnds(table, n - 1, page.next, limit, key, less);
    }
  }

  /** For every limit, the walk over an unchanging table returns exactly the ordered table, each row once. */
  lemma FollowIsOrderBy<R, K(!new)>(table: seq<R>, n: nat, limit: nat, key: R -> K, less: (K, K) -> bool)
    requires StrictTotalOrder(less) && DistinctKeys(table, key) && limit >= 1
    requires Follow(Repeat(table, n), None, limit, key, less).finished
    ensures Follow(Repeat(table, n), None, limit, key, less).rows == OrderBy(table, key, less)
  {
    var tables := Repeat(table, n);
    var walked, ordered := Follow(tables, None, limit, key, less).rows, OrderBy(table, key, less);
    OrderByAscending(table, key, less);
    OrderByKeepsRows(table, key, less);
    FollowAscends(tables, None, limit, key, less);
    forall i | 0 <= i < |ordered| ensures ordered[i] in walked {
      FollowMissesNothing(tables, None, limit, key, less, ordered[i]);
    }
    forall i | 0 <= i < |walked| ensures walked[i] in ordered {
      var t :| 0 <= t < |tables| && walked[i] in tables[t];
      var j :| 0 <= j < |table| && table[j] == walked[i];
    }
    AscendingUnique(walked, ordered, key, less);
  }

  // ---- Offset pages --------------------------------------------------------------------------

  datatype OffsetResult<R> = OffsetResult(rows: seq<R>, hasMore: bool)

  function OffsetPage<R, K>(table: seq<R>, offset: nat, limit: nat, key: R -> K, less: (K, K) -> bool): OffsetResult<R> {
    var ordered := OrderBy(table, key, less);
    var rest := ordered[Min(offset, |ordered|)..];
    var fetched := rest[..Min(limit + 1, |rest|)];
    OffsetResult(fetched[..Min(limit, |fetched|)], |fetched| > limit)
  }

  /** The rows a client collects by adding `limit` to the offset while `has_more` is set, in at most `n` requests. */
  function OffsetWalk<R, K>(table: seq<R>, offset: nat, limit: nat, n: nat, key: R -> K, less: (K, K) -> bool): Walk<R>
    decreases n
  {
    if n == 0 then Walk([], false)
    else
      var page := OffsetPage(table, offset, limit, key, less);
      if !page.hasMore then Walk(page.rows, true)
      else
        var rest := OffsetWalk(table, offset + limit, limit, n - 1, key, less);
        Walk(page.rows + rest.rows, rest.finished)
  }

  /** At most `n` elements from position `from` on. */
  function Window<R>(s: seq<R>, from: nat, n: nat): seq<R> { s[Min(from, |s|)..Min(from + n, |s|)] }

  /** Over an unchanging table that walk ends, and returns the ordered table from its first offset on. */
  lemma {:induction false} OffsetWalkIsOrderBy<R, K>(
    table: seq<R>, offset: nat, limit: nat, n: nat, key: R -> K, less: (K, K) -> bool)
    requires limit >= 1 && n > 0 && offset + n > |table|
    ensures
      var ordered := OrderBy(table, key, less);
      OffsetWalk(table, offset, limit, n, key, less) == Walk(ordered[Min(offset, |ordered|)..], true)
    decreases n
  {
    var ordered := OrderBy(table, key, less);
    OffsetPageCuts(table, offset, limit, key, less);
    OffsetHasMoreExactly(table, offset, limit, key, less);
    if OffsetPage(table, offset, limit, key, less).hasMore {
      OffsetWalkIsOrderBy(table, offset + limit, limit, n - 1, key, less);
      RestJoins(ordered, offset, limit);
    }
  }

  lemma RestJoins<R>(s: seq<R>, offset: nat, limit: nat)
    requires offset + limit <= |s|
    ensures s[offset..offset + limit] + s[offset + limit..] == s[offset..]
  {
  }

  lemma CutOfRest<R>(s: seq<R>, from: nat, m: nat, n: nat)
    requires n <= m && from + m <= |s|
    ensures s[from..][..m][..n] == s[from..from + n]
  {
  }

  lemma WindowCuts<R>(ordered: seq<R>, offset: nat, limit: nat)
    ensures
      var rest := ordered[Min(offset, |ordered|)..];
      var fetched := rest[..Min(limit + 1, |rest|)];
      fetched[..Min(limit, |fetched|)] == Window(ordered, offset, limit)
  {
    var from := Min(offset, |ordered|);
    var m := Min(limit + 1, |ordered| - from);
    CutOfRest(ordered, from, m, Min(limit, m));
    assert from + Min(limit, m) == Min(offset + limit, |ordered|);
  }

  lemma OffsetPageCuts<R, K>(table: seq<R>, offset: nat, limit: nat, key: R -> K, less: (K, K) -> bool)
    ensures OffsetPage(table, offset, limit, key, less).rows == Window(OrderBy(table, key, less), offset, limit)
  {
    WindowCuts(OrderBy(table, key, less), offset, limit);
  }

  /** `has_more` in offset mode is exactly `offset + returned < total`. */
  lemma OffsetHasMoreExactly<R, K>(table: seq<R>, offset: nat, limit: nat, key: R -> K, less: (K, K) -> bool)
    ensures
      var page := OffsetPage(table, offset, limit, key, less);
      page.hasMore <==> offset + |page.rows| < |table|
  {
  }
}
