/**
 * Reconciling the stored series with a newly scraped batch
 * (GitHubActionsDataManager.merge_dataframes): concatenate, keep the last
 * row per (Date, Timme), sort by (Date, Timme).
 */
module Merging {
  import opened Records

  /**
   * The last row of `rows` with key k: the row drop_duplicates(keep='last')
   * keeps for that key.
   */
  function LastWith(rows: seq<Row>, k: Key): (r: Row)
    requires k in KeysOf(rows)
    ensures r in rows && r.RowKey() == k
  {
    HeadOrTail(rows);
    if k in KeysOf(rows[1..]) then LastWith(rows[1..], k) else rows[0]
  }

  /** The last row with key k is followed by no other row with that key. */
  lemma {:induction false} LastWithIsLast(rows: seq<Row>, k: Key)
    requires k in KeysOf(rows)
    ensures exists i ::
      && 0 <= i < |rows| && rows[i] == LastWith(rows, k)
      && forall j :: i < j < |rows| ==> rows[j].RowKey() != k
  {
    HeadOrTail(rows);
    if k in KeysOf(rows[1..]) {
      LastWithIsLast(rows[1..], k);
      var i :|
        && 0 <= i < |rows[1..]| && rows[1..][i] == LastWith(rows[1..], k)
        && forall j :: i < j < |rows[1..]| ==> rows[1..][j].RowKey() != k;
      forall j | i + 1 < j < |rows| ensures rows[j].RowKey() != k {
        assert rows[j] == rows[1..][j - 1];
      }
      assert rows[i + 1] == LastWith(rows, k);
    } else {
      forall j | 0 < j < |rows| ensures rows[j].RowKey() != k {
        assert rows[j] in rows[1..];
      }
    }
  }

  /** The position of the last row with key k, or -1 when no row carries k. */
  function LastIndex(rows: seq<Row>, k: Key): (i: int)
    ensures -1 <= i < |rows|
    ensures 0 <= i ==> rows[i].RowKey() == k
    ensures forall j :: i < j < |rows| ==> rows[j].RowKey() != k
  {
    if rows == [] then -1
    else
      var i := LastIndex(rows[1..], k);
      assert forall j :: 0 < j < |rows| ==> rows[j] == rows[1..][j - 1];
      if 0 <= i then i + 1 else if rows[0].RowKey() == k then 0 else -1
  }

  /** A key has a last position iff some row carries it, and that position holds the row keep='last' retains. */
  lemma LastIndexIsLastWith(rows: seq<Row>, k: Key)
    ensures 0 <= LastIndex(rows, k) <==> k in KeysOf(rows)
    ensures k in KeysOf(rows) ==> rows[LastIndex(rows, k)] == LastWith(rows, k)
  {
    var i := LastIndex(rows, k);
    if 0 <= i {
      assert rows[i] in rows;
    }
    if k in KeysOf(rows) {
      LastWithIsLast(rows, k);
      var m :| && 0 <= m < |rows| && rows[m] == LastWith(rows, k)
        && forall j :: m < j < |rows| ==> rows[j].RowKey() != k;
      assert i == m;
    }
  }

  /** `a` is `b` with some elements left out, the rest kept in order. */
  predicate Subsequence(a: seq<Row>, b: seq<Row>)
    decreases |b|
  {
    if a == [] then true
    else if b == [] then false
    else (a[0] == b[0] && Subsequence(a[1..], b[1..])) || Subsequence(a, b[1..])
  }

  /**
   * drop_duplicates(subset=['Date', 'Timme'], keep='last'): the rows whose
   * key does not occur again later, in their original order.
   */
  function KeepLast(rows: seq<Row>): (r: seq<Row>)
    ensures |r| <= |rows|
    ensures Subsequence(r, rows)
    ensures UniqueKeys(r)
    ensures KeysOf(r) == KeysOf(rows)
    ensures forall x :: x in r <==> x in rows && LastWith(rows, x.RowKey()) == x
  {
    if rows == [] then []
    else
      HeadOrTail(rows);
      var rest := KeepLast(rows[1..]);
      if rows[0].RowKey() in KeysOf(rows[1..]) then rest
      else
        var r := [rows[0]] + rest;
        HeadOrTail(r);
        assert r[1..] == rest && r[0] == rows[0];
        UniqueKeysCons(r);
        r
  }

  /** `s` is in ascending order of the last positions its rows' keys have in `rows`. */
  predicate InLastOrder(s: seq<Row>, rows: seq<Row>) {
    forall i, j :: 0 <= i < j < |s| ==>
      LastIndex(rows, s[i].RowKey()) < LastIndex(rows, s[j].RowKey())
  }

  /** The tail of a sequence in last-position order is in that order, every row of it after the head. */
  lemma InLastOrderTail(s: seq<Row>, rows: seq<Row>)
    requires s != [] && InLastOrder(s, rows)
    ensures InLastOrder(s[1..], rows)
    ensures forall x :: x in s[1..] ==> LastIndex(rows, s[0].RowKey()) < LastIndex(rows, x.RowKey())
  {
    forall x | x in s[1..] ensures LastIndex(rows, s[0].RowKey()) < LastIndex(rows, x.RowKey()) {
      var i :| 0 <= i < |s[1..]| && s[1..][i] == x;
      assert s[i + 1] == x;
    }
    forall i, j | 0 <= i < j < |s[1..]|
      ensures LastIndex(rows, s[1..][i].RowKey()) < LastIndex(rows, s[1..][j].RowKey())
    {
      assert s[1..][i] == s[i + 1] && s[1..][j] == s[j + 1];
    }
  }

  /** Two sequences with the same rows are both empty or both not. */
  lemma SameRowsEmpty(s: seq<Row>, t: seq<Row>)
    requires forall x :: x in s <==> x in t
    ensures s == [] <==> t == []
  {
    if s != [] {
      assert s[0] in t;
    }
    if t != [] {
      assert t[0] in s;
    }
  }

  /** Two sequences with the same rows, both in last-position order, are equal. */
  lemma {:induction false} InLastOrderUnique(s: seq<Row>, t: seq<Row>, rows: seq<Row>)
    requires InLastOrder(s, rows) && InLastOrder(t, rows)
    requires forall x :: x in s <==> x in t
    ensures s == t
  {
    SameRowsEmpty(s, t);
    if s != [] {
      HeadOrTail(s);
      HeadOrTail(t);
      InLastOrderTail(s, rows);
      InLastOrderTail(t, rows);
      InLastOrderUnique(s[1..], t[1..], rows);
    }
  }

  /**
   * The kept rows appear in the order of the positions they are kept from:
   * the row of key k before the row of key k' exactly when k's last
   * occurrence comes before k''s. With the membership clause of KeepLast
   * this fixes the result, repeated identical rows included.
   */
  lemma {:induction false} KeepLastOrder(rows: seq<Row>)
    ensures InLastOrder(KeepLast(rows), rows)
  {
    if rows != [] {
      HeadOrTail(rows);
      var rest := KeepLast(rows[1..]);
      KeepLastOrder(rows[1..]);
      InLastOrderShift(rows, rest);
      if rows[0].RowKey() !in KeysOf(rows[1..]) {
        LastIndexIsLastWith(rows[1..], rows[0].RowKey());
        forall i | 0 <= i < |rest| ensures 0 <= LastIndex(rows[1..], rest[i].RowKey()) {
          assert rest[i] in rest;
          LastIndexIsLastWith(rows[1..], rest[i].RowKey());
        }
        InLastOrderCons(rows, rest);
      }
    }
  }

  /** A sequence in last-position order for the tail of `rows` is in that order for `rows`. */
  lemma InLastOrderShift(rows: seq<Row>, rest: seq<Row>)
    requires rows != [] && InLastOrder(rest, rows[1..])
    ensures InLastOrder(rest, rows)
  {
    forall i, j | 0 <= i < j < |rest|
      ensures LastIndex(rows, rest[i].RowKey()) < LastIndex(rows, rest[j].RowKey())
    {
      var a, b := LastIndex(rows[1..], rest[i].RowKey()), LastIndex(rows[1..], rest[j].RowKey());
      assert a < b;
    }
  }

  /** The head of `rows`, whose key does not occur again, goes before rows whose keys occur past it. */
  lemma InLastOrderCons(rows: seq<Row>, rest: seq<Row>)
    requires rows != [] && LastIndex(rows[1..], rows[0].RowKey()) < 0
    requires InLastOrder(rest, rows[1..])
    requires forall i :: 0 <= i < |rest| ==> 0 <= LastIndex(rows[1..], rest[i].RowKey())
    ensures InLastOrder([rows[0]] + rest, rows)
  {
    var r := [rows[0]] + rest;
    assert LastIndex(rows, rows[0].RowKey()) == 0;
    forall i, j | 0 <= i < j < |r|
      ensures LastIndex(rows, r[i].RowKey()) < LastIndex(rows, r[j].RowKey())
    {
      assert r[j] == rest[j - 1];
      if i > 0 {
        assert r[i] == rest[i - 1];
      }
    }
  }

  /**
   * KeepLast's contract and KeepLastOrder leave one possible result: any
   * sequence holding exactly the last row of each key, in last-position
   * order, is KeepLast(rows).
   */
  lemma KeepLastDetermined(rows: seq<Row>, s: seq<Row>)
    requires forall x :: x in s <==> x in rows && LastWith(rows, x.RowKey()) == x
    requires InLastOrder(s, rows)
    ensures s == KeepLast(rows)
  {
    KeepLastOrder(rows);
    InLastOrderUnique(s, KeepLast(rows), rows);
  }

  /** Non-decreasing in (Date, Timme). */
  predicate Sorted(rows: seq<Row>) {
    forall i, j :: 0 <= i < j < |rows| ==> !KeyLt(rows[j].RowKey(), rows[i].RowKey())
  }

  /** Strictly increasing in (Date, Timme): sorted, and no key twice. */
  predicate StrictlySorted(rows: seq<Row>) {
    forall i, j :: 0 <= i < j < |rows| ==> KeyLt(rows[i].RowKey(), rows[j].RowKey())
  }

  /** Places x before the first row whose key is not below x's. */
  function Insert(x: Row, rows: seq<Row>): (r: seq<Row>)
    ensures multiset(r) == multiset(rows) + multiset{x}
  {
    if rows == [] || !KeyLt(rows[0].RowKey(), x.RowKey()) then [x] + rows
    else
      assert rows == [rows[0]] + rows[1..];
      [rows[0]] + Insert(x, rows[1..])
  }

  /** The rows of Insert(x, rows) are x and the rows of rows. */
  lemma InsertMembers(x: Row, rows: seq<Row>)
    ensures forall y :: y in Insert(x, rows) <==> y == x || y in rows
    ensures KeysOf(Insert(x, rows)) == KeysOf(rows) + {x.RowKey()}
  {
    var r := Insert(x, rows);
    forall y ensures y in r <==> y == x || y in rows {
      assert y in r <==> y in multiset(r);
      assert y in rows <==> y in multiset(rows);
    }
  }

  /** Prepending a row whose key is not above any key of a sorted sequence keeps it sorted. */
  lemma ConsSorted(h: Row, rest: seq<Row>)
    requires Sorted(rest)
    requires forall k :: 0 <= k < |rest| ==> !KeyLt(rest[k].RowKey(), h.RowKey())
    ensures Sorted([h] + rest)
  {
    var r := [h] + rest;
    forall i, j | 0 <= i < j < |r| ensures !KeyLt(r[j].RowKey(), r[i].RowKey()) {
      assert r[j] == rest[j - 1];
      if i > 0 {
        assert r[i] == rest[i - 1];
      }
    }
  }

  /** Prepending a row whose key is below every key of a strictly sorted sequence keeps it strictly sorted. */
  lemma ConsStrictlySorted(h: Row, rest: seq<Row>)
    requires StrictlySorted(rest)
    requires forall k :: 0 <= k < |rest| ==> KeyLt(h.RowKey(), rest[k].RowKey())
    ensures StrictlySorted([h] + rest)
  {
    var r := [h] + rest;
    forall i, j | 0 <= i < j < |r| ensures KeyLt(r[i].RowKey(), r[j].RowKey()) {
      assert r[j] == rest[j - 1];
      if i > 0 {
        assert r[i] == rest[i - 1];
      }
    }
  }

  /** No row of a sorted sequence has a key below its head's. */
  lemma SortedHeadLeast(rows: seq<Row>)
    requires rows != [] && Sorted(rows)
    ensures forall y :: y in rows ==> !KeyLt(y.RowKey(), rows[0].RowKey())
  {
    forall y | y in rows ensures !KeyLt(y.RowKey(), rows[0].RowKey()) {
      var j :| 0 <= j < |rows| && rows[j] == y;
    }
  }

  /** Every row of a strictly sorted sequence but its head has a key above the head's. */
  lemma StrictlySortedHeadLeast(rows: seq<Row>)
    requires rows != [] && StrictlySorted(rows)
    ensures forall y :: y in rows[1..] ==> KeyLt(rows[0].RowKey(), y.RowKey())
  {
    forall y | y in rows[1..] ensures KeyLt(rows[0].RowKey(), y.RowKey()) {
      var j :| 0 <= j < |rows[1..]| && rows[1..][j] == y;
      assert rows[j + 1] == y;
    }
  }

  /** Inserting into a sorted sequence keeps it sorted. */
  lemma {:induction false} InsertSorted(x: Row, rows: seq<Row>)
    requires Sorted(rows)
    ensures Sorted(Insert(x, rows))
  {
    if rows == [] {
    } else if !KeyLt(rows[0].RowKey(), x.RowKey()) {
      SortedHeadLeast(rows);
      assert forall k :: 0 <= k < |rows| ==> rows[k] in rows;
      ConsSorted(x, rows);
    } else {
      InsertSorted(x, rows[1..]);
      InsertMembers(x, rows[1..]);
      SortedHeadLeast(rows);
      HeadOrTail(rows);
      var rest := Insert(x, rows[1..]);
      assert forall k :: 0 <= k < |rest| ==> rest[k] in rest;
      ConsSorted(rows[0], rest);
    }
  }

  /** Inserting a row with a new key into a strictly sorted sequence keeps it strictly sorted. */
  lemma {:induction false} InsertStrictlySorted(x: Row, rows: seq<Row>)
    requires StrictlySorted(rows) && x.RowKey() !in KeysOf(rows)
    ensures StrictlySorted(Insert(x, rows))
  {
    if rows == [] {
    } else if !KeyLt(rows[0].RowKey(), x.RowKey()) {
      assert rows[0] in rows;
      assert forall k :: 1 <= k < |rows| ==> KeyLt(rows[0].RowKey(), rows[k].RowKey());
      ConsStrictlySorted(x, rows);
    } else {
      HeadOrTail(rows);
      InsertStrictlySorted(x, rows[1..]);
      InsertMembers(x, rows[1..]);
      StrictlySortedHeadLeast(rows);
      var rest := Insert(x, rows[1..]);
      assert forall k :: 0 <= k < |rest| ==> rest[k] in rest;
      ConsStrictlySorted(rows[0], rest);
    }
  }

  /** sort_values(['Date', 'Timme']): a permutation of rows ordered by key. */
  function SortByKey(rows: seq<Row>): (r: seq<Row>)
    ensures multiset(r) == multiset(rows)
  {
    if rows == [] then []
    else
      assert rows == [rows[0]] + rows[1..];
      Insert(rows[0], SortByKey(rows[1..]))
  }

  /** The sorted rows are the input's rows, ordered by key, strictly when the keys are unique. */
  lemma {:induction false} SortByKeySorted(rows: seq<Row>)
    ensures forall y :: y in SortByKey(rows) <==> y in rows
    ensures KeysOf(SortByKey(rows)) == KeysOf(rows)
    ensures Sorted(SortByKey(rows))
    ensures UniqueKeys(rows) ==> StrictlySorted(SortByKey(rows))
  {
    var r := SortByKey(rows);
    forall y ensures y in r <==> y in rows {
      assert y in r <==> y in multiset(r);
      assert y in rows <==> y in multiset(rows);
    }
    if rows != [] {
      HeadOrTail(rows);
      UniqueKeysCons(rows);
      var rest := SortByKey(rows[1..]);
      SortByKeySorted(rows[1..]);
      InsertSorted(rows[0], rest);
      if UniqueKeys(rows) {
        InsertStrictlySorted(rows[0], rest);
      }
    }
  }

  /**
   * merge_dataframes: an empty side yields the other side unchanged;
   * otherwise existing rows then incoming rows, deduplicated keeping the
   * last row per key, sorted by key.
   */
  function Merge(existing: seq<Row>, incoming: seq<Row>): (r: seq<Row>)
    ensures existing == [] ==> r == incoming
    ensures existing != [] && incoming == [] ==> r == existing
    ensures existing != [] && incoming != [] ==>
      && StrictlySorted(r)
      && KeysOf(r) == KeysOf(existing) + KeysOf(incoming)
      && |r| <= |existing| + |incoming|
      && forall x :: x in r <==> x in existing + incoming && LastWith(existing + incoming, x.RowKey()) == x
  {
    if existing == [] then incoming
    else if incoming == [] then existing
    else
      var kept := KeepLast(existing + incoming);
      var r := SortByKey(kept);
      assert KeysOf(existing + incoming) == KeysOf(existing) + KeysOf(incoming) by {
        assert forall x :: x in existing + incoming <==> x in existing || x in incoming;
      }
      SortByKeySorted(kept);
      assert |r| == |kept| by {
        assert |multiset(r)| == |multiset(kept)|;
      }
      r
  }

  /** The keys of a concatenation are the keys of its parts. */
  lemma KeysOfAppend(a: seq<Row>, b: seq<Row>)
    ensures KeysOf(a + b) == KeysOf(a) + KeysOf(b)
  {
    assert forall x :: x in a + b <==> x in a || x in b;
  }

  /**
   * The row that holds key k after `incoming` is merged into `existing`:
   * incoming's last row with that key if it has one, else existing's last.
   */
  function Winner(existing: seq<Row>, incoming: seq<Row>, k: Key): Row
    requires k in KeysOf(existing) + KeysOf(incoming)
  {
    if k in KeysOf(incoming) then LastWith(incoming, k) else LastWith(existing, k)
  }

  /** The last row with key k in a + b is b's last such row, or a's if b has none. */
  lemma {:induction false} LastWithAppend(a: seq<Row>, b: seq<Row>, k: Key)
    requires k in KeysOf(a) + KeysOf(b)
    ensures k in KeysOf(a + b)
    ensures LastWith(a + b, k) == Winner(a, b, k)
  {
    KeysOfAppend(a, b);
    if a == [] {
      assert a + b == b;
    } else {
      HeadOrTail(a);
      assert (a + b)[1..] == a[1..] + b;
      KeysOfAppend(a[1..], b);
      if k in KeysOf(a[1..]) + KeysOf(b) {
        LastWithAppend(a[1..], b, k);
      }
    }
  }

  /** In a sequence with unique keys, the last row with a row's key is that row. */
  lemma LastWithUnique(rows: seq<Row>, x: Row)
    requires UniqueKeys(rows) && x in rows
    ensures x.RowKey() in KeysOf(rows) && LastWith(rows, x.RowKey()) == x
  {
    var y := LastWith(rows, x.RowKey());
    var i :| 0 <= i < |rows| && rows[i] == x;
    var j :| 0 <= j < |rows| && rows[j] == y;
    assert i == j;
  }

  /**
   * The rows of a merge of two non-empty tables: exactly one row per key of
   * either input, the winner for that key.
   */
  lemma MergeMembers(existing: seq<Row>, incoming: seq<Row>)
    requires existing != [] && incoming != []
    ensures forall x :: x in Merge(existing, incoming) <==>
      x.RowKey() in KeysOf(existing) + KeysOf(incoming) && x == Winner(existing, incoming, x.RowKey())
  {
    KeysOfAppend(existing, incoming);
    forall x ensures x in Merge(existing, incoming) <==>
      x.RowKey() in KeysOf(existing) + KeysOf(incoming) && x == Winner(existing, incoming, x.RowKey())
    {
      if x.RowKey() in KeysOf(existing) + KeysOf(incoming) {
        LastWithAppend(existing, incoming, x.RowKey());
      }
    }
  }

  /**
   * Last write wins: after a merge, the row stored
   * under a key of the incoming batch is that batch's last row with the key,
   * and the row under any other key is the existing table's last one.
   */
  lemma MergeLookup(existing: seq<Row>, incoming: seq<Row>, k: Key)
    requires k in KeysOf(existing) + KeysOf(incoming)
    ensures k in KeysOf(Merge(existing, incoming))
    ensures LastWith(Merge(existing, incoming), k) ==
      if k in KeysOf(incoming) then LastWith(incoming, k) else LastWith(existing, k)
  {
    if existing != [] && incoming != [] {
      var m := Merge(existing, incoming);
      MergeMembers(existing, incoming);
      var y :| y in m && y.RowKey() == k;
      LastWithUnique(m, y);
    }
  }

  /** Two strictly sorted sequences with the same rows are equal. */
  lemma {:induction false} StrictlySortedUnique(s: seq<Row>, t: seq<Row>)
    requires StrictlySorted(s) && StrictlySorted(t)
    requires forall x :: x in s <==> x in t
    ensures s == t
  {
    if s == [] {
      assert forall i :: 0 <= i < |t| ==> t[i] in t;
    } else {
      assert t != [] by { assert s[0] in t; }
      assert s[0] == t[0] by {
        assert s[0] in t && t[0] in s;
        var i :| 0 <= i < |t| && t[i] == s[0];
        var j :| 0 <= j < |s| && s[j] == t[0];
        assert i == 0;
      }
      forall x ensures x in s[1..] <==> x in t[1..] {
        HeadOrTail(s);
        HeadOrTail(t);
        if x in s[1..] {
          var i :| 0 <= i < |s[1..]| && s[1..][i] == x;
          assert s[i + 1] == x;
          assert KeyLt(s[0].RowKey(), x.RowKey());
        }
        if x in t[1..] {
          var i :| 0 <= i < |t[1..]| && t[1..][i] == x;
          assert t[i + 1] == x;
          assert KeyLt(t[0].RowKey(), x.RowKey());
        }
      }
      StrictlySortedUnique(s[1..], t[1..]);
      assert s == [s[0]] + s[1..] && t == [t[0]] + t[1..];
    }
  }

  /** Merging a canonical (strictly sorted) table with itself gives it back. */
  lemma MergeSelfCanonical(rows: seq<Row>)
    requires StrictlySorted(rows)
    ensures Merge(rows, rows) == rows
  {
    if rows != [] {
      MergeMembers(rows, rows);
      forall x ensures x in Merge(rows, rows) <==> x in rows {
        if x in rows {
          LastWithUnique(rows, x);
        }
      }
      StrictlySortedUnique(Merge(rows, rows), rows);
    }
  }

  /**
   * Re-merging a batch that was already merged changes nothing, provided the
   * first merge went through the deduplicate-and-sort path or the batch was
   * already canonical.
   */
  lemma MergeIdempotent(existing: seq<Row>, incoming: seq<Row>)
    requires existing != [] || StrictlySorted(incoming)
    ensures Merge(Merge(existing, incoming), incoming) == Merge(existing, incoming)
  {
    if existing == [] {
      MergeSelfCanonical(incoming);
    } else if incoming != [] {
      var m := Merge(existing, incoming);
      assert m != [] by { assert incoming[0].RowKey() in KeysOf(m); }
      MergeMembers(existing, incoming);
      MergeMembers(m, incoming);
      forall x ensures x in Merge(m, incoming) <==> x in m {
        var k := x.RowKey();
        if k in KeysOf(existing) + KeysOf(incoming) && k !in KeysOf(incoming) {
          MergeLookup(existing, incoming, k);
        }
      }
      StrictlySortedUnique(Merge(m, incoming), m);
    }
  }

  /**
   * An unsorted batch merged into an empty table comes back unsorted, so
   * merging it once more reorders it: idempotence needs the precondition above.
   */
  lemma MergeIntoEmptyKeepsBatchOrder()
    ensures var batch := [Row(2, 0, map[]), Row(1, 0, map[])];
      Merge(Merge([], batch), batch) != Merge([], batch)
  {
    var batch := [Row(2, 0, map[]), Row(1, 0, map[])];
    var m := Merge(batch, batch);
    assert !StrictlySorted(batch) by {
      assert !KeyLt(batch[0].RowKey(), batch[1].RowKey());
    }
    assert StrictlySorted(m);
  }

  /** Merging is associative, whichever of the three tables are empty. */
  lemma MergeAssociative(a: seq<Row>, b: seq<Row>, c: seq<Row>)
    ensures Merge(Merge(a, b), c) == Merge(a, Merge(b, c))
  {
    if a != [] && b != [] && c != [] {
      var ab := Merge(a, b);
      var bc := Merge(b, c);
      assert ab != [] by { assert b[0].RowKey() in KeysOf(ab); }
      assert bc != [] by { assert c[0].RowKey() in KeysOf(bc); }
      MergeMembers(a, b);
      MergeMembers(b, c);
      MergeMembers(ab, c);
      MergeMembers(a, bc);
      forall x ensures x in Merge(ab, c) <==> x in Merge(a, bc) {
        var k := x.RowKey();
        if k in KeysOf(a) + KeysOf(b) {
          MergeLookup(a, b, k);
        }
        if k in KeysOf(b) + KeysOf(c) {
          MergeLookup(b, c, k);
        }
      }
      StrictlySortedUnique(Merge(ab, c), Merge(a, bc));
    } else if a != [] && b != [] {
      assert Merge(a, b) != [] by { assert b[0].RowKey() in KeysOf(Merge(a, b)); }
    } else if b != [] && c != [] {
      assert Merge(b, c) != [] by { assert c[0].RowKey() in KeysOf(Merge(b, c)); }
    }
  }
}
