/** The data-access object (data/ExpenseDao.kt): the filtered, date-ordered
    query and the three primary-key store operations, over an in-memory
    picture of the `expenses` table. */
module ExpenseDao {
  import opened Options
  import opened Expenses

  // ---------------------------------------------------------------- query

  /** The WHERE clause: `date BETWEEN from AND to` (both ends inclusive) and
      `(:category IS NULL OR category = :category)`. */
  predicate Matches(e: Expense, from: int, to: int, category: Option<string>)
  {
    from <= e.date <= to && (category.None? || e.category == category.value)
  }

  /** The rows of `rows` that pass the WHERE clause, in their original order. */
  function Filter(rows: seq<Expense>, from: int, to: int, category: Option<string>): (r: seq<Expense>)
    ensures forall i :: 0 <= i < |r| ==> Matches(r[i], from, to, category)
    ensures forall e :: multiset(r)[e] == if Matches(e, from, to, category) then multiset(rows)[e] else 0
  {
    if rows == [] then []
    else
      var n := |rows| - 1;
      assert rows == rows[..n] + [rows[n]];
      var init := Filter(rows[..n], from, to, category);
      if Matches(rows[n], from, to, category) then init + [rows[n]] else init
  }

  /** `ORDER BY date DESC`: the most recent record first. Records with equal
      dates may come in any order. */
  predicate SortedByDateDesc(s: seq<Expense>)
  {
    forall i, j :: 0 <= i < j < |s| ==> s[i].date >= s[j].date
  }

  /** Places `x` into a list already ordered by date descending. */
  function InsertByDate(x: Expense, s: seq<Expense>): (r: seq<Expense>)
    requires SortedByDateDesc(s)
    ensures SortedByDateDesc(r)
    ensures multiset(r) == multiset(s) + multiset{x}
    ensures forall i :: 0 <= i < |r| ==> r[i] == x || r[i] in s
  {
    if s == [] || x.date >= s[0].date then
      var r := [x] + s;
      assert forall i :: 1 <= i < |r| ==> r[i] == s[i - 1];
      r
    else
      var t := InsertByDate(x, s[1..]);
      assert s == [s[0]] + s[1..];
      PrependLatest(s[0], t, x, s[1..]);
      [s[0]] + t
  }

  /** A row no older than anything in `t` can go in front of it. */
  lemma PrependLatest(y: Expense, t: seq<Expense>, x: Expense, rest: seq<Expense>)
    requires SortedByDateDesc(t) && SortedByDateDesc([y] + rest)
    requires x.date < y.date
    requires forall i :: 0 <= i < |t| ==> t[i] == x || t[i] in rest
    ensures SortedByDateDesc([y] + t)
  {
    var r := [y] + t;
    forall i, j | 0 <= i < j < |r|
      ensures r[i].date >= r[j].date
    {
      if i == 0 {
        assert r[j] == t[j - 1];
        if t[j - 1] != x {
          var k :| 0 <= k < |rest| && rest[k] == t[j - 1];
          var yr := [y] + rest;
          assert yr[0] == y && yr[k + 1] == rest[k];
          assert yr[0].date >= yr[k + 1].date;
        }
      } else {
        assert r[i] == t[i - 1] && r[j] == t[j - 1];
      }
    }
  }

  /** An ordering of `s` by date descending (insertion sort). */
  function SortByDateDesc(s: seq<Expense>): (r: seq<Expense>)
    ensures SortedByDateDesc(r)
    ensures multiset(r) == multiset(s)
  {
    if s == [] then []
    else
      var n := |s| - 1;
      assert s == s[..n] + [s[n]];
      InsertByDate(s[n], SortByDateDesc(s[..n]))
  }

  /** The `getFilteredExpenses` query over the rows `rows`, in the order the
      table delivers them: exactly the rows that pass the WHERE clause, each
      as often as it is stored, ordered by date descending. */
  function Select(rows: seq<Expense>, from: int, to: int, category: Option<string>): (r: seq<Expense>)
    ensures SortedByDateDesc(r)
    ensures forall i :: 0 <= i < |r| ==> from <= r[i].date <= to
    ensures forall i :: 0 <= i < |r| ==> category.None? || r[i].category == category.value
    ensures forall e :: multiset(r)[e] == if Matches(e, from, to, category) then multiset(rows)[e] else 0
    ensures from > to ==> r == []
  {
    var f := Filter(rows, from, to, category);
    var r := SortByDateDesc(f);
    assert forall i :: 0 <= i < |r| ==> Matches(r[i], from, to, category) by {
      forall i | 0 <= i < |r|
        ensures Matches(r[i], from, to, category)
      {
        assert r[i] in multiset(r);
      }
    }
    r
  }

  // ---------------------------------------------------------------- table

  /** The `expenses` table: rows by primary key, and the AUTOINCREMENT
      high-water mark (the table's entry in `sqlite_sequence`, the largest key
      ever used). */
  datatype Table = Table(rows: map<int, Expense>, lastId: int)

  /** Every row is stored under its own primary key, and no key exceeds the
      high-water mark. Every operation below keeps this. */
  predicate Valid(t: Table)
  {
    forall k :: k in t.rows ==> t.rows[k].id == k && k <= t.lastId
  }

  /** Some element of a non-empty set. */
  lemma Element(ks: set<int>) returns (x: int)
    requires ks != {}
    ensures x in ks
  {
    if forall y :: y !in ks {
      assert false;
    }
    x :| x in ks;
  }

  lemma {:induction false} LargestExists(ks: set<int>)
    requires ks != {}
    ensures exists m :: m in ks && forall k :: k in ks ==> k <= m
  {
    var x := Element(ks);
    var rest := ks - {x};
    if rest == {} {
      forall k | k in ks
        ensures k <= x
      {
        assert k !in rest;
      }
    } else {
      LargestExists(rest);
      var m :| m in rest && forall k :: k in rest ==> k <= m;
      var top := if x > m then x else m;
      forall k | k in ks
        ensures k <= top
      {
        if k != x {
          assert k in rest;
        }
      }
      assert top in ks;
    }
  }

  /** The largest element of a non-empty finite set of keys. */
  function Largest(ks: set<int>): (m: int)
    requires ks != {}
    ensures m in ks && forall k :: k in ks ==> k <= m
  {
    LargestExists(ks);
    var m :| m in ks && forall k :: k in ks ==> k <= m;
    m
  }

  /** The keys of `ks` in strictly ascending order. */
  function Ascending(ks: set<int>): (r: seq<int>)
    ensures forall i, j :: 0 <= i < j < |r| ==> r[i] < r[j]
    ensures forall k :: k in ks <==> k in r
    ensures forall i :: 0 <= i < |r| ==> r[i] in ks
    ensures |r| == |ks|
    decreases |ks|
  {
    if ks == {} then []
    else
      var m := Largest(ks);
      Ascending(ks - {m}) + [m]
  }

  /** The rows stored under the keys `ks`, in that order. */
  function RowsAt(m: map<int, Expense>, ks: seq<int>): (r: seq<Expense>)
    requires forall i :: 0 <= i < |ks| ==> ks[i] in m
    ensures |r| == |ks|
    ensures forall i :: 0 <= i < |ks| ==> r[i] == m[ks[i]]
  {
    if ks == [] then [] else RowsAt(m, ks[..|ks| - 1]) + [m[ks[|ks| - 1]]]
  }

  /** The stored rows, one per key, in ascending key order. */
  function Rows(t: Table): seq<Expense>
  {
    RowsAt(t.rows, Ascending(t.rows.Keys))
  }

  /** The listing holds every stored row once and nothing else; under the
      table invariant no two of its rows share a key. */
  lemma RowsListTable(t: Table)
    ensures |Rows(t)| == |t.rows|
    ensures forall i :: 0 <= i < |Rows(t)| ==> exists k :: k in t.rows && Rows(t)[i] == t.rows[k]
    ensures forall k :: k in t.rows ==> t.rows[k] in Rows(t)
    ensures Valid(t) ==> DistinctIds(Rows(t))
  {
    var ks := Ascending(t.rows.Keys);
    var r := RowsAt(t.rows, ks);
    forall i | 0 <= i < |r|
      ensures exists k :: k in t.rows && r[i] == t.rows[k]
    {
      assert ks[i] in t.rows;
    }
    forall k | k in t.rows
      ensures t.rows[k] in r
    {
      var i :| 0 <= i < |ks| && ks[i] == k;
      assert r[i] == t.rows[k];
    }
  }

  /** `getFilteredExpenses(from, to, category)` against the table: only
      stored rows, only rows that pass the WHERE clause, every stored row that
      passes it exactly once, most recent first. */
  function GetFilteredExpenses(t: Table, from: int, to: int, category: Option<string>): (r: seq<Expense>)
    requires Valid(t)
    ensures SortedByDateDesc(r)
    ensures forall i :: 0 <= i < |r| ==> Matches(r[i], from, to, category)
    ensures forall i :: 0 <= i < |r| ==> r[i].id in t.rows && t.rows[r[i].id] == r[i]
    ensures forall k :: k in t.rows && Matches(t.rows[k], from, to, category) ==> multiset(r)[t.rows[k]] == 1
    ensures from > to ==> r == []
  {
    var rows := Rows(t);
    RowsListTable(t);
    var r := Select(rows, from, to, category);
    SelectStored(t, rows, r, from, to, category);
    SelectOnce(t, rows, r, from, to, category);
    r
  }

  lemma SelectStored(t: Table, rows: seq<Expense>, r: seq<Expense>, from: int, to: int, category: Option<string>)
    requires Valid(t) && rows == Rows(t) && r == Select(rows, from, to, category)
    ensures forall i :: 0 <= i < |r| ==> r[i].id in t.rows && t.rows[r[i].id] == r[i]
  {
    RowsListTable(t);
    forall i | 0 <= i < |r|
      ensures r[i].id in t.rows && t.rows[r[i].id] == r[i]
    {
      assert r[i] in multiset(r);
      assert multiset(rows)[r[i]] > 0;
      var j :| 0 <= j < |rows| && rows[j] == r[i];
      var k :| k in t.rows && rows[j] == t.rows[k];
      assert t.rows[k].id == k;
    }
  }

  lemma SelectOnce(t: Table, rows: seq<Expense>, r: seq<Expense>, from: int, to: int, category: Option<string>)
    requires Valid(t) && rows == Rows(t) && r == Select(rows, from, to, category)
    ensures forall k :: k in t.rows && Matches(t.rows[k], from, to, category) ==> multiset(r)[t.rows[k]] == 1
  {
    RowsListTable(t);
    forall k | k in t.rows && Matches(t.rows[k], from, to, category)
      ensures multiset(r)[t.rows[k]] == 1
    {
      OnceEach(rows, t.rows[k]);
    }
  }

  // ---------------------------------------------------------------- store

  /** The key SQLite gives a row inserted without one under AUTOINCREMENT:
      one more than the larger of the high-water mark and the largest key. */
  function NextKey(t: Table): (k: int)
    ensures k !in t.rows
    ensures k > t.lastId
  {
    if t.rows == map[] then t.lastId + 1
    else
      var m := Largest(t.rows.Keys);
      (if m > t.lastId then m else t.lastId) + 1
  }

  /** The key an inserted record lands under: Room binds an id of 0 as NULL
      for an auto-generated key, so SQLite assigns one; any other id is used
      as given. */
  function InsertKey(t: Table, e: Expense): (k: int)
    ensures e.id != 0 ==> k == e.id
    ensures e.id == 0 ==> k !in t.rows && k > t.lastId
  {
    if e.id == 0 then NextKey(t) else e.id
  }

  /** `insertExpense` with `OnConflictStrategy.REPLACE`: afterwards the record
      is stored under its key, replacing any row that had that key, and
      nothing else changes. An unassigned id gets a key never used before. */
  function Insert(t: Table, e: Expense): (r: Table)
    ensures InsertKey(t, e) in r.rows && r.rows[InsertKey(t, e)] == e.(id := InsertKey(t, e))
    ensures r.rows.Keys == t.rows.Keys + {InsertKey(t, e)}
    ensures forall k :: k in t.rows && k != InsertKey(t, e) ==> r.rows[k] == t.rows[k]
    ensures e.id != 0 ==> InsertKey(t, e) == e.id
    ensures e.id == 0 ==> InsertKey(t, e) !in t.rows && InsertKey(t, e) > t.lastId
    ensures t.lastId <= r.lastId
    ensures Valid(t) ==> Valid(r)
  {
    var k := InsertKey(t, e);
    Table(t.rows[k := e.(id := k)], if k > t.lastId then k else t.lastId)
  }

  /** `updateExpense` (`@Update`): overwrites the row whose key is the
      record's id; every other row, and the key set, stay as they were. A
      record whose id is not stored changes nothing. */
  function Update(t: Table, e: Expense): (r: Table)
    ensures r.rows.Keys == t.rows.Keys && r.lastId == t.lastId
    ensures e.id in t.rows ==> r.rows[e.id] == e
    ensures forall k :: k in t.rows && k != e.id ==> r.rows[k] == t.rows[k]
    ensures e.id !in t.rows ==> r == t
    ensures Valid(t) ==> Valid(r)
  {
    if e.id in t.rows then t.(rows := t.rows[e.id := e]) else t
  }

  /** `deleteExpense` (`@Delete`): removes the row whose key is the record's
      id, matching on the key alone; every other row stays as it was. */
  function Delete(t: Table, e: Expense): (r: Table)
    ensures r.rows.Keys == t.rows.Keys - {e.id} && r.lastId == t.lastId
    ensures forall k :: k in r.rows ==> r.rows[k] == t.rows[k]
    ensures Valid(t) ==> Valid(r)
  {
    t.(rows := t.rows - {e.id})
  }
}
