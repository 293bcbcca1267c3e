/** The view model (ui/ExpenseViewModel.kt): the derived aggregates over the
    visible list, and the filter, currency and CRUD commands as transitions of
    one state record. LiveData delivery is the explicit step `Publish`. */
module ExpenseViewModel {
  import opened Options
  import opened Currencies
  import opened Expenses
  import opened ExpenseDao

  // ------------------------------------------------------------ aggregates

  /** `list.sumOf { it.amount }`: a left-to-right running sum, 0 for the
      empty list. */
  function Total(l: seq<Expense>): (r: real)
    ensures l == [] ==> r == 0.0
  {
    if l == [] then 0.0 else Total(l[..|l| - 1]) + l[|l| - 1].amount
  }

  /** With no negative amounts the total is not negative; with only positive
      amounts it is positive exactly when the list is not empty. */
  lemma {:induction false} TotalSign(l: seq<Expense>)
    ensures (forall i :: 0 <= i < |l| ==> l[i].amount >= 0.0) ==> Total(l) >= 0.0
    ensures (forall i :: 0 <= i < |l| ==> l[i].amount > 0.0) ==> (Total(l) > 0.0 <==> l != [])
  {
    if l != [] {
      var n := |l| - 1;
      assert forall i :: 0 <= i < n ==> l[..n][i] == l[i];
      TotalSign(l[..n]);
    }
  }

  /** `totalAmount` as the loop `sumOf` runs: the amounts added up from the
      first record to the last, starting from 0. */
  method SumOf(l: seq<Expense>) returns (total: real)
    ensures total == Total(l)
  {
    total := 0.0;
    var i := 0;
    while i < |l|
      invariant 0 <= i <= |l|
      invariant total == Total(l[..i])
    {
      assert l[..i + 1][..i] == l[..i];
      total := total + l[i].amount;
      i := i + 1;
    }
    assert l[..|l|] == l;
  }

  /** The sum is additive over concatenation. */
  lemma {:induction false} TotalAppend(a: seq<Expense>, b: seq<Expense>)
    ensures Total(a + b) == Total(a) + Total(b)
    decreases |b|
  {
    if b == [] {
      assert a + b == a;
    } else {
      var n := |b| - 1;
      assert (a + b)[..|a + b| - 1] == a + b[..n];
      TotalAppend(a, b[..n]);
    }
  }

  /** The sum does not depend on the order of the list. */
  lemma {:induction false} TotalPermutation(a: seq<Expense>, b: seq<Expense>)
    requires multiset(a) == multiset(b)
    ensures Total(a) == Total(b)
    decreases |a|
  {
    if a == [] {
      assert |b| == |multiset(b)| == 0;
    } else {
      var n := |a| - 1;
      var x := a[n];
      assert a == a[..n] + [x];
      assert x in multiset(b);
      var i :| 0 <= i < |b| && b[i] == x;
      var rest := b[..i] + b[i + 1..];
      RemoveAtMultiset(b, i);
      RemoveAtTotal(b, i);
      assert multiset(a[..n]) == multiset(a) - multiset{x};
      TotalPermutation(a[..n], rest);
    }
  }

  /** Taking the record at position `i` out of `b` takes one copy of it out
      of the multiset. */
  lemma RemoveAtMultiset(b: seq<Expense>, i: int)
    requires 0 <= i < |b|
    ensures multiset(b[..i] + b[i + 1..]) == multiset(b) - multiset{b[i]}
  {
    assert b == b[..i] + ([b[i]] + b[i + 1..]);
  }

  /** Taking the record at position `i` out of `b` takes its amount out of
      the total. */
  lemma RemoveAtTotal(b: seq<Expense>, i: int)
    requires 0 <= i < |b|
    ensures Total(b) == Total(b[..i] + b[i + 1..]) + b[i].amount
  {
    var x := b[i];
    assert b == b[..i] + ([x] + b[i + 1..]);
    TotalAppend(b[..i], [x] + b[i + 1..]);
    TotalAppend([x], b[i + 1..]);
    TotalAppend(b[..i], b[i + 1..]);
    assert Total([x]) == x.amount by {
      assert [x][..0] == [];
    }
  }

  /** The group `groupBy { it.category }` forms for category `c`: the
      records of that category, in list order. */
  function OfCategory(l: seq<Expense>, c: string): (r: seq<Expense>)
    ensures forall i :: 0 <= i < |r| ==> r[i].category == c
    ensures (forall i :: 0 <= i < |l| ==> l[i].category != c) ==> r == []
  {
    if l == [] then []
    else
      var n := |l| - 1;
      var init := OfCategory(l[..n], c);
      if l[n].category == c then init + [l[n]] else init
  }

  /** A group holds every record of its category, each as often as the list
      does, and nothing else. */
  lemma {:induction false} OfCategoryContents(l: seq<Expense>, c: string)
    ensures forall e :: multiset(OfCategory(l, c))[e] == if e.category == c then multiset(l)[e] else 0
  {
    if l != [] {
      var n := |l| - 1;
      assert l == l[..n] + [l[n]];
      OfCategoryContents(l[..n], c);
    }
  }

  /** Some record of `l` has category `c`. */
  predicate Occurs(l: seq<Expense>, c: string)
  {
    exists i :: 0 <= i < |l| && l[i].category == c
  }

  /** `totalByCategory`: `groupBy { it.category }.mapValues { sumOf amount }`,
      computed as one pass that adds each amount to its category's bucket.
      The keys are exactly the categories that occur (no empty bucket), and
      each bucket holds the sum of its category's records. */
  function TotalByCategory(l: seq<Expense>): (m: map<string, real>)
    ensures forall c :: c in m <==> Occurs(l, c)
    ensures forall c :: c in m ==> m[c] == Total(OfCategory(l, c))
  {
    if l == [] then map[]
    else
      var p := l[..|l| - 1];
      var init := TotalByCategory(p);
      var m := AddToBucket(init, l[|l| - 1]);
      BucketKeys(l, p, init, m);
      BucketValues(l, p, init, m);
      m
  }

  /** Adds the record's amount to its category's bucket, opening the bucket
      at zero when the category is new. */
  function AddToBucket(m: map<string, real>, e: Expense): (r: map<string, real>)
    ensures r.Keys == m.Keys + {e.category}
  {
    m[e.category := (if e.category in m then m[e.category] else 0.0) + e.amount]
  }

  lemma BucketKeys(l: seq<Expense>, p: seq<Expense>, init: map<string, real>, m: map<string, real>)
    requires l != [] && p == l[..|l| - 1]
    requires forall c :: c in init <==> Occurs(p, c)
    requires m.Keys == init.Keys + {l[|l| - 1].category}
    ensures forall c :: c in m <==> Occurs(l, c)
  {
    var n := |l| - 1;
    forall c
      ensures c in m <==> Occurs(l, c)
    {
      if Occurs(l, c) && c != l[n].category {
        var i :| 0 <= i < |l| && l[i].category == c;
        assert p[i] == l[i];
      }
      if Occurs(p, c) {
        var i :| 0 <= i < n && p[i].category == c;
        assert l[i] == p[i];
      }
    }
  }

  lemma BucketValues(l: seq<Expense>, p: seq<Expense>, init: map<string, real>, m: map<string, real>)
    requires l != [] && p == l[..|l| - 1]
    requires forall c :: c in init ==> init[c] == Total(OfCategory(p, c))
    requires forall c :: c in init <==> Occurs(p, c)
    requires m == AddToBucket(init, l[|l| - 1])
    ensures forall c :: c in m ==> m[c] == Total(OfCategory(l, c))
  {
    var e := l[|l| - 1];
    forall c | c in m
      ensures m[c] == Total(OfCategory(l, c))
    {
      var g := OfCategory(p, c);
      if c == e.category {
        assert (g + [e])[..|g|] == g;
        if c !in init {
          assert g == [];
        }
      }
    }
  }

  /** No category is listed twice. */
  predicate NoDuplicates(ks: seq<string>)
  {
    forall i, j :: 0 <= i < j < |ks| ==> ks[i] != ks[j]
  }

  /** The bucket values of `m` added up, visiting the keys in the order `ks`. */
  function SumValues(m: map<string, real>, ks: seq<string>): real
    requires forall i :: 0 <= i < |ks| ==> ks[i] in m
  {
    if ks == [] then 0.0 else m[ks[0]] + SumValues(m, ks[1..])
  }

  /** The group totals of `l` for the categories `ks`, added up. */
  function CategoryTotals(l: seq<Expense>, ks: seq<string>): real
  {
    if ks == [] then 0.0 else Total(OfCategory(l, ks[0])) + CategoryTotals(l, ks[1..])
  }

  lemma {:induction false} CategoryTotalsOfEmpty(ks: seq<string>)
    ensures CategoryTotals([], ks) == 0.0
  {
    if ks != [] {
      CategoryTotalsOfEmpty(ks[1..]);
    }
  }

  /** Appending a record adds its amount to exactly one group total: the one
      of its own category, if that category is listed. */
  lemma {:induction false} CategoryTotalsSnoc(l: seq<Expense>, e: Expense, ks: seq<string>)
    requires NoDuplicates(ks)
    ensures CategoryTotals(l + [e], ks) == CategoryTotals(l, ks) + (if e.category in ks then e.amount else 0.0)
  {
    if ks != [] {
      GroupSnoc(l, e, ks[0]);
      NoDuplicatesTail(ks);
      CategoryTotalsSnoc(l, e, ks[1..]);
      HeadNotInTail(ks, e.category);
    }
  }

  /** In a list without duplicates, a name is listed exactly when it is the
      head or, being something else, is listed in the tail. */
  lemma HeadNotInTail(ks: seq<string>, c: string)
    requires ks != [] && NoDuplicates(ks)
    ensures c in ks <==> c == ks[0] || c in ks[1..]
    ensures c == ks[0] ==> c !in ks[1..]
  {
    assert ks == [ks[0]] + ks[1..];
    if c == ks[0] {
      forall i | 0 <= i < |ks[1..]|
        ensures ks[1..][i] != c
      {
        assert ks[1..][i] == ks[i + 1];
      }
    }
  }

  /** Appending a record adds its amount to its own category's group total
      and to no other. */
  lemma GroupSnoc(l: seq<Expense>, e: Expense, c: string)
    ensures Total(OfCategory(l + [e], c)) == Total(OfCategory(l, c)) + (if e.category == c then e.amount else 0.0)
  {
    assert (l + [e])[..|l|] == l;
    var g := OfCategory(l, c);
    assert (g + [e])[..|g|] == g;
  }

  lemma NoDuplicatesTail(ks: seq<string>)
    requires ks != [] && NoDuplicates(ks)
    ensures NoDuplicates(ks[1..])
  {
    forall i, j | 0 <= i < j < |ks[1..]|
      ensures ks[1..][i] != ks[1..][j]
    {
      assert ks[1..][i] == ks[i + 1] && ks[1..][j] == ks[j + 1];
    }
  }

  /** Groups over distinct categories that cover every record partition the
      list: their totals add up to the list's total. */
  lemma {:induction false} CategoryTotalsCover(l: seq<Expense>, ks: seq<string>)
    requires NoDuplicates(ks)
    requires forall i :: 0 <= i < |l| ==> l[i].category in ks
    ensures CategoryTotals(l, ks) == Total(l)
    decreases |l|
  {
    if l == [] {
      CategoryTotalsOfEmpty(ks);
    } else {
      var n := |l| - 1;
      assert l == l[..n] + [l[n]];
      CategoryTotalsCover(l[..n], ks);
      CategoryTotalsSnoc(l[..n], l[n], ks);
    }
  }

  lemma {:induction false} SumValuesOfBuckets(l: seq<Expense>, ks: seq<string>)
    requires forall i :: 0 <= i < |ks| ==> ks[i] in TotalByCategory(l)
    ensures SumValues(TotalByCategory(l), ks) == CategoryTotals(l, ks)
  {
    if ks != [] {
      SumValuesOfBuckets(l, ks[1..]);
    }
  }

  /** Consistency of the two aggregates: however the keys of
      `totalByCategory` are enumerated, its values add up to `totalAmount`. */
  lemma BucketsSumToTotal(l: seq<Expense>, ks: seq<string>)
    requires NoDuplicates(ks)
    requires forall c :: c in TotalByCategory(l) <==> c in ks
    ensures forall i :: 0 <= i < |ks| ==> ks[i] in TotalByCategory(l)
    ensures SumValues(TotalByCategory(l), ks) == Total(l)
  {
    var m := TotalByCategory(l);
    forall i | 0 <= i < |l|
      ensures l[i].category in ks
    {
      assert Occurs(l, l[i].category);
    }
    SumValuesOfBuckets(l, ks);
    CategoryTotalsCover(l, ks);
  }

  // ------------------------------------------------------------ conversion

  /** `expense.copy(amount = from.convert(expense.amount, to))`. */
  function Converted(e: Expense, from: Currency, to: Currency): (r: Expense)
    ensures r == e.(amount := r.amount)
    ensures ValueInBam(to, r.amount) == ValueInBam(from, e.amount)
  {
    e.(amount := Convert(e.amount, from, to))
  }

  /** Every record of `l` with its amount converted. */
  function ConvertAll(l: seq<Expense>, from: Currency, to: Currency): (r: seq<Expense>)
    ensures |r| == |l|
    ensures forall i :: 0 <= i < |l| ==> r[i] == Converted(l[i], from, to)
  {
    if l == [] then []
    else ConvertAll(l[..|l| - 1], from, to) + [Converted(l[|l| - 1], from, to)]
  }

  /** Converting every record converts the total: by linearity, the sum of
      the converted amounts is the converted sum. */
  lemma {:induction false} TotalOfConverted(l: seq<Expense>, from: Currency, to: Currency)
    ensures Total(ConvertAll(l, from, to)) == Convert(Total(l), from, to)
  {
    if l != [] {
      var n := |l| - 1;
      var c := ConvertAll(l, from, to);
      assert c[..n] == ConvertAll(l[..n], from, to);
      TotalOfConverted(l[..n], from, to);
      ConvertAdditive(Total(l[..n]), l[n].amount, from, to);
    }
  }

  /** Some record of `l` has primary key `k`. */
  predicate Listed(l: seq<Expense>, k: int)
  {
    exists i :: 0 <= i < |l| && l[i].id == k
  }

  /** The position of the last record of `l` with primary key `k`. */
  function LastOf(l: seq<Expense>, k: int): (i: int)
    requires Listed(l, k)
    ensures 0 <= i < |l| && l[i].id == k
    ensures forall j :: i < j < |l| ==> l[j].id != k
  {
    var n := |l| - 1;
    if l[n].id == k then n
    else
      var j :| 0 <= j < |l| && l[j].id == k;
      assert l[..n][j] == l[j];
      LastOf(l[..n], k)
  }

  /** The conversion loop of `setCurrency`: `repository.update` of each
      record of `l`, in order, with its amount converted. Rows whose key no
      record of `l` carries keep their contents; a row that some record of
      `l` names ends up as the last of those records, converted, since later
      updates overwrite earlier ones; the key set never changes. */
  function ConvertRows(t: Table, l: seq<Expense>, from: Currency, to: Currency): (r: Table)
    ensures r.rows.Keys == t.rows.Keys && r.lastId == t.lastId
    ensures forall k :: k in t.rows && !Listed(l, k) ==> r.rows[k] == t.rows[k]
    ensures forall k :: k in t.rows && Listed(l, k) ==> r.rows[k] == Converted(l[LastOf(l, k)], from, to)
    ensures Valid(t) ==> Valid(r)
  {
    if l == [] then t
    else
      var n := |l| - 1;
      var prev := ConvertRows(t, l[..n], from, to);
      var r := Update(prev, Converted(l[n], from, to));
      ConvertRowsStep(t, l, l[..n], prev, r, from, to);
      r
  }

  lemma ConvertRowsStep(t: Table, l: seq<Expense>, p: seq<Expense>, prev: Table, r: Table, from: Currency, to: Currency)
    requires l != [] && p == l[..|l| - 1]
    requires prev.rows.Keys == t.rows.Keys
    requires forall k :: k in t.rows && !Listed(p, k) ==> prev.rows[k] == t.rows[k]
    requires forall k :: k in t.rows && Listed(p, k) ==> prev.rows[k] == Converted(p[LastOf(p, k)], from, to)
    requires r == Update(prev, Converted(l[|l| - 1], from, to))
    ensures forall k :: k in t.rows && !Listed(l, k) ==> r.rows[k] == t.rows[k]
    ensures forall k :: k in t.rows && Listed(l, k) ==> r.rows[k] == Converted(l[LastOf(l, k)], from, to)
  {
    var n := |l| - 1;
    forall k | k in t.rows && !Listed(l, k)
      ensures r.rows[k] == t.rows[k]
    {
      assert l[n].id != k;
    }
    forall k | k in t.rows && Listed(l, k)
      ensures r.rows[k] == Converted(l[LastOf(l, k)], from, to)
    {
      if l[n].id != k {
        var j :| 0 <= j < |l| && l[j].id == k;
        assert p[j] == l[j];
        assert Listed(p, k);
        assert LastOf(l, k) == LastOf(p, k);
      }
    }
  }

  // ------------------------------------------------------------ state

  /** The filter criteria `filterFrom`, `filterTo`, `filterCategory`. */
  datatype Criteria = Criteria(from: int, to: int, category: Option<string>)

  /** One snapshot of the view model and what lies behind it: the table, the
      criteria, the `currency` LiveData (null when unset), the currency saved
      in the settings, and `expenses`, the list last delivered (null before
      the first delivery). */
  datatype State = State(
    table: Table,
    criteria: Criteria,
    currency: Option<Currency>,
    savedCurrency: Currency,
    expenses: Option<seq<Expense>>)

  /** What the query for the current criteria returns against the table. */
  function Visible(s: State): seq<Expense>
    requires Valid(s.table)
  {
    GetFilteredExpenses(s.table, s.criteria.from, s.criteria.to, s.criteria.category)
  }

  /** The query's LiveData delivering: `expenses` becomes the current query
      result (stored rows passing the criteria, each once, newest first);
      nothing else changes. */
  function Publish(s: State): (r: State)
    requires Valid(s.table)
    ensures r == s.(expenses := r.expenses) && r.expenses.Some?
    ensures SortedByDateDesc(r.expenses.value)
    ensures forall i :: 0 <= i < |r.expenses.value| ==>
              Matches(r.expenses.value[i], s.criteria.from, s.criteria.to, s.criteria.category)
    ensures forall i :: 0 <= i < |r.expenses.value| ==>
              r.expenses.value[i].id in s.table.rows && s.table.rows[r.expenses.value[i].id] == r.expenses.value[i]
    ensures forall k :: k in s.table.rows && Matches(s.table.rows[k], s.criteria.from, s.criteria.to, s.criteria.category) ==>
              multiset(r.expenses.value)[s.table.rows[k]] == 1
  {
    s.(expenses := Some(Visible(s)))
  }

  /** `setFilter(from, to, category)`: replaces all three criteria and
      nothing else; the new list arrives with the next `Publish`. */
  function SetFilter(s: State, from: int, to: int, category: Option<string>): (r: State)
    ensures r.criteria.from == from && r.criteria.to == to && r.criteria.category == category
    ensures r == s.(criteria := r.criteria)
  {
    s.(criteria := Criteria(from, to, category))
  }

  /** `setCurrency(newCurrency)`. The old currency is the current one, BAM when
      unset. Choosing it again changes nothing. Otherwise the current and the
      saved currency become `newCurrency`, and, when a list has been delivered,
      every record on it is written back with its amount converted from the
      old currency to the new (the last one wins when a key is listed twice);
      rows not on the list are untouched. */
  function SetCurrency(s: State, newCurrency: Currency): (r: State)
    ensures s.currency.GetOr(BAM) == newCurrency ==> r == s
    ensures s.currency.GetOr(BAM) != newCurrency ==>
              r.currency == Some(newCurrency) && r.savedCurrency == newCurrency &&
              r.criteria == s.criteria && r.expenses == s.expenses
    ensures r.table.rows.Keys == s.table.rows.Keys && r.table.lastId == s.table.lastId
    ensures s.expenses.None? ==> r.table == s.table
    ensures s.expenses.Some? ==>
              forall k :: k in s.table.rows && !Listed(s.expenses.value, k) ==> r.table.rows[k] == s.table.rows[k]
    ensures s.currency.GetOr(BAM) != newCurrency && s.expenses.Some? ==>
              forall k :: k in s.table.rows && Listed(s.expenses.value, k) ==>
                r.table.rows[k] == Converted(s.expenses.value[LastOf(s.expenses.value, k)], s.currency.GetOr(BAM), newCurrency)
    ensures Valid(s.table) ==> Valid(r.table)
  {
    var oldCurrency := s.currency.GetOr(BAM);
    if oldCurrency == newCurrency then s
    else
      var switched := s.(currency := Some(newCurrency), savedCurrency := newCurrency);
      match s.expenses
      case None => switched
      case Some(l) => switched.(table := ConvertRows(s.table, l, oldCurrency, newCurrency))
  }

  // ------------------------------------------------------------ CRUD

  /** `addExpense`: inserts a new record with no id, so it lands under a
      fresh key; every existing row stays, and nothing but the table changes. */
  function AddExpense(s: State, title: string, amount: real, category: string, note: Option<string>, date: int): (r: State)
    ensures NextKey(s.table) !in s.table.rows
    ensures r.table.rows.Keys == s.table.rows.Keys + {NextKey(s.table)}
    ensures r.table.rows[NextKey(s.table)] == Expense(NextKey(s.table), title, amount, category, note, date)
    ensures forall k :: k in s.table.rows ==> r.table.rows[k] == s.table.rows[k]
    ensures r == s.(table := r.table)
    ensures Valid(s.table) ==> Valid(r.table)
  {
    s.(table := Insert(s.table, Expense(0, title, amount, category, note, date)))
  }

  /** `updateExpense`: the row keyed by the record's id becomes the record;
      nothing else changes. */
  function UpdateExpense(s: State, e: Expense): (r: State)
    ensures r.table.rows.Keys == s.table.rows.Keys && r.table.lastId == s.table.lastId
    ensures e.id in s.table.rows ==> r.table.rows[e.id] == e
    ensures forall k :: k in s.table.rows && k != e.id ==> r.table.rows[k] == s.table.rows[k]
    ensures r == s.(table := r.table)
    ensures Valid(s.table) ==> Valid(r.table)
  {
    s.(table := Update(s.table, e))
  }

  /** `deleteExpense`: the row keyed by the record's id goes; nothing else
      changes. */
  function DeleteExpense(s: State, e: Expense): (r: State)
    ensures r.table.rows.Keys == s.table.rows.Keys - {e.id} && r.table.lastId == s.table.lastId
    ensures forall k :: k in r.table.rows ==> r.table.rows[k] == s.table.rows[k]
    ensures r == s.(table := r.table)
    ensures Valid(s.table) ==> Valid(r.table)
  {
    s.(table := Delete(s.table, e))
  }

  // ------------------------------------------------------------ properties

  /** A record as a switch against an up-to-date list leaves it: converted
      when it passes the criteria, as it was otherwise. */
  function Switched(e: Expense, from: int, to: int, category: Option<string>, oldCurrency: Currency, newCurrency: Currency): Expense
  {
    if Matches(e, from, to, category) then Converted(e, oldCurrency, newCurrency) else e
  }

  /** Re-filtering a table in which exactly the matching rows were converted
      gives the converted filter result. */
  lemma {:induction false} FilterOfConverted(
    before: seq<Expense>, after: seq<Expense>, from: int, to: int, category: Option<string>,
    oldCurrency: Currency, newCurrency: Currency)
    requires |before| == |after|
    requires forall i :: 0 <= i < |before| ==>
               after[i] == Switched(before[i], from, to, category, oldCurrency, newCurrency)
    ensures Filter(after, from, to, category) ==
            ConvertAll(Filter(before, from, to, category), oldCurrency, newCurrency)
  {
    if before != [] {
      var n := |before| - 1;
      FilterOfConverted(before[..n], after[..n], from, to, category, oldCurrency, newCurrency);
    }
  }

  /** Converting a list of stored rows that is exactly the rows passing the
      criteria converts each stored row exactly when it passes them. */
  lemma ConvertRowsOfMatching(
    t: Table, l: seq<Expense>, from: int, to: int, category: Option<string>,
    oldCurrency: Currency, newCurrency: Currency, k: int)
    requires Valid(t)
    requires forall i :: 0 <= i < |l| ==> l[i].id in t.rows && t.rows[l[i].id] == l[i]
    requires forall i :: 0 <= i < |l| ==> Matches(l[i], from, to, category)
    requires k in t.rows
    requires Matches(t.rows[k], from, to, category) ==> t.rows[k] in l
    ensures ConvertRows(t, l, oldCurrency, newCurrency).rows[k] ==
              Switched(t.rows[k], from, to, category, oldCurrency, newCurrency)
  {
    var row := t.rows[k];
    if Matches(row, from, to, category) {
      var i :| 0 <= i < |l| && l[i] == row;
      assert Listed(l, k);
      assert l[LastOf(l, k)] == row;
    }
  }

  /** Converting the up-to-date list converts each stored row exactly when
      it passes the criteria, and leaves the others alone. */
  lemma SwitchedTable(t: Table, l: seq<Expense>, c: Criteria, oldCurrency: Currency, newCurrency: Currency)
    requires Valid(t) && l == GetFilteredExpenses(t, c.from, c.to, c.category)
    ensures var t' := ConvertRows(t, l, oldCurrency, newCurrency);
            t'.rows.Keys == t.rows.Keys &&
            forall k :: k in t.rows ==>
              t'.rows[k] == Switched(t.rows[k], c.from, c.to, c.category, oldCurrency, newCurrency)
  {
    forall k | k in t.rows
      ensures ConvertRows(t, l, oldCurrency, newCurrency).rows[k] ==
                Switched(t.rows[k], c.from, c.to, c.category, oldCurrency, newCurrency)
    {
      if Matches(t.rows[k], c.from, c.to, c.category) {
        assert multiset(l)[t.rows[k]] == 1;
      }
      ConvertRowsOfMatching(t, l, c.from, c.to, c.category, oldCurrency, newCurrency, k);
    }
  }

  /** Two tables with the same keys list their rows in the same key order,
      so a row-by-row relation between the tables carries over to the
      listings. */
  lemma SwitchedRows(t: Table, t': Table, c: Criteria, oldCurrency: Currency, newCurrency: Currency)
    requires t'.rows.Keys == t.rows.Keys
    requires forall k :: k in t.rows ==>
               t'.rows[k] == Switched(t.rows[k], c.from, c.to, c.category, oldCurrency, newCurrency)
    ensures var before, after := Rows(t), Rows(t');
            |before| == |after| &&
            forall i :: 0 <= i < |before| ==>
              after[i] == Switched(before[i], c.from, c.to, c.category, oldCurrency, newCurrency)
  {
    var ks := Ascending(t.rows.Keys);
    assert Ascending(t'.rows.Keys) == ks;
    assert Rows(t) == RowsAt(t.rows, ks);
    assert Rows(t') == RowsAt(t'.rows, ks);
    assert forall i :: 0 <= i < |ks| ==> ks[i] in t.rows;
    SwitchedRowsAt(t.rows, t'.rows, ks, c, oldCurrency, newCurrency);
  }

  lemma SwitchedRowsAt(m: map<int, Expense>, m': map<int, Expense>, ks: seq<int>, c: Criteria, oldCurrency: Currency, newCurrency: Currency)
    requires m'.Keys == m.Keys
    requires forall i :: 0 <= i < |ks| ==> ks[i] in m
    requires forall k :: k in m ==>
               m'[k] == Switched(m[k], c.from, c.to, c.category, oldCurrency, newCurrency)
    ensures var before, after := RowsAt(m, ks), RowsAt(m', ks);
            |before| == |after| &&
            forall i :: 0 <= i < |before| ==>
              after[i] == Switched(before[i], c.from, c.to, c.category, oldCurrency, newCurrency)
  {
    var before, after := RowsAt(m, ks), RowsAt(m', ks);
    forall i | 0 <= i < |before|
      ensures after[i] == Switched(before[i], c.from, c.to, c.category, oldCurrency, newCurrency)
    {
      var k := ks[i];
      assert k in m;
      assert m'[k] == Switched(m[k], c.from, c.to, c.category, oldCurrency, newCurrency);
      assert before[i] == m[k] && after[i] == m'[k];
    }
  }

  /** Currency-switch consistency: when the switch acts on an up-to-date
      list, running the same query afterwards totals exactly the old total
      converted from the old currency to the new. */
  lemma SwitchConvertsTotal(s: State, newCurrency: Currency)
    requires Valid(s.table) && s.expenses == Some(Visible(s))
    ensures Valid(SetCurrency(s, newCurrency).table)
    ensures Total(Visible(SetCurrency(s, newCurrency))) ==
            Convert(Total(Visible(s)), s.currency.GetOr(BAM), newCurrency)
  {
    var oldCurrency := s.currency.GetOr(BAM);
    var r := SetCurrency(s, newCurrency);
    if oldCurrency != newCurrency {
      var c := s.criteria;
      var l := Visible(s);
      assert r.table == ConvertRows(s.table, l, oldCurrency, newCurrency);
      SwitchedTable(s.table, l, c, oldCurrency, newCurrency);
      SwitchedRows(s.table, r.table, c, oldCurrency, newCurrency);
      var before := Rows(s.table);
      var after := Rows(r.table);
      var fb := Filter(before, c.from, c.to, c.category);
      var fa := Filter(after, c.from, c.to, c.category);
      FilterOfConverted(before, after, c.from, c.to, c.category, oldCurrency, newCurrency);
      assert multiset(Visible(s)) == multiset(fb);
      assert multiset(Visible(r)) == multiset(fa);
      TotalPermutation(Visible(s), fb);
      TotalPermutation(Visible(r), fa);
      TotalOfConverted(fb, oldCurrency, newCurrency);
    }
  }

  /** Every stored amount, and every amount on the delivered list, is
      positive: what the save dialog lets through. */
  predicate PositiveAmounts(s: State)
  {
    && (forall k :: k in s.table.rows ==> s.table.rows[k].amount > 0.0)
    && (s.expenses.Some? ==> forall i :: 0 <= i < |s.expenses.value| ==> s.expenses.value[i].amount > 0.0)
  }

  /** A currency switch keeps every amount positive. */
  lemma SetCurrencyKeepsPositive(s: State, newCurrency: Currency)
    requires PositiveAmounts(s)
    ensures PositiveAmounts(SetCurrency(s, newCurrency))
  {
    var r := SetCurrency(s, newCurrency);
    if s.currency.GetOr(BAM) != newCurrency && s.expenses.Some? {
      var l := s.expenses.value;
      forall k | k in r.table.rows
        ensures r.table.rows[k].amount > 0.0
      {
        if Listed(l, k) {
          var i := LastOf(l, k);
          assert l[i].amount > 0.0;
        }
      }
    }
  }

  /** Delivering the query result keeps every amount positive. */
  lemma PublishKeepsPositive(s: State)
    requires Valid(s.table) && PositiveAmounts(s)
    ensures PositiveAmounts(Publish(s))
  {
    var l := Publish(s).expenses.value;
    forall i | 0 <= i < |l|
      ensures l[i].amount > 0.0
    {
      assert l[i] == s.table.rows[l[i].id];
    }
  }
}
