/** The expense record (data/Expense.kt): one row of the `expenses` table. */
module Expenses {
  import opened Options

  /** `id` is the auto-generated primary key (0 means "not yet assigned");
      `date` is a timestamp in milliseconds; `amount` is held in whichever
      currency was active when it was entered or last converted. */
  datatype Expense = Expense(
    id: int,
    title: string,
    amount: real,
    category: string,
    note: Option<string>,
    date: int)

  /** No two entries of `s` share a primary key. */
  predicate DistinctIds(s: seq<Expense>)
  {
    forall i, j :: 0 <= i < j < |s| ==> s[i].id != s[j].id
  }

  /** Entries with distinct primary keys occur at most once: every entry of
      such a sequence has multiplicity exactly one. */
  lemma {:induction false} OnceEach(s: seq<Expense>, x: Expense)
    requires DistinctIds(s)
    requires x in s
    ensures multiset(s)[x] == 1
  {
    var n := |s| - 1;
    var init := s[..n];
    assert s == init + [s[n]];
    if x == s[n] {
      assert x !in init by {
        forall i | 0 <= i < |init|
          ensures init[i] != x
        {
          assert init[i] == s[i];
        }
      }
    } else {
      assert x in init;
      assert DistinctIds(init) by {
        forall i, j | 0 <= i < j < |init|
          ensures init[i].id != init[j].id
        {
          assert init[i] == s[i] && init[j] == s[j];
        }
      }
      OnceEach(init, x);
    }
  }
}
