/** The rules of the main screen (ui/MainActivity.kt) that are logic rather
    than layout: the category filter, the currency spinner, and the save
    button of the add/edit dialog. */
module MainActivity {
  import opened Options
  import opened Currencies
  import opened Expenses
  import opened ExpenseDao
  import opened ExpenseViewModel

  /** The category spinner's entries. */
  const Categories: seq<string> := ["Sve", "Hrana", "Prijevoz", "Stan", "Zabava", "Ostalo"]

  /** The first entry, "Sve" ("all"): no category filter. */
  const All: string := "Sve"

  /** `Long.MAX_VALUE`. */
  const MaxLong: int := 0x7FFF_FFFF_FFFF_FFFF

  // ------------------------------------------------------------ spinners

  /** The currency spinner: position 0 ("BAM (KM)") selects BAM, every other
      position EUR. */
  function CurrencyAt(position: int): (c: Currency)
    ensures c == BAM <==> position == 0
    ensures c == EUR <==> position != 0
  {
    if position == 0 then BAM else EUR
  }

  /** What `applyFilter` leaves behind: the remembered last selection, and
      the `setFilter` call it made, if it made one. */
  datatype FilterStep = FilterStep(lastCategory: Option<string>, command: Option<Criteria>)

  /** `applyFilter` for the selection `selected`: a repeat of the last
      selection does nothing; otherwise the selection is remembered and the
      filter is set to the whole date range `0 .. Long.MAX_VALUE`, with no
      category for "Sve" and exactly the selected category otherwise. */
  function ApplyFilter(lastCategory: Option<string>, selected: string): (r: FilterStep)
    ensures lastCategory == Some(selected) ==> r == FilterStep(lastCategory, None)
    ensures lastCategory != Some(selected) ==> r.lastCategory == Some(selected) && r.command.Some?
    ensures r.command.Some? ==> r.command.value.from == 0 && r.command.value.to == MaxLong
    ensures r.command.Some? ==> (r.command.value.category.None? <==> selected == All)
    ensures r.command.Some? && selected != All ==> r.command.value.category == Some(selected)
  {
    if lastCategory == Some(selected) then FilterStep(lastCategory, None)
    else FilterStep(Some(selected), Some(Criteria(0, MaxLong, if selected == All then None else Some(selected))))
  }

  /** Selecting the same entry twice in a row changes the filter at most
      once: the second selection issues no `setFilter`. */
  lemma ReselectIsIdle(lastCategory: Option<string>, selected: string)
    ensures ApplyFilter(ApplyFilter(lastCategory, selected).lastCategory, selected).command == None
  {
  }

  /** Choosing "Sve" (when it is not already chosen) and letting the list
      arrive shows every stored record dated from 1970 up to `Long.MAX_VALUE`,
      once each, and nothing dated before 1970. */
  lemma AllShowsWholeRange(s: State, lastCategory: Option<string>)
    requires Valid(s.table)
    requires lastCategory != Some(All)
    ensures var cmd := ApplyFilter(lastCategory, All).command.value;
            var l := Publish(SetFilter(s, cmd.from, cmd.to, cmd.category)).expenses.value;
            && (forall k :: k in s.table.rows && 0 <= s.table.rows[k].date <= MaxLong ==>
                  multiset(l)[s.table.rows[k]] == 1)
            && (forall i :: 0 <= i < |l| ==> 0 <= l[i].date)
  {
    var cmd := ApplyFilter(lastCategory, All).command.value;
    var s' := SetFilter(s, cmd.from, cmd.to, cmd.category);
    assert cmd == Criteria(0, MaxLong, None);
    var l := Publish(s').expenses.value;
    forall k | k in s.table.rows && 0 <= s.table.rows[k].date <= MaxLong
      ensures multiset(l)[s.table.rows[k]] == 1
    {
      assert Matches(s.table.rows[k], 0, MaxLong, None);
    }
  }

  // ------------------------------------------------------------ text input

  /** Kotlin's `Char.isWhitespace()`: the Unicode space, line and paragraph
      separators, and the whitespace control characters. */
  predicate IsWhitespace(ch: char)
  {
    || ('\t' <= ch <= '\r')
    || ('\U{001C}' <= ch <= ' ')
    || ch == '\U{00A0}' || ch == '\U{1680}'
    || ('\U{2000}' <= ch <= '\U{200A}')
    || ch == '\U{2028}' || ch == '\U{2029}' || ch == '\U{202F}' || ch == '\U{205F}' || ch == '\U{3000}'
  }

  /** Kotlin's `isBlank()`: empty, or whitespace only. */
  predicate IsBlank(s: string)
  {
    forall i :: 0 <= i < |s| ==> IsWhitespace(s[i])
  }

  /** `s` without its leading whitespace. */
  function TrimStart(s: string): (r: string)
    ensures |r| <= |s| && r == s[|s| - |r|..]
    ensures IsBlank(s[..|s| - |r|])
    ensures r == [] || !IsWhitespace(r[0])
  {
    if s != [] && IsWhitespace(s[0]) then
      var r := TrimStart(s[1..]);
      assert s[..|s| - |r|] == [s[0]] + s[1..][..|s| - 1 - |r|];
      r
    else s
  }

  /** `s` without its trailing whitespace. */
  function TrimEnd(s: string): (r: string)
    ensures |r| <= |s| && r == s[..|r|]
    ensures IsBlank(s[|r|..])
    ensures r == [] || !IsWhitespace(r[|r| - 1])
  {
    if s != [] && IsWhitespace(s[|s| - 1]) then
      var r := TrimEnd(s[..|s| - 1]);
      assert s[|r|..] == s[..|s| - 1][|r|..] + [s[|s| - 1]];
      r
    else s
  }

  /** `r` is `s` with its whitespace removed from both ends: a slice of `s`
      with only whitespace around it, empty exactly when `s` is blank, and
      otherwise starting and ending with a non-whitespace character. */
  predicate TrimmedFrom(s: string, r: string)
  {
    && (exists i :: 0 <= i <= |s| - |r| && r == s[i..i + |r|] && IsBlank(s[..i]) && IsBlank(s[i + |r|..]))
    && (r == [] || (!IsWhitespace(r[0]) && !IsWhitespace(r[|r| - 1])))
    && (r == [] <==> IsBlank(s))
  }

  /** Kotlin's `trim()`. */
  function Trim(s: string): (r: string)
    ensures TrimmedFrom(s, r)
  {
    var front := TrimStart(s);
    var r := TrimEnd(front);
    TrimSlice(s, front, r);
    r
  }

  lemma TrimSlice(s: string, front: string, r: string)
    requires |front| <= |s| && front == s[|s| - |front|..] && IsBlank(s[..|s| - |front|])
    requires front == [] || !IsWhitespace(front[0])
    requires |r| <= |front| && r == front[..|r|] && IsBlank(front[|r|..])
    requires r == [] || !IsWhitespace(r[|r| - 1])
    ensures TrimmedFrom(s, r)
  {
    var i := |s| - |front|;
    assert r == s[i..i + |r|] by {
      forall k | 0 <= k < |r|
        ensures r[k] == s[i + k]
      {
        assert r[k] == front[k];
      }
    }
    assert IsBlank(s[i + |r|..]) by {
      assert s[i + |r|..] == front[|r|..];
    }
    if r == [] {
      assert front == [];
      assert s == s[..i];
    } else {
      assert r[0] == front[0];
      assert !IsBlank(s) by {
        assert s[i] == front[0];
      }
    }
  }

  /** The note field: `.trim().ifEmpty { null }`. A blank note is no note;
      any other note is kept trimmed. */
  function NoteOf(text: string): (r: Option<string>)
    ensures r.None? <==> IsBlank(text)
    ensures r.Some? ==> r.value == Trim(text) && r.value != []
  {
    var t := Trim(text);
    if t == [] then None else Some(t)
  }

  // ------------------------------------------------------------ saving

  /** What pressing "Spremi" (save) asks of the view model. */
  datatype SaveAction =
    | Rejected
    | Add(title: string, amount: real, category: string, note: Option<string>, date: int)
    | Edit(expense: Expense)

  /** The save button of the add/edit dialog. `amount` is what
      `toDoubleOrNull` made of the amount field (None when it is not a
      number). The input is rejected when the title is blank, the amount is
      not a number, or the amount is not positive; otherwise a new record is
      added, or the record being edited keeps its id and takes the new
      title, amount, category, note and date. */
  function Save(editing: Option<Expense>, titleText: string, amount: Option<real>,
                category: string, noteText: string, date: int): (r: SaveAction)
    ensures r.Rejected? <==> IsBlank(titleText) || amount.None? || amount.value <= 0.0
    ensures r.Add? <==> !r.Rejected? && editing.None?
    ensures r.Add? ==>
              && r.title == Trim(titleText) && r.title != [] && r.amount == amount.value && r.amount > 0.0
              && r.category == category && r.note == NoteOf(noteText) && r.date == date
    ensures r.Edit? ==>
              && editing.Some? && r.expense.id == editing.value.id
              && r.expense.title == Trim(titleText) && r.expense.title != []
              && r.expense.amount == amount.value && r.expense.amount > 0.0
              && r.expense.category == category && r.expense.note == NoteOf(noteText) && r.expense.date == date
  {
    var title := Trim(titleText);
    var note := NoteOf(noteText);
    if IsBlank(title) || amount.None? || amount.value <= 0.0 then Rejected
    else
      match editing
      case None => Add(title, amount.value, category, note, date)
      case Some(e) => Edit(e.(title := title, amount := amount.value, category := category, note := note, date := date))
  }

  /** Hands a save action to the view model: nothing for a rejected input,
      `addExpense` for a new record, `updateExpense` for an edited one. */
  function Submit(s: State, action: SaveAction): (r: State)
    ensures action.Rejected? ==> r == s
    ensures action.Add? ==> r == AddExpense(s, action.title, action.amount, action.category, action.note, action.date)
    ensures action.Edit? ==> r == UpdateExpense(s, action.expense)
    ensures r == s.(table := r.table)
    ensures Valid(s.table) ==> Valid(r.table)
  {
    match action
    case Rejected => s
    case Add(title, amount, category, note, date) => AddExpense(s, title, amount, category, note, date)
    case Edit(e) => UpdateExpense(s, e)
  }

  /** Whatever the dialog saves keeps every stored amount positive: the
      validation is what makes positivity an invariant of the table. */
  lemma SaveKeepsPositive(s: State, editing: Option<Expense>, titleText: string, amount: Option<real>,
                          category: string, noteText: string, date: int)
    requires PositiveAmounts(s)
    ensures PositiveAmounts(Submit(s, Save(editing, titleText, amount, category, noteText, date)))
  {
    var action := Save(editing, titleText, amount, category, noteText, date);
    var r := Submit(s, action);
    assert r.expenses == s.expenses;
    match action
    case Rejected =>
    case Add(title, a, c, note, d) =>
      var key := NextKey(s.table);
      forall k | k in r.table.rows
        ensures r.table.rows[k].amount > 0.0
      {
        if k == key {
          assert r.table.rows[k].amount == a;
        } else {
          assert k in s.table.rows;
        }
      }
    case Edit(e) =>
      forall k | k in r.table.rows
        ensures r.table.rows[k].amount > 0.0
      {
        if k == e.id {
          assert r.table.rows[k] == e;
        }
      }
  }
}
