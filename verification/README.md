# Expense tracker core, modelled in Dafny

This project models the logic underneath an Android expense-tracking app.
An expense record has an id, title, amount, category, optional note and a
millisecond date. Records live in an id-keyed table. The app shows the
records of one date range and one category, newest first. It shows their
total and a total per category. It can switch the display currency between
convertible marks (BAM) and euros (EUR) at the fixed rate 1.96 BAM per EUR.
A switch rewrites the amounts of the records currently on screen.

Amounts are Dafny `real`s, so the conversion laws hold exactly in the model.
Everything is modelled as pure functions over immutable values:

- `options.dfy` (`Options`): Kotlin's nullable types as `Option`, with the elvis operator `?:` as `GetOr`.
- `currency.dfy` (`Currencies`): the `Currency` enum and `convert`. A conversion is judged by `ValueInBam`, which gives what an amount is worth in marks.
- `expense.dfy` (`Expenses`): the `Expense` record.
- `dao.dfy` (`ExpenseDao`): the `getFilteredExpenses` query, as filter plus ordering over a sequence of rows.
  The `expenses` table is a map from primary key to row, plus the AUTOINCREMENT high-water mark.
  Insert (REPLACE on conflict), update and delete work by primary key.
  Room binds an id of 0 as NULL for an auto-generated key, so SQLite picks the key: one more than the larger of the high-water mark and the largest key.
- `viewmodel.dfy` (`ExpenseViewModel`): `totalAmount`, `totalByCategory`, `setFilter`, `setCurrency` and the CRUD commands, as transitions of one `State`.
  `State` holds the table, the filter criteria, the `currency` value (null when unset), the saved currency setting, and the list last delivered to `expenses`.
  LiveData delivering a fresh query result is the explicit step `Publish`.
- `mainactivity.dfy` (`MainActivity`): `applyFilter`, the currency spinner mapping, and the save button of the add/edit dialog.
  The dialog's trimming follows Kotlin's `trim()`/`isBlank()` and its notion of whitespace.

Points where the code's behaviour is easy to misread, and what the model does:

- `ORDER BY date DESC` (`ExpenseDao.kt:13`) fixes no order among records with equal dates. So the model promises only date order and the exact multiset of rows.
- A currency switch reports no per-record failures, and neither does the model.
- `setCurrency` sets and saves the new currency before it converts anything (`ExpenseViewModel.kt:89-94`). The model gives the end state of the whole switch.
- A switch converts the list last delivered to `expenses` (`ExpenseViewModel.kt:92`). That list can be older than the table. Each update then writes the delivered copy back over the row with that key, with only the amount converted. When a key is listed twice, the later update wins. A row deleted since delivery stays deleted. `SetCurrency` states exactly this. `SwitchConvertsTotal` gives the value-preservation law for the case where the delivered list is up to date.

## Model

| member | source | states |
|---|---|---|
| `Currencies.Convert` | app/src/main/java/com/example/expensestracker/data/Currency.kt:7-14 | Same currency returns the amount exactly. Otherwise the result is worth exactly what the input was worth (same value in BAM). A positive amount stays positive, and zero stays zero. |
| `Currencies.ConvertDirections` | app/src/main/java/com/example/expensestracker/data/Currency.kt:11-12 | BAM to EUR is `amount / 1.96`. EUR to BAM is `amount * 1.96`. |
| `Currencies.RoundTrip` | app/src/main/java/com/example/expensestracker/data/Currency.kt:10-13 | Converting X to Y and back to X gives the original amount exactly, for every pair of currencies. |
| `Currencies.ConvertAdditive` | app/src/main/java/com/example/expensestracker/data/Currency.kt:10-13 | Conversion is linear: converting a sum equals summing the conversions. |
| `Expenses.OnceEach` | app/src/main/java/com/example/expensestracker/data/Expense.kt:8-9 | In a list where no two records share a primary key, every record occurs exactly once. |
| `ExpenseDao.Filter` | app/src/main/java/com/example/expensestracker/data/ExpenseDao.kt:11-12 | Every kept row passes `from <= date <= to` and the category test. Every row passing both is kept as often as it occurs. Nothing else is kept. |
| `ExpenseDao.InsertByDate` | app/src/main/java/com/example/expensestracker/data/ExpenseDao.kt:13 | Placing a record into a list ordered by date descending keeps that order and adds exactly that record. |
| `ExpenseDao.SortByDateDesc` | app/src/main/java/com/example/expensestracker/data/ExpenseDao.kt:13 | The result is ordered by date, never increasing, and is a permutation of the input. |
| `ExpenseDao.Select` | app/src/main/java/com/example/expensestracker/data/ExpenseDao.kt:9-19 | Every result row satisfies `from <= date <= to` (both ends inclusive). With a null category any category matches; otherwise every row has exactly that category. Every stored row passing both tests appears as often as it is stored, and nothing else appears. The result is newest first. When `from > to` it is empty. |
| `ExpenseDao.RowsListTable` | app/src/main/java/com/example/expensestracker/data/ExpenseDao.kt:10 | The listing the query scans holds every stored row and only stored rows. No two of its rows share a primary key. |
| `ExpenseDao.GetFilteredExpenses` | app/src/main/java/com/example/expensestracker/data/ExpenseDao.kt:9-19 | Against the table: only stored rows, and only rows passing the WHERE clause. Every stored row that passes appears exactly once. The result is newest first, and empty when `from > to`. |
| `ExpenseDao.InsertKey` | app/src/main/java/com/example/expensestracker/data/Expense.kt:8-9 | An id of 0 (the Kotlin default under `autoGenerate = true`) is bound as NULL, so the row gets a key that is not in use and lies above the high-water mark. Any other id is used as given. |
| `ExpenseDao.NextKey` | app/src/main/java/com/example/expensestracker/data/Expense.kt:8-9 | An auto-generated key is not in use and is above the high-water mark, so it was never used before. |
| `ExpenseDao.Insert` | app/src/main/java/com/example/expensestracker/data/ExpenseDao.kt:21-22 | Afterwards the record is stored under its key, and any earlier row with that key is replaced. All other rows are unchanged. An id of 0 gets a fresh key, so nothing is replaced. The table invariant is kept. |
| `ExpenseDao.Update` | app/src/main/java/com/example/expensestracker/data/ExpenseDao.kt:24-25 | Only the row with the record's id is replaced. The key set and all other rows are unchanged. An unknown id changes nothing. |
| `ExpenseDao.Delete` | app/src/main/java/com/example/expensestracker/data/ExpenseDao.kt:27-28 | Only the row with the record's id is removed. All other rows are unchanged. |
| `ExpenseViewModel.Total` | app/src/main/java/com/example/expensestracker/ui/ExpenseViewModel.kt:63-65 | The reference definition of `totalAmount`: the amounts summed from the first record to the last. It is 0 for an empty list. `SumOf`, `TotalAppend` and `TotalPermutation` relate it to the loop, to concatenation and to reordering. |
| `ExpenseViewModel.TotalSign` | app/src/main/java/com/example/expensestracker/ui/ExpenseViewModel.kt:63-65 | With no negative amounts the total is not negative. With only positive amounts it is positive exactly when the list is not empty. |
| `ExpenseViewModel.SumOf` | app/src/main/java/com/example/expensestracker/ui/ExpenseViewModel.kt:63-65 | The `sumOf` loop returns the running sum of the amounts, which is 0 for an empty list. |
| `ExpenseViewModel.TotalAppend` | app/src/main/java/com/example/expensestracker/ui/ExpenseViewModel.kt:63-65 | The total of two lists put together is the sum of their totals. |
| `ExpenseViewModel.TotalPermutation` | app/src/main/java/com/example/expensestracker/ui/ExpenseViewModel.kt:63-65 | The total does not depend on order, so ties in the date ordering cannot change it. |
| `ExpenseViewModel.OfCategory` | app/src/main/java/com/example/expensestracker/ui/ExpenseViewModel.kt:68 | A group holds only records of its category. A category with no records has an empty group. |
| `ExpenseViewModel.OfCategoryContents` | app/src/main/java/com/example/expensestracker/ui/ExpenseViewModel.kt:68 | A group holds every record of its category, as often as the list does, and no record of any other category. So the groups partition the list record by record. |
| `ExpenseViewModel.TotalByCategory` | app/src/main/java/com/example/expensestracker/ui/ExpenseViewModel.kt:67-72 | The keys are exactly the categories on the list, so no bucket is empty. Each bucket holds the sum of the amounts of that category's records. |
| `ExpenseViewModel.CategoryTotalsSnoc` | app/src/main/java/com/example/expensestracker/ui/ExpenseViewModel.kt:67-72 | Appending a record adds its amount to exactly one group total, the one for its own category. |
| `ExpenseViewModel.CategoryTotalsCover` | app/src/main/java/com/example/expensestracker/ui/ExpenseViewModel.kt:67-72 | Groups over distinct categories that cover the list partition it: their totals add up to the list's total. |
| `ExpenseViewModel.BucketsSumToTotal` | app/src/main/java/com/example/expensestracker/ui/ExpenseViewModel.kt:63-72 | In any enumeration of `totalByCategory`'s keys, the bucket values add up to `totalAmount`. |
| `ExpenseViewModel.Converted` | app/src/main/java/com/example/expensestracker/ui/ExpenseViewModel.kt:96-100 | `copy(amount = …)` changes only the amount. The new amount in the new currency is worth exactly what the old amount was worth in the old currency. |
| `ExpenseViewModel.ConvertAll` | app/src/main/java/com/example/expensestracker/ui/ExpenseViewModel.kt:95-100 | Each record is copied with only its amount converted. Length and order are kept. |
| `ExpenseViewModel.TotalOfConverted` | app/src/main/java/com/example/expensestracker/ui/ExpenseViewModel.kt:95-101 | The total of the converted records equals the old total converted from the old currency to the new. |
| `ExpenseViewModel.ConvertRows` | app/src/main/java/com/example/expensestracker/ui/ExpenseViewModel.kt:94-103 | The update loop keeps the key set and the high-water mark. Rows that no listed record names are unchanged. A row that listed records name becomes the last of them, with its amount converted, because later updates overwrite earlier ones. |
| `ExpenseViewModel.Publish` | app/src/main/java/com/example/expensestracker/ui/ExpenseViewModel.kt:48-61 | A delivery sets `expenses` to the current query result. Every delivered record is the row stored under its id and passes the criteria. Every stored row that passes appears exactly once, and the list is newest first. Nothing else changes. |
| `ExpenseViewModel.SetFilter` | app/src/main/java/com/example/expensestracker/ui/ExpenseViewModel.kt:77-81 | All three criteria take the given values. Nothing else changes. |
| `ExpenseViewModel.SetCurrency` | app/src/main/java/com/example/expensestracker/ui/ExpenseViewModel.kt:85-104 | If the new currency equals the old one (BAM when unset), nothing changes at all. Otherwise the current and saved currency become the new one, and the criteria and the delivered list are unchanged. With no delivered list, no row is touched. Otherwise each row named on the list becomes its last listed record, with the amount converted from old to new. Rows not on the list are untouched, and the key set is unchanged. |
| `ExpenseViewModel.FilterOfConverted` | app/src/main/java/com/example/expensestracker/data/ExpenseDao.kt:11-12 | Re-filtering rows in which exactly the matching ones were converted gives the converted filter result. |
| `ExpenseViewModel.SwitchedTable` | app/src/main/java/com/example/expensestracker/ui/ExpenseViewModel.kt:92-101 | Converting an up-to-date list converts exactly the stored rows that pass the criteria and leaves every other row as it was. |
| `ExpenseViewModel.SwitchConvertsTotal` | app/src/main/java/com/example/expensestracker/ui/ExpenseViewModel.kt:85-104 | Suppose the switch acts on an up-to-date list. Re-running the same query afterwards totals exactly the old total converted from the old currency to the new. |
| `ExpenseViewModel.SetCurrencyKeepsPositive` | app/src/main/java/com/example/expensestracker/ui/ExpenseViewModel.kt:94-101 | A currency switch keeps every stored and listed amount positive. |
| `ExpenseViewModel.PublishKeepsPositive` | app/src/main/java/com/example/expensestracker/ui/ExpenseViewModel.kt:48-61 | A delivery keeps every listed amount positive. |
| `ExpenseViewModel.AddExpense` | app/src/main/java/com/example/expensestracker/ui/ExpenseViewModel.kt:109-127 | The new record is stored under a fresh key with the given fields. Every existing row is kept, and nothing but the table changes. |
| `ExpenseViewModel.UpdateExpense` | app/src/main/java/com/example/expensestracker/ui/ExpenseViewModel.kt:129-133 | Only the row with the record's id changes, and it becomes the record. The key set and high-water mark stay, and nothing but the table changes. |
| `ExpenseViewModel.DeleteExpense` | app/src/main/java/com/example/expensestracker/ui/ExpenseViewModel.kt:135-139 | Only the row with the record's id goes. The high-water mark stays, and nothing but the table changes. |
| `MainActivity.CurrencyAt` | app/src/main/java/com/example/expensestracker/ui/MainActivity.kt:127 | Spinner position 0 is BAM, and every other position is EUR. |
| `MainActivity.ApplyFilter` | app/src/main/java/com/example/expensestracker/ui/MainActivity.kt:148-159 | Reselecting the last category issues nothing. Any other selection is remembered and sets the range `0 .. Long.MAX_VALUE`. "Sve" sets a null category; any other selection sets exactly that category. |
| `MainActivity.ReselectIsIdle` | app/src/main/java/com/example/expensestracker/ui/MainActivity.kt:150-152 | Two selections of the same entry in a row change the filter at most once. |
| `MainActivity.AllShowsWholeRange` | app/src/main/java/com/example/expensestracker/ui/MainActivity.kt:154-158 | Choosing "Sve" and letting the list arrive shows every stored record dated 0 to `Long.MAX_VALUE`, each once. No record dated before 1970 is shown. |
| `MainActivity.Trim` | app/src/main/java/com/example/expensestracker/ui/MainActivity.kt:243 | The result is the slice left after removing whitespace at both ends: only whitespace surrounds it, and it starts and ends with a non-whitespace character. It is empty exactly when the input is blank. |
| `MainActivity.NoteOf` | app/src/main/java/com/example/expensestracker/ui/MainActivity.kt:246 | A blank note becomes null. Any other note is kept trimmed and non-empty. |
| `MainActivity.Save` | app/src/main/java/com/example/expensestracker/ui/MainActivity.kt:242-263 | Save is rejected exactly when the title is blank, the amount is not numeric, or the amount is not positive. Otherwise a new record is added with the trimmed title and normalised note. When editing, the record keeps its id and takes the new title, amount, category, note and date. |
| `MainActivity.Submit` | app/src/main/java/com/example/expensestracker/ui/MainActivity.kt:250-262 | A rejected save changes nothing. A new record goes to `addExpense`, and an edited record goes to `updateExpense`. Only the table changes, and the table invariant is kept. |
| `MainActivity.SaveKeepsPositive` | app/src/main/java/com/example/expensestracker/ui/MainActivity.kt:248 | Whatever the dialog saves keeps every stored amount positive. |

## Left out

- LiveData and `MediatorLiveData` wiring, and the `viewModelScope.launch` coroutines, are asynchronous plumbing. The aggregates are functions of one delivered list. A switch is one sequential transition, and a delivery is the explicit `Publish` step. Sources that `reload()` keeps adding are a delivery-order concern and are not modelled.
- Room, SQLite and the pass-through `ExpenseRepository` are modelled only as functions over a sequence of rows and a map from key to row.
- `ExpenseDao.Select`: promises no order among records with equal dates, because `ORDER BY date DESC` fixes none.
- `ExpenseDao.Insert`: ids and dates are unbounded integers. The 64-bit `Long` limits, and SQLite's refusal to insert once key 2^63-1 has been used, are not modelled.
- `MoneyFormatter` is not modelled: it is `DecimalFormat` locale grouping and `Double` rounding.
- The dark-mode switch is not modelled. `SettingsManager` is only the saved-currency field of `State`.
- `ExpenseAdapter` and the rest of the screen are not modelled: views, the date picker, swipe-to-delete and the delete confirmation.
- The initial filter (from the start of the current month to now) is not modelled: it depends on the clock and calendar. The `?: 0L` and `?: Long.MAX_VALUE` fallbacks in `reload()` are not modelled either, since the initial filter sets both bounds.
- IEEE `Double` rounding is not modelled: amounts are reals. So the round-trip and linearity laws hold exactly only in the model.
- `MainActivity.Save`: `toDoubleOrNull` is a parameter (the parsed amount, or none), not a string parser. Its acceptance of "NaN" and "Infinity", which pass the `amount <= 0` test, is outside a model over reals.
- `MainActivity.Save`: the category is any string. The dialog's spinner limits it to the five named categories.
- The currency spinner's first selection event, fired when the screen is built, is not modelled. `CurrencyAt` covers only the mapping from position to currency.
- `ExpenseViewModel.TotalByCategory`: the result is a Dafny `map`, which has no order. `groupBy` builds a `LinkedHashMap` whose keys come in first-occurrence order, and the summary text (`MainActivity.kt:142`) lists them in that order. The model drops this order.
- Per-record failure reporting during a switch is not modelled, because the code has none.
