# A verified model of a terminal crypto-price dashboard

The program shows CoinCap's asset list as a table in the terminal. It reloads the
list on `r`, moves the selected row with the Up and Down arrows, and quits on `q`.
After every event except `q` it checks the clock and refetches if more than 60
whole seconds have passed since the last scheduled refetch; a reload with `r` does
not reset that clock. The loop blocks while it waits for the next event, so without
input nothing is refetched. This project models its two small sequential cores in
Dafny and proves properties of them:

- `api.dfy`, module `Api`: the decoded asset record (`CryptoApiData`) and its
  projection into a four-cell display row (symbol, name, `"$"` + price, first six
  bytes of the 24h change + `"%"`). It also models the `DataProvider` object,
  whose `UpdateItems` stores the projected rows in `raw` and returns views of them.
- `ui.dfy`, module `Ui`: the `App` object (selection, rows, time of the last
  scheduled refresh) and its `next`, `previous`, `update` and `force_update`. It
  also models the event loop of `run_app` and the two decisions `ui` makes per row: the
  row height and the red/green "down" colouring.

Modelling decisions:

- **Strings are byte strings.** Each `char` stands for one byte, so the byte slice
  `[0..6]` keeps the first six characters. A change text shorter than six bytes
  makes the slice panic, so the projection requires at least six.
- **Time is a natural number of nanoseconds.** `update` compares
  `duration_since(...).as_secs()`, which is the elapsed time truncated to whole
  seconds, with 60. Counting in nanoseconds keeps that truncation explicit.
  `RefreshDueExactly` proves that a refresh happens exactly when at least 61·10⁹ ns
  have passed. When the clock reads earlier than the last scheduled refresh, `duration_since`
  fails and nothing happens.
- **The row supplier is opaque.** `src/ui.rs` calls a free `get_data()` that
  returns rows, but `src/api.rs` defines no such function, only the method
  `DataProvider::get_data`, which returns a `Result`; the two files do not fit
  together. So every fetch in `Ui` is an input value: the constructor's
  `initialRows`, and `fetched` for `Update` and `ForceUpdate`. In the loop, each
  iteration receives a `Tick`: the event, the clock reading, and the rows a forced
  and a scheduled fetch would return.
- **Three safeguards are absent from the code, and the model does not add them:**
  - clamped truncation of the change text (the code slices without a bounds check);
  - keeping the old rows when a refresh fails (in `src/ui.rs` the fetch cannot
    fail);
  - clamping the selection after a refresh. Neither `update` nor `force_update`
    clamps it. `StaleSelection` and `ForceUpdateKeepsSelection` show what follows:
    `next` brings an out-of-range selection back to row 0, but `previous` only
    decrements it.
- **Panics are preconditions.** `items.len() - 1` underflows on an empty table.
  `next` evaluates it for every existing selection (`CanMoveNext`). `previous`
  evaluates it only from row 0 (`CanMovePrevious`). On an empty table it simply
  decrements any other selection (`PreviousOnEmptyTable`, `ReloadEmptyThenUp`).
  `item[3]` panics on a row with fewer than four cells (`Renderable`). The loop's
  precondition `RunSafe` requires, for every iteration, that the state drawn is
  `Renderable` and that each Down or Up meets the precondition of `next` or
  `previous`. `ProjectedRowsRender` shows that rows produced by the
  projection are always renderable.

## Model

| member | source | states |
|---|---|---|
| `Api.FormatPrice` | src/api.rs:50 | the price cell is one byte longer than the price: `$` followed by the price text unchanged |
| `Api.FormatChange` | src/api.rs:51 | for a change text of at least six bytes, the cell has exactly seven bytes: the first six of the change, then `%` |
| `Api.ProjectRecord` | src/api.rs:46-53 | a projectable record gives a row of exactly four cells: symbol, name, `$`+price, and the six-byte change prefix followed by `%` |
| `Api.ProjectAll` | src/api.rs:43-54 | one row per record, in input order: row i is the projection of record i |
| `Api.ProjectedRowsAreWellFormed` | src/api.rs:47-52 | every projected row has four cells; its price cell equals `"$" + priceUsd` and its change cell equals `change[..6] + "%"` |
| `Api.ProjectAllAppend` | src/api.rs:43-54 | projecting a concatenation of record lists is the concatenation of the projections (the map is element-wise) |
| `Api.BitcoinRecordProjection` | src/api.rs:46-53 | the record BTC/Bitcoin/67000.12/-2.345678 projects to `["BTC", "Bitcoin", "$67000.12", "-2.345%"]` |
| `Api.ShortChangeIsNotProjectable` | src/api.rs:51 | one record whose change text is shorter than six bytes, anywhere in the response, makes the whole list unprojectable: the slice for that record panics, so `update_items` produces no rows at all |
| `Api.DataProvider.constructor` | src/api.rs:27-33 | a new provider has no items and no raw rows, and has the CoinCap assets URL |
| `Api.DataProvider.UpdateItems` | src/api.rs:42-59 | `raw` becomes the projection of the decoded records; the returned views equal `raw`; `items` is not assigned |
| `Ui.NextIndex` | src/ui.rs:31-43 | with no selection the result is 0; with a selection (and at least one row) the result is a valid row index |
| `Ui.PreviousIndex` | src/ui.rs:45-57 | with no selection the result is 0; with a selection no further than one past the end, the result is a valid row index; it needs a non-empty table only from row 0 |
| `Ui.PreviousOnEmptyTable` | src/ui.rs:46-52 | on an empty table, `previous` from a selection i > 0 gives i - 1 without panicking, while `next` from the same state would panic |
| `Ui.NextIsSuccessorModulo` | src/ui.rs:32-41 | for a selection i inside a table of n rows, `next` gives (i + 1) mod n: i + 1 before the last row, 0 from it |
| `Ui.PreviousIsPredecessorModulo` | src/ui.rs:46-55 | for a selection i inside a table of n rows, `previous` gives (i + n - 1) mod n: n - 1 from row 0, i - 1 otherwise |
| `Ui.NextPreviousInverse` | src/ui.rs:31-57 | inside the table, `previous` after `next` and `next` after `previous` return to the original index |
| `Ui.StaleSelection` | src/ui.rs:31-57 | for a selection at or past the end of a non-empty table, `next` gives 0 and `previous` gives i - 1, which is still out of range when i > n |
| `Ui.ForceUpdateKeepsSelection` | src/ui.rs:70-72 | `force_update` installs the fetched rows and keeps the refresh time and the selection; the selection is not clamped to the new length |
| `Ui.AfterUpdate` | src/ui.rs:59-68 | `update` keeps the selection; either it changes nothing, or at least 61 whole seconds have passed and it installs the fetched rows with refresh time `now` |
| `Ui.AfterForceUpdate` | src/ui.rs:70-72 | `force_update` installs the fetched rows and keeps the selection and the refresh time |
| `Ui.RefreshDueExactly` | src/ui.rs:59-68 | a scheduled refresh is due if and only if the clock is at least 61 whole seconds past the last refresh (more than 60 after truncation) |
| `Ui.UpdateOutcome` | src/ui.rs:59-68 | `update` keeps the selection; once 61 s have passed it installs the fetched rows and sets the refresh time to now; otherwise, including when the clock went backwards, it changes nothing; the refresh time never decreases |
| `Ui.UpdateIdempotent` | src/ui.rs:59-68 | a second `update` at the same instant never refreshes again |
| `Ui.NextTimesAdvances` | src/ui.rs:31-43 | k ≤ n presses of `next` from row i move the selection to i + k, wrapping past the last row once, and change neither the rows nor the refresh time |
| `Ui.NextWrapsAround` | src/ui.rs:31-43 | as many presses of `next` as there are rows return the state exactly to where it started |
| `Ui.App.constructor` | src/ui.rs:23-29 | a new app has no selection, the initial rows and the refresh time of its creation |
| `Ui.App.Next` | src/ui.rs:31-43 | only the selection changes, to `NextIndex` of the old selection |
| `Ui.App.Previous` | src/ui.rs:45-57 | only the selection changes, to `PreviousIndex` of the old selection; an empty table is excluded only when row 0 is selected |
| `Ui.App.Update` | src/ui.rs:59-68 | the new state is `AfterUpdate` of the old one: refresh when more than 60 whole seconds have elapsed, otherwise no change |
| `Ui.App.ForceUpdate` | src/ui.rs:70-72 | only the rows change, to the fetched ones |
| `Ui.NewlineCount` | src/ui.rs:137 | the count equals the number of `\n` characters in the cell (its multiplicity in the cell's multiset) |
| `Ui.MaxNewlines` | src/ui.rs:135-139 | the result is at least every cell's newline count and equals one of them; it is 0 for a row without cells (`unwrap_or(0)`) |
| `Ui.RowHeight` | src/ui.rs:135-148 | the height fits in `u16`, and unless the cast wraps it is one more than the largest newline count of the row's cells |
| `Ui.SingleLineRowHeight` | src/ui.rs:135-140 | a row without newlines is one line high |
| `Ui.IsDown` | src/ui.rs:142 | a row is down if and only if its fourth cell is non-empty and begins with `-` |
| `Ui.StyleRow` | src/ui.rs:134-148 | a row's style has the row's height; it is red if and only if the fourth cell begins with `-`, and green otherwise |
| `Ui.Draw` | src/ui.rs:121-162 | a drawn frame has the four-column header, one style per row with that row's height and down colouring, and the current selection highlighted |
| `Ui.RenderRows` | src/ui.rs:134-149 | one style per row, in order; each has the row's height, and it is red if and only if the row is down (green otherwise) |
| `Ui.ProjectedRowIsDown` | src/ui.rs:142 | a projected row has four cells and is down if and only if the record's 24h change starts with `-` |
| `Ui.ProjectedRowsRender` | src/ui.rs:134-149 | rows produced by the projection are always renderable, and each is coloured by the sign of its record's change |
| `Ui.BitcoinRowStyle` | src/ui.rs:134-148 | the row `["BTC", "Bitcoin", "$67000.12", "-2.345%"]` is drawn one line high and red |
| `Ui.Dispatch` | src/ui.rs:107-115 | the key dispatch never moves the refresh time; `r` installs the reloaded rows and keeps the selection; Down selects `next`'s index and Up `previous`'s, both keeping the rows; any other event changes nothing |
| `Ui.Step` | src/ui.rs:105-117 | one non-quit iteration dispatches the event and then always runs `update`: Down selects `next`'s index and Up `previous`'s, other events keep the selection; once 61 s have passed since the last scheduled refresh the rows become the refreshed rows and the refresh time becomes `now`, otherwise the result is exactly the dispatch's; the refresh time never decreases |
| `Ui.StepIgnoresOtherInput` | src/ui.rs:107-117 | an event other than `q`, `r`, Down or Up (including a non-key event) changes only what `update` changes |
| `Ui.Run` | src/ui.rs:103-119 | the loop stops at the first `q` and reads every event before it; without a `q`, it reads all events |
| `Ui.ReloadEmptyThenUp` | src/ui.rs:107-117 | with a selection past row 0, `r` reloading no rows and then Up is a run the loop completes: the table is empty and the selection is decremented |
| `Ui.QuitEndsRun` | src/ui.rs:109 | on `q` the loop ends at once, with the state unchanged and without calling `update` |
| `Ui.RunIgnoresEventsAfterQuit` | src/ui.rs:104-109 | events after the first `q` are never read and do not affect the outcome |
| `Ui.RunApp` | src/ui.rs:103-119 | the loop object's final state, quit flag and number of events read are exactly those of `Run` |

## Left out

- The HTTP fetch `DataProvider::get_data` (src/api.rs:35-40), with its `unwrap`s and the `unwrap` in `update_items`: network I/O. `UpdateItems` receives the decoded envelope as its input.
- JSON decoding by `serde_json`: a library whose behaviour is not part of this model. The decoded `CryptoApiStruct` is the input.
- Multi-byte UTF-8: Rust's slice `[0..6]` also panics when byte 6 falls inside a character. Characters here are bytes, so that case is not represented.
- `Ui.NextIndex`: does not model release-build wrap-around of `len() - 1` on an empty table; it requires a non-empty table whenever a selection exists (the debug-build panic).
- `Ui.PreviousIndex`: does not model release-build wrap-around either. Only an empty table with row 0 selected is excluded, where the source's `len() - 1` would yield `usize::MAX` in a release build.
- Ui.RowHeight: for a row whose largest newline count is 65535 or more, the contract says only that the height fits in `u16`. The body does compute the wrapped `as u16` value, but no property of that case is stated.
- `run` (src/ui.rs:75-101): raw mode, the alternate screen, mouse capture, cursor restore and printing the loop's error. All of this is terminal I/O.
- The terminal I/O errors that `draw` and `event::read` can return with `?` (src/ui.rs:105-107). The model's loop ends only on `q` or when the finite supply of events runs out, where the program would block in `event::read`.
- Layout, widget styles, column widths, the highlight symbol, column spacing and `render_stateful_widget` (src/ui.rs:122-133, 150-162). All of this is the rendering library. `Draw` records only the header, the row styles and the selection to highlight. The scroll offset that rendering stores in `TableState` is not modelled.
- The lifetime `'a` of `DataProvider` and the borrowed `&str` views: rows are owned values, and the views are copies equal to `raw`.
- `SystemTime::now()` and the blocking `event::read()` are inputs: each `Tick` carries a clock reading in nanoseconds and an event.
