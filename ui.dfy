/** The application state of the dashboard (selection, rows, time of the
    last scheduled refresh), the event loop that drives it, and the per-row
    rendering decisions of the table.

    Time is a natural number of NANOSECONDS on the wall clock, so that the
    truncation of an elapsed duration to whole seconds stays visible.  The
    row supplier is opaque: every read of it is an input value. */
module Ui {
  import Api

  type Row = Api.Row

  datatype Option<T> = None | Some(value: T)

  /** The key codes the loop distinguishes; `OtherKey` stands for every
      other code (arrows left/right, Enter, function keys, ...). */
  datatype KeyCode = Char(c: char) | Down | Up | OtherKey

  /** A terminal event: a key press, or anything else (mouse, resize). */
  datatype Event = Key(code: KeyCode) | NonKey

  const NanosPerSecond: nat := 1_000_000_000

  /** A scheduled refresh happens only after MORE than this many whole
      seconds. */
  const RefreshIntervalSeconds: nat := 60

  /** `u16`, the type a row height is cast to. */
  const U16Modulus: nat := 0x1_0000

  /** The column headers of the table. */
  const Header: seq<string> := ["Symbol", "Name", "Price(USD)", "Price Change 24h"]

  // ---------------------------------------------------------------------
  // Selection

  /** `next` evaluates `items.len() - 1` for every existing selection, and
      that underflows (and panics) on an empty table. */
  predicate CanMoveNext(selected: Option<nat>, len: nat)
  {
    selected.Some? ==> len > 0
  }

  /** `previous` evaluates `items.len() - 1` only from row 0, so only that
      selection needs a non-empty table. */
  predicate CanMovePrevious(selected: Option<nat>, len: nat)
  {
    selected == Some(0) ==> len > 0
  }

  /** The index `next` selects. */
  function NextIndex(selected: Option<nat>, len: nat): (r: nat)
    requires CanMoveNext(selected, len)
    ensures selected.None? ==> r == 0
    ensures selected.Some? ==> r < len
  {
    match selected
    case None => 0
    case Some(i) => if i >= len - 1 then 0 else i + 1
  }

  /** The index `previous` selects. */
  function PreviousIndex(selected: Option<nat>, len: nat): (r: nat)
    requires CanMovePrevious(selected, len)
    ensures selected.None? ==> r == 0
    ensures selected.Some? && selected.value <= len ==> r < len
  {
    match selected
    case None => 0
    case Some(i) => if i == 0 then len - 1 else i - 1
  }

  /** On a selection inside the table, `next` is the successor modulo the
      number of rows. */
  lemma NextIsSuccessorModulo(i: nat, len: nat)
    requires i < len
    ensures NextIndex(Some(i), len) == (i + 1) % len
  {
    if i + 1 < len {
      assert (i + 1) % len == i + 1;
    } else {
      assert i + 1 == len;
    }
  }

  /** On a selection inside the table, `previous` is the predecessor modulo
      the number of rows. */
  lemma PreviousIsPredecessorModulo(i: nat, len: nat)
    requires i < len
    ensures PreviousIndex(Some(i), len) == (i + len - 1) % len
  {
    if i == 0 {
      assert (len - 1) % len == len - 1;
    } else {
      assert (i + len - 1) == (i - 1) + len;
      assert (i - 1) % len == i - 1;
    }
  }

  /** `next` and `previous` undo each other on a selection inside the
      table. */
  lemma NextPreviousInverse(i: nat, len: nat)
    requires i < len
    ensures PreviousIndex(Some(NextIndex(Some(i), len)), len) == i
    ensures NextIndex(Some(PreviousIndex(Some(i), len)), len) == i
  {
  }

  /** A selection left past the end of the table by a refresh: `next`
      brings it back to the first row, but `previous` only decrements it,
      so from two or more rows past the end it is still out of range. */
  lemma StaleSelection(i: nat, len: nat)
    requires 0 < len <= i
    ensures NextIndex(Some(i), len) == 0
    ensures PreviousIndex(Some(i), len) == i - 1
    ensures i > len ==> PreviousIndex(Some(i), len) >= len
  {
  }

  /** On an empty table `previous` from a selection other than 0 still
      just decrements it. */
  lemma PreviousOnEmptyTable(i: nat)
    requires i > 0
    ensures CanMovePrevious(Some(i), 0) && !CanMoveNext(Some(i), 0)
    ensures PreviousIndex(Some(i), 0) == i - 1
  {
  }

  // ---------------------------------------------------------------------
  // The state and its transitions

  datatype AppState = AppState(selected: Option<nat>, items: seq<Row>, lastUpdate: nat)

  function SelectNext(s: AppState): AppState
    requires CanMoveNext(s.selected, |s.items|)
  {
    s.(selected := Some(NextIndex(s.selected, |s.items|)))
  }

  function SelectPrevious(s: AppState): AppState
    requires CanMovePrevious(s.selected, |s.items|)
  {
    s.(selected := Some(PreviousIndex(s.selected, |s.items|)))
  }

  /** `now.duration_since(last)` truncated by `as_secs`; `None` when the
      clock reads earlier than `last`. */
  function ElapsedWholeSeconds(last: nat, now: nat): Option<nat>
  {
    if now < last then None else Some((now - last) / NanosPerSecond)
  }

  predicate RefreshDue(last: nat, now: nat)
  {
    var elapsed := ElapsedWholeSeconds(last, now);
    elapsed.Some? && elapsed.value > RefreshIntervalSeconds
  }

  /** `update`, given the rows a fetch would return. */
  function AfterUpdate(s: AppState, now: nat, fetched: seq<Row>): (r: AppState)
    ensures r.selected == s.selected
    ensures r == s || (now >= s.lastUpdate + 61 * NanosPerSecond && r.items == fetched && r.lastUpdate == now)
  {
    RefreshDueExactly(s.lastUpdate, now);
    if RefreshDue(s.lastUpdate, now) then s.(items := fetched, lastUpdate := now) else s
  }

  /** `force_update`: the rows are replaced; the selection is not clamped
      and the refresh time is not moved. */
  function AfterForceUpdate(s: AppState, fetched: seq<Row>): (r: AppState)
    ensures r.items == fetched
    ensures r.selected == s.selected && r.lastUpdate == s.lastUpdate
  {
    s.(items := fetched)
  }

  /** `force_update` replaces the rows and nothing else: the refresh time
      stays, and the selection keeps its number even when the new table is
      shorter. */
  lemma ForceUpdateKeepsSelection(s: AppState, fetched: seq<Row>)
    ensures AfterForceUpdate(s, fetched).items == fetched
    ensures AfterForceUpdate(s, fetched).selected == s.selected
    ensures AfterForceUpdate(s, fetched).lastUpdate == s.lastUpdate
    ensures s.selected.Some? && s.selected.value >= |fetched| ==>
              AfterForceUpdate(s, fetched).selected.value >= |AfterForceUpdate(s, fetched).items|
  {
  }

  /** A scheduled refresh is due exactly when at least 61 whole seconds, in
      nanoseconds, have passed: more than 60 seconds after truncation. */
  lemma RefreshDueExactly(last: nat, now: nat)
    ensures RefreshDue(last, now) <==> now >= last + (RefreshIntervalSeconds + 1) * NanosPerSecond
  {
    if now >= last {
      var d := now - last;
      if d >= 61 * NanosPerSecond {
        assert d / NanosPerSecond >= 61;
      } else {
        assert d / NanosPerSecond <= 60;
      }
    }
  }

  /** `update` keeps the selection; it either refreshes (new rows, the
      refresh time moves to `now`) or changes nothing at all, and it does
      nothing when the clock has gone backwards. */
  lemma UpdateOutcome(s: AppState, now: nat, fetched: seq<Row>)
    ensures AfterUpdate(s, now, fetched).selected == s.selected
    ensures now >= s.lastUpdate + 61 * NanosPerSecond ==>
              AfterUpdate(s, now, fetched).items == fetched && AfterUpdate(s, now, fetched).lastUpdate == now
    ensures now < s.lastUpdate + 61 * NanosPerSecond ==> AfterUpdate(s, now, fetched) == s
    ensures AfterUpdate(s, now, fetched).lastUpdate >= s.lastUpdate
  {
    RefreshDueExactly(s.lastUpdate, now);
  }

  /** A second `update` at the same instant never refreshes again. */
  lemma UpdateIdempotent(s: AppState, now: nat, first: seq<Row>, second: seq<Row>)
    ensures AfterUpdate(AfterUpdate(s, now, first), now, second) == AfterUpdate(s, now, first)
  {
    RefreshDueExactly(s.lastUpdate, now);
    RefreshDueExactly(now, now);
  }

  /** `next` applied `k` times. */
  function NextTimes(s: AppState, k: nat): AppState
    requires |s.items| > 0
    decreases k
  {
    if k == 0 then s else NextTimes(SelectNext(s), k - 1)
  }

  /** Up to as many presses of `next` as there are rows, from a selection
      inside the table, move it `k` rows forward, wrapping past the last
      row once, and touch nothing else. */
  lemma {:induction false} NextTimesAdvances(s: AppState, i: nat, k: nat)
    requires s.selected == Some(i) && i < |s.items| && k <= |s.items|
    ensures NextTimes(s, k) ==
              s.(selected := Some(if i + k < |s.items| then i + k else i + k - |s.items|))
    decreases k
  {
    var n := |s.items|;
    if k > 0 {
      var t := SelectNext(s);
      if i + 1 < n {
        assert t.selected == Some(i + 1);
        NextTimesAdvances(t, i + 1, k - 1);
      } else {
        assert t.selected == Some(0);
        NextTimesAdvances(t, 0, k - 1);
      }
      assert t.(selected := s.selected) == s;
    }
  }

  /** As many presses of `next` as there are rows bring the selection back
      to where it started. */
  lemma NextWrapsAround(s: AppState, i: nat)
    requires s.selected == Some(i) && i < |s.items|
    ensures NextTimes(s, |s.items|) == s
  {
    NextTimesAdvances(s, i, |s.items|);
  }

  // ---------------------------------------------------------------------
  // The application object

  class App {
    var selected: Option<nat>
    var items: seq<Row>
    var lastUpdate: nat

    function State(): AppState
      reads this
    {
      AppState(selected, items, lastUpdate)
    }

    /** `App::new`, given the first fetch and the clock reading. */
    constructor (initialRows: seq<Row>, now: nat)
      ensures State() == AppState(None, initialRows, now)
    {
      selected := None;
      items := initialRows;
      lastUpdate := now;
    }

    method Next()
      requires CanMoveNext(selected, |items|)
      modifies this`selected
      ensures State() == SelectNext(old(State()))
    {
      var i: nat;
      match selected {
        case Some(j) =>
          if j >= |items| - 1 {
            i := 0;
          } else {
            i := j + 1;
          }
        case None =>
          i := 0;
      }
      selected := Some(i);
    }

    method Previous()
      requires CanMovePrevious(selected, |items|)
      modifies this`selected
      ensures State() == SelectPrevious(old(State()))
    {
      var i: nat;
      match selected {
        case Some(j) =>
          if j == 0 {
            i := |items| - 1;
          } else {
            i := j - 1;
          }
        case None =>
          i := 0;
      }
      selected := Some(i);
    }

    /** `update`, with `now` the clock reading and `fetched` what the fetch
        returns if it is made. */
    method Update(now: nat, fetched: seq<Row>)
      modifies this`items, this`lastUpdate
      ensures State() == AfterUpdate(old(State()), now, fetched)
    {
      if now >= lastUpdate {
        var elapsed := (now - lastUpdate) / NanosPerSecond;
        if elapsed > RefreshIntervalSeconds {
          lastUpdate := now;
          items := fetched;
        }
      }
    }

    method ForceUpdate(fetched: seq<Row>)
      modifies this`items
      ensures State() == AfterForceUpdate(old(State()), fetched)
    {
      items := fetched;
    }
  }

  // ---------------------------------------------------------------------
  // Rendering decisions per row

  predicate StartsWith(s: string, prefix: string)
  {
    |prefix| <= |s| && s[..|prefix|] == prefix
  }

  function NewlineCount(s: string): (n: nat)
    ensures n == multiset(s)['\n']
    ensures n <= |s|
  {
    if s == [] then 0
    else
      assert s == [s[0]] + s[1..];
      (if s[0] == '\n' then 1 else 0) + NewlineCount(s[1..])
  }

  /** The `max` of the newline counts of the cells, 0 for a row without
      cells. */
  function MaxNewlines(row: Row): (m: nat)
    ensures forall i :: 0 <= i < |row| ==> NewlineCount(row[i]) <= m
    ensures |row| == 0 ==> m == 0
    ensures |row| > 0 ==> exists i :: 0 <= i < |row| && m == NewlineCount(row[i])
  {
    if row == [] then 0
    else
      var rest := MaxNewlines(row[1..]);
      var first := NewlineCount(row[0]);
      if first >= rest then first else rest
  }

  /** The height given to a row: one more than its largest newline count,
      cast to `u16`. */
  function RowHeight(row: Row): (h: nat)
    ensures h < U16Modulus
    ensures MaxNewlines(row) + 1 < U16Modulus ==> h == MaxNewlines(row) + 1
  {
    (MaxNewlines(row) + 1) % U16Modulus
  }

  /** A row without any newline is one line high. */
  lemma SingleLineRowHeight(row: Row)
    requires forall i :: 0 <= i < |row| ==> '\n' !in row[i]
    ensures RowHeight(row) == 1
  {
    forall i | 0 <= i < |row|
      ensures NewlineCount(row[i]) == 0
    {
      assert multiset(row[i])['\n'] == 0;
    }
  }

  /** Every row the table draws has a fourth cell: `item[3]` panics
      otherwise. */
  predicate Renderable(items: seq<Row>)
  {
    forall i :: 0 <= i < |items| ==> |items[i]| >= Api.RowWidth
  }

  /** `is_down`: the fourth cell starts with a minus sign. */
  function IsDown(row: Row): (down: bool)
    requires |row| >= Api.RowWidth
    ensures down <==> |row[3]| > 0 && row[3][0] == '-'
  {
    StartsWith(row[3], "-")
  }

  datatype Colour = Red | Green

  datatype RowStyle = RowStyle(height: nat, colour: Colour)

  /** How one row is drawn: its height, and red when down, green when not. */
  function StyleRow(row: Row): (style: RowStyle)
    requires |row| >= Api.RowWidth
    ensures style.height == RowHeight(row)
    ensures style.colour == Red <==> |row[3]| > 0 && row[3][0] == '-'
    ensures style.colour == Green <==> !(|row[3]| > 0 && row[3][0] == '-')
  {
    RowStyle(RowHeight(row), if IsDown(row) then Red else Green)
  }

  /** The rows of the table as drawn, one style per row, in order. */
  function RenderRows(items: seq<Row>): (styles: seq<RowStyle>)
    requires Renderable(items)
    ensures |styles| == |items|
    ensures forall i :: 0 <= i < |items| ==>
              styles[i].height == RowHeight(items[i]) &&
              (styles[i].colour == Red <==> IsDown(items[i]))
  {
    if items == [] then []
    else [StyleRow(items[0])] + RenderRows(items[1..])
  }

  /** What one draw shows: the header, the styled rows and the selection
      to highlight. */
  datatype Frame = Frame(header: seq<string>, rows: seq<RowStyle>, highlighted: Option<nat>)

  function Draw(s: AppState): (f: Frame)
    requires Renderable(s.items)
    ensures f.header == Header && |f.header| == Api.RowWidth
    ensures f.highlighted == s.selected
    ensures |f.rows| == |s.items|
    ensures forall i :: 0 <= i < |s.items| ==>
              f.rows[i].height == RowHeight(s.items[i]) &&
              (f.rows[i].colour == Red <==> IsDown(s.items[i]))
  {
    Frame(Header, RenderRows(s.items), s.selected)
  }

  /** A row produced by the data provider is coloured as down exactly when
      the 24h change of its record starts with a minus sign. */
  lemma ProjectedRowIsDown(x: Api.CryptoApiData)
    requires Api.Projectable(x)
    ensures |Api.ProjectRecord(x)| >= Api.RowWidth
    ensures IsDown(Api.ProjectRecord(x)) <==> StartsWith(x.changePercent24Hr, "-")
  {
    var cell := Api.ProjectRecord(x)[3];
    var c := x.changePercent24Hr;
    assert cell[0] == cell[..Api.ChangeWidth][0];
    assert c[0] == c[..Api.ChangeWidth][0];
    assert StartsWith(c, "-") <==> c[0] == '-';
  }

  /** Rows produced by the data provider can always be drawn. */
  lemma ProjectedRowsRender(records: seq<Api.CryptoApiData>)
    requires Api.AllProjectable(records)
    ensures Renderable(Api.ProjectAll(records))
    ensures forall i :: 0 <= i < |records| ==>
              (IsDown(Api.ProjectAll(records)[i]) <==> StartsWith(records[i].changePercent24Hr, "-"))
  {
    forall i | 0 <= i < |records|
      ensures |Api.ProjectAll(records)[i]| >= Api.RowWidth
      ensures IsDown(Api.ProjectAll(records)[i]) <==> StartsWith(records[i].changePercent24Hr, "-")
    {
      ProjectedRowIsDown(records[i]);
    }
  }

  /** The sample row is drawn one line high and red. */
  lemma BitcoinRowStyle()
    ensures StyleRow(["BTC", "Bitcoin", "$67000.12", "-2.345%"]) == RowStyle(1, Red)
  {
    var row := ["BTC", "Bitcoin", "$67000.12", "-2.345%"];
    assert RowHeight(row) == 1 by {
      assert forall i :: 0 <= i < |row| ==> '\n' !in row[i];
      SingleLineRowHeight(row);
    }
    assert IsDown(row) by {
      assert row[3][0] == '-';
    }
  }

  // ---------------------------------------------------------------------
  // The event loop

  /** What the outside world supplies to one iteration of the loop: the
      event read, the clock reading taken by `update`, and the rows that a
      forced and a scheduled fetch would return. */
  datatype Tick = Tick(event: Event, now: nat, reloadRows: seq<Row>, refreshRows: seq<Row>)

  predicate IsQuit(e: Event)
  {
    e == Key(Char('q'))
  }

  /** Down needs what `next` needs and Up what `previous` needs; every
      other event can always be handled. */
  predicate CanHandle(s: AppState, e: Event)
  {
    (e == Key(Down) ==> CanMoveNext(s.selected, |s.items|)) &&
    (e == Key(Up) ==> CanMovePrevious(s.selected, |s.items|))
  }

  /** The `match` on the key code. */
  function Dispatch(s: AppState, e: Event, reloadRows: seq<Row>): (r: AppState)
    requires !IsQuit(e)
    requires CanHandle(s, e)
    ensures r.lastUpdate == s.lastUpdate
    ensures e == Key(Char('r')) ==> r.items == reloadRows && r.selected == s.selected
    ensures e == Key(Down) || e == Key(Up) ==> r.items == s.items
    ensures e == Key(Down) ==> r.selected == Some(NextIndex(s.selected, |s.items|))
    ensures e == Key(Up) ==> r.selected == Some(PreviousIndex(s.selected, |s.items|))
    ensures e != Key(Char('r')) && e != Key(Down) && e != Key(Up) ==> r == s
  {
    if e == Key(Char('r')) then AfterForceUpdate(s, reloadRows)
    else if e == Key(Down) then SelectNext(s)
    else if e == Key(Up) then SelectPrevious(s)
    else s
  }

  /** One non-quitting iteration: dispatch, then always `update`, whatever
      the event was. */
  function Step(s: AppState, t: Tick): (r: AppState)
    requires !IsQuit(t.event)
    requires CanHandle(s, t.event)
    ensures t.event != Key(Down) && t.event != Key(Up) ==> r.selected == s.selected
    ensures t.event == Key(Down) ==> r.selected == Some(NextIndex(s.selected, |s.items|))
    ensures t.event == Key(Up) ==> r.selected == Some(PreviousIndex(s.selected, |s.items|))
    ensures r.lastUpdate == s.lastUpdate || (r.lastUpdate == t.now && r.items == t.refreshRows)
    ensures r.lastUpdate >= s.lastUpdate
    ensures t.now >= s.lastUpdate + 61 * NanosPerSecond ==>
              r.items == t.refreshRows && r.lastUpdate == t.now
    ensures t.now < s.lastUpdate + 61 * NanosPerSecond ==> r == Dispatch(s, t.event, t.reloadRows)
  {
    UpdateOutcome(Dispatch(s, t.event, t.reloadRows), t.now, t.refreshRows);
    AfterUpdate(Dispatch(s, t.event, t.reloadRows), t.now, t.refreshRows)
  }

  /** Keys other than `q`, `r`, Down and Up, and events that are not key
      presses, change nothing but what `update` changes. */
  lemma StepIgnoresOtherInput(s: AppState, t: Tick)
    requires t.event !in {Key(Char('q')), Key(Char('r')), Key(Down), Key(Up)}
    ensures Step(s, t) == AfterUpdate(s, t.now, t.refreshRows)
  {
  }

  /** No iteration of the loop panics on these inputs: every state drawn
      has renderable rows, every Down finds a table `next` may move in,
      and every Up one `previous` may move in. */
  predicate RunSafe(s: AppState, ticks: seq<Tick>)
    decreases |ticks|
  {
    Renderable(s.items) &&
    (|ticks| > 0 ==>
       CanHandle(s, ticks[0].event) &&
       (!IsQuit(ticks[0].event) ==> RunSafe(Step(s, ticks[0]), ticks[1..])))
  }

  /** The state the loop ends in, whether it ended on `q` (rather than by
      running out of events), and how many events it read. */
  datatype RunOutcome = RunOutcome(final: AppState, quit: bool, steps: nat)

  function Shift(r: RunOutcome, k: nat): RunOutcome
  {
    r.(steps := r.steps + k)
  }

  /** `run_app` over a finite supply of events: it stops at the first `q`
      and reads every event before it. */
  function Run(s: AppState, ticks: seq<Tick>): (r: RunOutcome)
    requires RunSafe(s, ticks)
    ensures r.steps <= |ticks|
    ensures r.quit ==>
              0 < r.steps && IsQuit(ticks[r.steps - 1].event) &&
              forall j :: 0 <= j < r.steps - 1 ==> !IsQuit(ticks[j].event)
    ensures !r.quit ==>
              r.steps == |ticks| && forall j :: 0 <= j < |ticks| ==> !IsQuit(ticks[j].event)
    decreases |ticks|
  {
    if ticks == [] then RunOutcome(s, false, 0)
    else if IsQuit(ticks[0].event) then RunOutcome(s, true, 1)
    else Shift(Run(Step(s, ticks[0]), ticks[1..]), 1)
  }

  /** On `q` the loop ends at once: the state is the one drawn last and
      no `update` runs. */
  lemma QuitEndsRun(s: AppState, ticks: seq<Tick>)
    requires RunSafe(s, ticks) && |ticks| > 0 && IsQuit(ticks[0].event)
    ensures Run(s, ticks) == RunOutcome(s, true, 1)
  {
  }

  /** A selection past row 0, a reload that yields no rows, then Up: the
      loop handles it, and Up only decrements the selection on the empty
      table. */
  lemma ReloadEmptyThenUp(s: AppState, i: nat, now1: nat, now2: nat)
    requires s.selected == Some(i) && i > 0 && Renderable(s.items)
    ensures var ticks := [Tick(Key(Char('r')), now1, [], []), Tick(Key(Up), now2, [], [])];
            RunSafe(s, ticks) &&
            !Run(s, ticks).quit &&
            Run(s, ticks).final.selected == Some(i - 1) &&
            Run(s, ticks).final.items == []
  {
    var ticks := [Tick(Key(Char('r')), now1, [], []), Tick(Key(Up), now2, [], [])];
    var s1 := Step(s, ticks[0]);
    assert s1.items == [] && s1.selected == Some(i);
    var s2 := Step(s1, ticks[1]);
    assert s2.items == [] && s2.selected == Some(i - 1);
    assert ticks[1..] == [ticks[1]];
    assert ticks[1..][1..] == [];
    assert RunSafe(s2, []);
    assert Run(s1, ticks[1..]) == Shift(Run(s2, []), 1);
  }

  /** Quitting leaves the state as it was, and nothing after the quit key
      is read. */
  lemma {:induction false} RunIgnoresEventsAfterQuit(s: AppState, ticks: seq<Tick>, more: seq<Tick>)
    requires RunSafe(s, ticks) && Run(s, ticks).quit
    ensures RunSafe(s, ticks + more)
    ensures Run(s, ticks + more) == Run(s, ticks)
    decreases |ticks|
  {
    assert (ticks + more)[0] == ticks[0];
    if !IsQuit(ticks[0].event) {
      assert (ticks + more)[1..] == ticks[1..] + more;
      RunIgnoresEventsAfterQuit(Step(s, ticks[0]), ticks[1..], more);
    }
  }

  /** The loop of `run_app`: draw, read an event, quit on `q`, otherwise
      dispatch and `update`.  `ticks` is the finite supply of events; when
      it runs out the model stops where the program would block. */
  method RunApp(app: App, ticks: seq<Tick>) returns (quit: bool, steps: nat)
    requires RunSafe(app.State(), ticks)
    modifies app
    ensures RunOutcome(app.State(), quit, steps) == Run(old(app.State()), ticks)
  {
    ghost var s0 := app.State();
    steps := 0;
    while steps < |ticks|
      invariant steps <= |ticks|
      invariant RunSafe(app.State(), ticks[steps..])
      invariant Run(s0, ticks) == Shift(Run(app.State(), ticks[steps..]), steps)
      decreases |ticks| - steps
    {
      var frame := Draw(app.State());
      var tick := ticks[steps];
      assert ticks[steps..][0] == tick;
      assert ticks[steps..][1..] == ticks[steps + 1..];
      steps := steps + 1;
      if IsQuit(tick.event) {
        quit := true;
        return;
      }
      if tick.event == Key(Char('r')) {
        app.ForceUpdate(tick.reloadRows);
      } else if tick.event == Key(Down) {
        app.Next();
      } else if tick.event == Key(Up) {
        app.Previous();
      }
      app.Update(tick.now, tick.refreshRows);
    }
    quit := false;
  }
}
