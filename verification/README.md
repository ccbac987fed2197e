# Workspace core, modelled in Dafny

This project models the session core of the outliner's `Workspace` class
(`lib/workspace.ts`). It covers six parts:

- **Panels and back-references.** A panel has an identity and a non-empty
  navigation history, whose first entry is the panel's root. Every node keeps
  a back-reference to the panel that last displayed it.
- **The panel grid.** This is `panels[row][column]`, changed by `open`
  (replace the primary panel), `openNewPanel` (append to row 0) and
  `closePanel` (remove every occurrence of a panel by identity).
- **The expansion map.** `expanded[rootId][nodeId]` holds one scope of
  expand/collapse flags per panel root. It is read by `getExpanded`, which
  creates a missing scope, and written by `setExpanded`, which fails loudly
  when the node has no panel or the root has no scope.
- **`newContext`.** This is `Object.assign({}, context, ctx)`: caller fields
  override the ambient ones.
- **`getWeekOfYear`.** The ISO 8601 week number (section 5.2.4.2 of
  ISO 8601-1:2019), computed by the nearest-Thursday method. It is proved equal to the week given by the
  independent "week 1 holds January 4th" definition.
- **`todayNode`.** The path `Workspace/Calendar/<year>/Week <NN>/<day>` and a
  find-or-create at that path.

Every operation is a pure function from one session state (`Workspaces.Workspace`)
to the next:

- Panel identity is a natural number handed out by a counter, `nextPanel`. It
  stands for both the random id of a panel and the object identity that
  `closePanel` compares with `!==`.
- The back-references are a map from node ID to panel.
- The invariant `Workspaces.Valid` holds after the constructor, and every
  operation keeps it. It says four things:
  - row 0 exists;
  - every panel id is below the counter;
  - every panel root has a scope;
  - two panels with the same id are the same panel.

Files:

- `types.dfy`: node and panel identifiers, `Option`, `Result`, errors.
- `panels.dfy`: `Panel`, `new Panel`, `panelNode`, grid edits, the row filter.
- `expansion.dfy`: scopes of flags.
- `workspace.dfy`: the session state, the constructor and the operations.
- `calendar.dfy`: ECMAScript day arithmetic, `getWeekOfYear`, the ISO reference definition.
- `datepath.dfy`: decimal rendering, the path of `todayNode`, find-or-create.

## Model

| member | source | states |
|---|---|---|
| Panels.NewPanel | lib/workspace.ts:17-21 | The new panel has the given fresh id and history `[n]`, so its root is n. The back-reference of n names it. Every other node's back-reference is unchanged. |
| Panels.PanelNode | lib/workspace.ts:24-27 | The node's back-reference now names the panel, whatever it named before. No other node's back-reference changes. |
| Panels.PanelNodeLastWriterWins | lib/workspace.ts:24-27 | Of two writes for the same node, only the later one is visible. Writes for different nodes commute. |
| Panels.WithoutPanel | lib/workspace.ts:151 | Filtering a row shortens it by exactly the number of entries that are the closed panel. |
| Panels.WithoutPanelMembers | lib/workspace.ts:151 | A panel is in the filtered row if and only if it was in the row and is not the closed panel. |
| Panels.WithoutPanelIsSubsequence | lib/workspace.ts:151 | The filter keeps the surviving panels in their original order. |
| Panels.WithoutAbsentPanel | lib/workspace.ts:151 | Filtering out a panel that the row does not hold leaves the row unchanged. |
| Panels.WithoutPanelConcat | lib/workspace.ts:151 | Filtering a concatenation filters each half. |
| Panels.WithoutPanelIdempotent | lib/workspace.ts:149-153 | Closing the same panel twice is the same as closing it once. |
| Panels.WithoutFirstOfTwo | lib/workspace.ts:149-153 | Two panels appended to a row that holds neither; removing the first leaves the row followed by the second. |
| Panels.ReplacePrimary | lib/workspace.ts:139 | Row 0, column 0 becomes the new panel. An empty row 0 grows to one panel. Every other cell and row is unchanged. |
| Panels.AppendToFirstRow | lib/workspace.ts:146 | Row 0 grows by one, with the new panel last. Its earlier panels and all other rows are unchanged. |
| Panels.RemovePanel | lib/workspace.ts:150-152 | The loop over the rows: the grid keeps its number of rows, and each row becomes that row with the closed panel filtered out. |
| Panels.RemovePanelRows | lib/workspace.ts:150-152 | Every row of the grid is filtered, with the membership and order guarantees of the row filter. |
| Expansion.EnsureScope | lib/workspace.ts:135-137 | The scope exists afterwards. An existing scope keeps all its flags; a missing one starts empty. |
| Expansion.ResetScope | lib/workspace.ts:143 | The scope exists afterwards and is empty, even if it held flags before. Other scopes are unchanged. |
| Expansion.WriteFlag | lib/workspace.ts:229 | Fails (NoScope) exactly when the scope is missing. Otherwise the flag reads back as written and every other (scope, node) flag is unchanged. |
| Expansion.EnsureScopeInvisible | lib/workspace.ts:218-220 | Creating a scope lazily changes no later read of any flag. |
| Expansion.ResetScopeCollapses | lib/workspace.ts:143 | After a reset, every node of that scope reads as collapsed. Every other scope reads as before. |
| Workspaces.Init | lib/workspace.ts:49-61 | The constructor yields a valid state with context `{node: null}` and one row holding one panel on the root. That panel is the root's back-reference, the root's scope is empty, and the root is remembered as last opened. |
| Workspaces.Open | lib/workspace.ts:134-140 | The primary panel is replaced by a new panel on n with a fresh id, and the rest of the grid is unchanged. n's scope is created only if it is missing; existing scopes keep their flags. n's back-reference names the new panel and n is remembered as last opened. |
| Workspaces.OpenNewPanel | lib/workspace.ts:142-147 | A new panel on n with a fresh id is appended to row 0, and the rest of the grid is unchanged. n's scope is reset to empty. n's back-reference names the new panel and n is remembered as last opened. |
| Workspaces.ClosePanel | lib/workspace.ts:149-153 | Every row keeps exactly the panels that are not the closed one, in order, and shrinks by the number of occurrences removed. Nothing outside the grid changes. |
| Workspaces.GetExpanded | lib/workspace.ts:213-226 | The scope is the root of n's panel, or n itself when n has no panel. The result is true exactly when a true flag is stored there. The only state change is that the scope then exists. |
| Workspaces.SetExpanded | lib/workspace.ts:228-230 | Fails with NoPanel when n has no panel, and with NoScope exactly when its root has no scope. On success a later `getExpanded(n)` yields b, every other node reads as before, and nothing but the expansion map changes. Every stored flag except n's own flag in its root's scope is unchanged, so other nodes in that scope keep their flags too. |
| Workspaces.NewContext | lib/workspace.ts:171-173 | The result has the fields of both contexts. Caller fields win; any other field keeps the ambient value. |
| Workspaces.OpenKeepsValid | lib/workspace.ts:134-140 | `open` keeps the session invariant. |
| Workspaces.OpenNewPanelKeepsValid | lib/workspace.ts:142-147 | `openNewPanel` keeps the session invariant. |
| Workspaces.ClosePanelKeepsValid | lib/workspace.ts:149-153 | `closePanel` keeps the session invariant. |
| Workspaces.GetExpandedKeepsValid | lib/workspace.ts:213-226 | `getExpanded` keeps the session invariant. |
| Workspaces.SetExpandedKeepsValid | lib/workspace.ts:228-230 | A successful `setExpanded` keeps the session invariant. |
| Workspaces.PanelNodeKeepsValid | lib/workspace.ts:24-27 | Pointing a node at a panel shown in the grid keeps the session invariant. |
| Workspaces.SetExpandedFailsOnlyWithoutPanel | lib/workspace.ts:228-230 | In a valid session, `setExpanded` fails if and only if the node was never displayed in a panel. |
| Workspaces.NewPanelIsFresh | lib/workspace.ts:19 | A new panel's id differs from that of every panel in the grid and every back-referenced panel. |
| Workspaces.OpenTwiceKeepsSecond | lib/workspace.ts:134-140 | After `open` twice, row 0 keeps its length and holds the second panel at column 0. That panel is distinct from the first. |
| Workspaces.OpenNewPanelTwiceAppendsTwo | lib/workspace.ts:142-147 | After `openNewPanel` twice, row 0 gains exactly two distinct panels, in order. The earlier panels are kept. |
| Workspaces.OpenKeepsScopeOpenNewPanelResets | lib/workspace.ts:134-147 | `open` keeps an existing scope and all its flags. `openNewPanel` collapses every node of the scope. |
| Workspaces.CloseByIdIsByIdentity | lib/workspace.ts:149-153 | In a valid session, closing a known panel by id removes exactly that panel from each row. This is the source's `!==` identity filter. |
| Workspaces.CloseKeepsTwin | lib/workspace.ts:149-153 | Closing one panel keeps a different panel with the same history, and removes the closed panel. |
| Workspaces.CloseOneOfTwoTwins | lib/workspace.ts:142-153 | Open two panels on the same node side by side, then close the first. Row 0 is then as it was, followed by the second panel. |
| Workspaces.GetExpandedIsUnobservable | lib/workspace.ts:213-226 | A `getExpanded` changes the result of no later `getExpanded`. |
| Workspaces.OpenThenSetExpanded | lib/workspace.ts:134-140 | After `open(n)`, n reads as collapsed if its scope was new, `setExpanded(n, b)` succeeds, and n then reads as b. |
| Workspaces.ExpansionIsScopedByRoot | lib/workspace.ts:213-230 | A node shown under panels with different roots has one flag per root. Setting it under one root leaves the other root's read unchanged. |
| Workspaces.NewContextLayers | lib/workspace.ts:171-173 | An empty caller context yields the ambient one. Layering caller fields in two steps equals layering their union in one step. |
| Calendar.YearStartStep | lib/workspace.ts:238 | Successive January 1sts are 365 or 366 days apart, 366 exactly in a Gregorian leap year. |
| Calendar.YearIsUnique | lib/workspace.ts:238 | A day lies in exactly one year, so `getUTCFullYear` is well defined. |
| Calendar.DayNumber | lib/workspace.ts:235 | The day number of a valid date lies in the date's own year. |
| Calendar.IsoWeekday | lib/workspace.ts:236 | `getUTCDay() || 7` is the ISO weekday: between 1 and 7, and congruent to the UTC weekday modulo 7, so Sunday becomes 7. |
| Calendar.ThursdayOf | lib/workspace.ts:236-237 | The shifted day is a Thursday, and it is the one in the same Monday-to-Sunday week: at most three days away. |
| Calendar.Ceil7 | lib/workspace.ts:239 | `Math.ceil(a / 7)` on an integer a: the least r with a <= 7r. |
| Calendar.WeekOfYear | lib/workspace.ts:234-240 | The week number is between 1 and 53. It is the number of whole weeks from the start of the Thursday's year to the Thursday, plus one. |
| Calendar.WeekOfYearIsIsoWeek | lib/workspace.ts:234-240 | For every valid date, the week and its year equal those of the ISO 8601 definition: week 1 is the Monday-based week holding January 4th. |
| Calendar.January4IsWeek1 | lib/workspace.ts:234-240 | January 4th of every year is in week 1 of that year. |
| Calendar.LateDecemberRollsOver | lib/workspace.ts:234-240 | Monday 2024-12-30 is in week 1 of ISO year 2025. |
| Calendar.EarlyJanuaryRollsBack | lib/workspace.ts:234-240 | Friday 2021-01-01 is in week 53 of ISO year 2020. |
| Calendar.WeekOfYearAsWritten | lib/workspace.ts:234-240 | `getWeekOfYear` as written, with `Date.UTC`'s year remapping in both calls. For years from 101 on, and up to -2, no remap fires and it yields the ISO week of Calendar.WeekOfYear. |
| Calendar.AsWrittenFailsOnYear100 | lib/workspace.ts:235-239 | On 0100-01-01 the code as written yields -99085, while the ISO week is 53. |
| DatePath.NatToString | lib/workspace.ts:120-121 | Decimal rendering yields only digits, with no leading zero: the first digit is 0 only for 0 itself. It has one digit exactly below 10 and two exactly from 10 to 99. |
| DatePath.ParseNatToString | lib/workspace.ts:120-121 | Parsing undoes decimal rendering. |
| DatePath.IntToStringInjective | lib/workspace.ts:121 | Distinct years give distinct year segments. |
| DatePath.PadStart | lib/workspace.ts:120 | `padStart` keeps the string as its suffix, fills the front with the pad character, and yields at least the requested length. |
| DatePath.WeekSegmentRoundTrip | lib/workspace.ts:120 | The week segment reads back as its week number. Weeks 1 to 53 give a 7-character segment. |
| DatePath.CalendarPath | lib/workspace.ts:120-122 | The path has five segments: "Workspace", "Calendar", the year rendering, a week segment that reads back as the week, and the day. |
| DatePath.TodayPath | lib/workspace.ts:117-122 | The year segment is the date's nominal year. The week segment is the two-digit ISO week of the date. The day segment is the given one. |
| DatePath.JoinPath | lib/workspace.ts:122 | `join("/")`: when no segment contains a slash, splitting the joined path at its slashes gives back the segments. |
| DatePath.FindOrCreate | lib/workspace.ts:123-127 | An existing node at the path is returned and nothing changes. Otherwise the new node is entered at the path, and every other path is untouched. |
| DatePath.TodayNode | lib/workspace.ts:117-127 | The node returned is the one the store holds at the date's joined path afterwards. An existing node is reused with the store unchanged; otherwise the new ID is entered at that path and nothing else changes. |
| DatePath.TodayNodeIdempotent | lib/workspace.ts:117-127 | Resolving the same date twice yields the same node, and the second call creates nothing. |
| DatePath.LateDecemberPath | lib/workspace.ts:117-122 | 2024-12-30 files under "2024/Week 01": nominal year, ISO week. |
| DatePath.EarlyJanuaryPath | lib/workspace.ts:117-122 | 2021-01-01 files under "2021/Week 53". |

## Left out

- `initialize`, `authenticated`, the backend, the search index and the node
  store's observers: these are I/O and persistence.
- `focus`, `getInput`, `showMenu`, `hideMenu`, `showPalette` and
  `hidePalette`: they touch only the DOM or rendering state (`menu`,
  `palette`), except `focus`, which also sets `context.node`.
- `executeCommand`: the command registry is not part of this model. Its use of
  `newContext` is modelled.
- `openQuickAdd`, `commitQuickAdd`, `clearQuickAdd` and `openToday`: these
  are compositions of node-store calls and of `todayNode` and `open`, over a
  tree the model does not hold. `openQuickAdd` also stores the quick-add node
  in the transient `quickadd` field, which the model does not hold.
- `closeQuickAdd`: it only clears the transient `quickadd` overlay field and
  redraws; the model does not hold that field.
- The command, keybinding and menu registries: no behaviour of their own here.
- `localStorage` is modelled only as the `lastOpen` field. `Math.random` is
  replaced by the panel counter, so a panel id is fresh by construction.
- `m.redraw()` calls are left out: they have no effect on the modelled state.
- Panel histories are only ever `[n]` in this code. Navigation inside a panel
  is not part of this model.
- TodayPath: the day segment is a parameter, because it is the locale-free
  prefix of `toUTCString()`, split at the year.
- TodayNode: `find` and `new` of the node store are modelled as a map from
  full path to node ID. The new ID is a parameter. Creating the intermediate
  path nodes is the node store's business and is not part of this model.
- DatePath.TodayPath: the week segment uses the corrected week,
  Calendar.WeekOfYear. For dates in years -1 to 100 the source builds its
  segment from the week as written (see "## Findings"): on 0100-01-01 it
  builds "Week -99085" where the model builds "Week 53".
- TodayPath: the current date is a parameter, not a clock reading.
  `getFullYear`, `getMonth` and `getDate` read local time while
  `toUTCString` reads UTC; the model assumes one calendar date throughout.
- WeekOfYear: dates are proleptic Gregorian and unbounded in year. The
  `Date` range limit of ±100,000,000 days is not modelled.
- Workspaces.GetExpanded: JavaScript object keys such as `constructor`,
  inherited from the prototype, are not modelled. Every key starts absent.
- Workspaces.Open and Workspaces.OpenNewPanel require row 0 to exist, as the
  source does (`this.panels[0]` would be undefined otherwise). The
  constructor establishes row 0 and no operation removes it.
- The source uses `closePanel`'s identity comparison `!==` on objects; the
  model compares panel ids. These agree because `Workspaces.Valid` requires
  that two known panels with the same id are equal (its `UniqueIds` clause).
  Workspaces.CloseByIdIsByIdentity states the agreement.

Where the week path and the year disagree, the code is followed. The year
segment is `getFullYear()`, the nominal year, while the week is the ISO week
of the ISO year. So 2024-12-30 files under "2024/Week 01" and 2021-01-01 under
"2021/Week 53" (DatePath.LateDecemberPath, DatePath.EarlyJanuaryPath).

## Findings

| source | as written | input that shows it | evidently intended | confidence | as-written member | corrected member |
|---|---|---|---|---|---|---|
| lib/workspace.ts:235-238 | `Date.UTC(year, …)` reads years 0 to 99 as 1900 to 1999, and this applies both to the date itself and to the Thursday's year. | 0100-01-01 (a Friday): its Thursday 0099-12-31 is measured from 1999-01-01, giving week -99085. | Week 53 of year 99, the ISO week. | not executed; `todayNode` passes the current date, so only direct callers of `getWeekOfYear` with such years can see it | Calendar.WeekOfYearAsWritten (Calendar.AsWrittenFailsOnYear100) | Calendar.WeekOfYear (Calendar.WeekOfYearIsIsoWeek) |
