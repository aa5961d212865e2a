# NEWSFLOW ticker — a Dafny model

This project models the logic of the single-screen NEWSFLOW demo (`App.kt`): the
`NewsManager` class and the state changes that the `App()` composable applies to it.

- **Feed** (`feed.dfy`): the `News` record, the six sample items (`rawNews`), the seven
  category chips (`categories`, "Semua" first) and the title decoration
  `"[" + category + "] " + title` applied to each delivered item.
- **Ticker** (`ticker.dfy`): the `getNewsStream` flow, with time reduced to discrete ticks.
  Tick `i` looks at `items[i % |items|]`. The filter may suppress that item, but the index
  still advances. A surviving item is delivered with its decorated title. The stream is
  written over any non-empty list and is used with the six sample items. It is modelled in
  two ways: as pure functions of the tick count (`Emission`, `Delivered`, `DeliveryTicks`,
  `Latest`) and as the generator loop itself (`Stream`).
- **Manager** (`manager.dfy`): the read counter (`markAsRead`, starting at 0) and the text
  that the simulated detail fetch returns (`fetchNewsDetail`), without its delay.
- **Screen** (`screen.dfy`): the state of `App()`. This is the card's current item, the
  selected chip, the fetching flag, the detail text and the read count, plus the stream's
  tick index and the title the running fetch was started with. There are four transitions:
  choosing a chip, a stream tick, pressing the read button (only enabled while no fetch
  runs), and the completion of that fetch. `Run` applies a sequence of actions and returns
  `None` if an action was not enabled when its turn came.

Behaviour that follows the code:

- **Re-choosing the selected chip does nothing.** The stream effect is a `LaunchedEffect`
  keyed on `selectedCategory`. Setting the state to the value it already holds changes
  neither the key nor the screen. So in the model only choosing a *different* chip shows
  the "Memfilter kategori" placeholder and restarts the stream at index 0. A plain reading
  would say that every tap on a chip resets the ticker; the code does not do that.
- **The first emission comes at once.** After a (re)start, the effect writes the
  placeholder, then the generator emits and the collector writes the item, all before the
  first `delay`. Nothing can run in between. The model therefore folds tick 0 into the
  restart itself: a restarted stream already stands at index 1. With "Semua" or "Religi",
  whose item sits at index 0, the placeholder is never visible. With any other chip it stays
  until that chip's item comes round.

## Model

| member | source | states |
|---|---|---|
| Feed.Matches | composeApp/src/commonMain/kotlin/com/example/pengembanganaplikasimobile/App.kt:60 | the filter admits an item when it is "Semua" or equals the item's own (undecorated) category |
| Feed.MatchesIgnoresDecoration | composeApp/src/commonMain/kotlin/com/example/pengembanganaplikasimobile/App.kt:60-61 | decoration keeps the category, so filtering before or after decorating gives the same verdict |
| Feed.Prefix | composeApp/src/commonMain/kotlin/com/example/pengembanganaplikasimobile/App.kt:61 | the prefix is "[", then exactly the category, then "] " |
| Feed.Decorate | composeApp/src/commonMain/kotlin/com/example/pengembanganaplikasimobile/App.kt:61 | decoration keeps id, category and tag, and makes the title the category prefix followed by the old title |
| Feed.DecoratedTitleShape | composeApp/src/commonMain/kotlin/com/example/pengembanganaplikasimobile/App.kt:61 | the delivered title reads "[", the category, "] ", then the original title, with nothing else |
| Feed.Undecorate | composeApp/src/commonMain/kotlin/com/example/pengembanganaplikasimobile/App.kt:61 | any item it recovers decorates back to the delivered item |
| Feed.UndecorateDecorate | composeApp/src/commonMain/kotlin/com/example/pengembanganaplikasimobile/App.kt:61 | removing the "[category] " prefix from a delivered item gives back the original item, for every item |
| Feed.DecorateInjective | composeApp/src/commonMain/kotlin/com/example/pengembanganaplikasimobile/App.kt:61 | two items that look the same once delivered were the same item |
| Feed.CategoryIndex | composeApp/src/commonMain/kotlin/com/example/pengembanganaplikasimobile/App.kt:38-45 | finds a sample item of the given category, or reports none exactly when no sample item has it |
| Feed.CategoriesListRawCategories | composeApp/src/commonMain/kotlin/com/example/pengembanganaplikasimobile/App.kt:38-50 | the chip list is "Semua" followed by the six sample categories in sample order |
| Feed.RawCategoriesDistinct | composeApp/src/commonMain/kotlin/com/example/pengembanganaplikasimobile/App.kt:39-44 | no two sample items share a category, and none is filed under "Semua" |
| Feed.ChipSelectsExactlyOne | composeApp/src/commonMain/kotlin/com/example/pengembanganaplikasimobile/App.kt:39-50 | every chip other than "Semua" matches exactly one sample item |
| Ticker.Emission | composeApp/src/commonMain/kotlin/com/example/pengembanganaplikasimobile/App.kt:55-61 | tick i yields the decorated item i mod length when the filter admits it, and nothing otherwise |
| Ticker.EmissionFilters | composeApp/src/commonMain/kotlin/com/example/pengembanganaplikasimobile/App.kt:55-61 | tick i delivers exactly when the filter admits the undecorated item i mod length, and the delivery decodes back to that item |
| Ticker.Delivered | composeApp/src/commonMain/kotlin/com/example/pengembanganaplikasimobile/App.kt:52-61 | at most one delivery per tick; each delivered item is the decorated copy of a list item that the filter admits; with "Semua" the k-th delivery is the decorated item k mod length |
| Ticker.DeliveryTicks | composeApp/src/commonMain/kotlin/com/example/pengembanganaplikasimobile/App.kt:53-60 | every listed tick lies before n and its item passes the filter, and the listed ticks increase strictly |
| Ticker.DeliveryTicksComplete | composeApp/src/commonMain/kotlin/com/example/pengembanganaplikasimobile/App.kt:53-60 | a tick below n is listed exactly when the filter lets its item through |
| Ticker.DeliveryTicksLineUp | composeApp/src/commonMain/kotlin/com/example/pengembanganaplikasimobile/App.kt:55-61 | the k-th delivered item is what the generator emitted at the k-th delivering tick |
| Ticker.Stream | composeApp/src/commonMain/kotlin/com/example/pengembanganaplikasimobile/App.kt:52-61 | the generator loop, filtered and mapped, delivers exactly the items of the tick-indexed definition |
| Ticker.UnfilteredIsCyclic | composeApp/src/commonMain/kotlin/com/example/pengembanganaplikasimobile/App.kt:53-61 | with "Semua" every tick n delivers the decorated item n mod length |
| Ticker.EmissionPeriodic | composeApp/src/commonMain/kotlin/com/example/pengembanganaplikasimobile/App.kt:55 | under every filter the stream repeats with the list length as its period |
| Ticker.FilteredItemsMatch | composeApp/src/commonMain/kotlin/com/example/pengembanganaplikasimobile/App.kt:60-61 | under a filter other than "Semua" every delivered item has the filter as its category |
| Ticker.UnknownFilterIsSilent | composeApp/src/commonMain/kotlin/com/example/pengembanganaplikasimobile/App.kt:52-60 | a filter that no list item carries delivers nothing, however many ticks pass |
| Ticker.Latest | composeApp/src/commonMain/kotlin/com/example/pengembanganaplikasimobile/App.kt:85-87 | the collector's last write after n ticks: the latest delivered item, or the fallback while nothing was delivered |
| Ticker.LatestIsLastDelivered | composeApp/src/commonMain/kotlin/com/example/pengembanganaplikasimobile/App.kt:85-87 | the collector's latest item is the last element delivered, or the fallback while nothing was delivered |
| Ticker.SingleMatchEmission | composeApp/src/commonMain/kotlin/com/example/pengembanganaplikasimobile/App.kt:55-61 | when one item at index j carries the filter, tick t delivers exactly when t mod length is j, and it delivers that item |
| Ticker.SingleMatchSchedule | composeApp/src/commonMain/kotlin/com/example/pengembanganaplikasimobile/App.kt:53-60 | such a filter delivers exactly at ticks j, j + length, j + 2 length, ..., and their count after n ticks is the number of ticks below n with remainder j |
| Ticker.SingleMatchRepeats | composeApp/src/commonMain/kotlin/com/example/pengembanganaplikasimobile/App.kt:55-61 | such a filter delivers the same decorated item every time |
| Manager.MarkAsRead | composeApp/src/commonMain/kotlin/com/example/pengembanganaplikasimobile/App.kt:63 | a read raises the counter by exactly one |
| Manager.ReadCountCountsReads | composeApp/src/commonMain/kotlin/com/example/pengembanganaplikasimobile/App.kt:47-63 | starting from 0, after k reads the counter reads k |
| Manager.ReadCountMonotone | composeApp/src/commonMain/kotlin/com/example/pengembanganaplikasimobile/App.kt:47-63 | the counter never decreases as reads accumulate |
| Manager.FetchNewsDetail | composeApp/src/commonMain/kotlin/com/example/pengembanganaplikasimobile/App.kt:65-70 | the report is the fixed lead, then the title, then the fixed tail |
| Manager.DetailTitle | composeApp/src/commonMain/kotlin/com/example/pengembanganaplikasimobile/App.kt:67-69 | any title read back from a text is one whose report is that text |
| Manager.DetailTitleRoundTrip | composeApp/src/commonMain/kotlin/com/example/pengembanganaplikasimobile/App.kt:67-69 | the title can always be read back from its report, so distinct titles give distinct reports |
| Manager.DetailContainsTitle | composeApp/src/commonMain/kotlin/com/example/pengembanganaplikasimobile/App.kt:67-69 | the report is non-empty and contains the title |
| Screen.FilterPlaceholder | composeApp/src/commonMain/kotlin/com/example/pengembanganaplikasimobile/App.kt:84 | the placeholder has id 0, category "Live", the antenna tag, and the title "Memfilter kategori: ", the category, then an ellipsis |
| Screen.Initial | composeApp/src/commonMain/kotlin/com/example/pengembanganaplikasimobile/App.kt:79-90 | the first composition shows the connecting item with "Semua" selected, count 0, no fetch and no report |
| Screen.Mounted | composeApp/src/commonMain/kotlin/com/example/pengembanganaplikasimobile/App.kt:83-88 | once the effect has started for "Semua", the card already shows the first sample item, decorated, at stream index 1, with count 0, no fetch and no report |
| Screen.MountedInv | composeApp/src/commonMain/kotlin/com/example/pengembanganaplikasimobile/App.kt:79-90 | the mounted screen satisfies the invariant |
| Screen.Advance | composeApp/src/commonMain/kotlin/com/example/pengembanganaplikasimobile/App.kt:55-87 | one tick of the running stream moves the index on by one and leaves chip, fetch, pending title, report and count alone |
| Screen.AdvanceShowsNext | composeApp/src/commonMain/kotlin/com/example/pengembanganaplikasimobile/App.kt:55-87 | when the card showed the last delivery before the tick, after the tick it shows the last delivery up to and including it |
| Screen.RestartStream | composeApp/src/commonMain/kotlin/com/example/pengembanganaplikasimobile/App.kt:83-87 | restarting the keyed effect puts the stream at index 1 and leaves chip, fetch, pending title, report and count alone |
| Screen.RestartShowsFirstEmission | composeApp/src/commonMain/kotlin/com/example/pengembanganaplikasimobile/App.kt:83-87 | the restarted screen is exactly what the fresh stream leaves after its first emission: the card shows that delivery, or the chip's placeholder when it delivered nothing |
| Screen.Enabled | composeApp/src/commonMain/kotlin/com/example/pengembanganaplikasimobile/App.kt:197-357 | a chip tap only names a listed category, and the read button only fires while no fetch runs (the `clickable(enabled = !isFetching)` guard at line 357); completion only follows a started fetch |
| Screen.Status | composeApp/src/commonMain/kotlin/com/example/pengembanganaplikasimobile/App.kt:342 | the status reads "Loading…" exactly while a fetch runs, "Siap" otherwise |
| Screen.Step | composeApp/src/commonMain/kotlin/com/example/pengembanganaplikasimobile/App.kt:83-364 | only the read button moves the counter, by one; ticks and chip taps leave the fetch, pending title and report alone; read sets fetching, captures the card's title and clears the report; completion sets the report for the captured title and clears fetching; read and completion leave card, chip and index alone; a tick advances the index |
| Screen.StepInv | composeApp/src/commonMain/kotlin/com/example/pengembanganaplikasimobile/App.kt:83-90 | every enabled transition keeps the chip a listed category, keeps the fetching flag in step with the in-flight fetch, and keeps the card on the latest delivery of the current stream |
| Screen.TickShowsNext | composeApp/src/commonMain/kotlin/com/example/pengembanganaplikasimobile/App.kt:85-87 | a tick moves the card to the next entry of the current stream and keeps the invariant, changing nothing else |
| Screen.StepReadCount | composeApp/src/commonMain/kotlin/com/example/pengembanganaplikasimobile/App.kt:357-358 | only the read button changes the counter, and by exactly one |
| Screen.SelectCategoryEffect | composeApp/src/commonMain/kotlin/com/example/pengembanganaplikasimobile/App.kt:83-84 | choosing another chip selects it and restarts its stream, which has already taken its first tick (index 1, card on that tick's delivery or the placeholder), with nothing else changed; re-choosing the selected chip changes nothing |
| Screen.RestartDeliversAtOnce | composeApp/src/commonMain/kotlin/com/example/pengembanganaplikasimobile/App.kt:83-87 | after choosing "Semua" or "Religi" the card already shows the first sample item; after any other chip it shows that chip's placeholder |
| Screen.ReadThenComplete | composeApp/src/commonMain/kotlin/com/example/pengembanganaplikasimobile/App.kt:342-364 | read while idle: the count goes up by one, the status goes to "Loading…", the detail is cleared, and the button is disabled; completion sets the report for the captured title and the status back to "Siap"; card, chip and stream index are untouched |
| Screen.ShownNewsMatchesFilter | composeApp/src/commonMain/kotlin/com/example/pengembanganaplikasimobile/App.kt:83-87 | the card shows either the chip's placeholder or a decorated sample item that the chip admits |
| Screen.RunReadCount | composeApp/src/commonMain/kotlin/com/example/pengembanganaplikasimobile/App.kt:357-358 | along any run the counter rises by the number of read presses, whatever fetches are pending or done |
| Screen.RunInv | composeApp/src/commonMain/kotlin/com/example/pengembanganaplikasimobile/App.kt:83-90 | every run from a reachable state ends in a state satisfying the invariant |
| Screen.RunFetchBalance | composeApp/src/commonMain/kotlin/com/example/pengembanganaplikasimobile/App.kt:357-364 | each read starts exactly one fetch, each fetch completes at most once, and at most one is in flight |
| Screen.RunPassiveKeepsFetch | composeApp/src/commonMain/kotlin/com/example/pengembanganaplikasimobile/App.kt:357-364 | ticks and taps on listed chips are always possible and leave the pending title, fetching flag, report and counter unchanged |
| Screen.ReportUsesTitleAtPress | composeApp/src/commonMain/kotlin/com/example/pengembanganaplikasimobile/App.kt:357-364 | after read, any ticks and chip changes, then completion, the report is the one for the title on the card at the press; it contains that title, the status is "Siap" and the count went up by one |
| Screen.MountedRun | composeApp/src/commonMain/kotlin/com/example/pengembanganaplikasimobile/App.kt:79-90 | from the mounted screen the counter equals the number of reads, and the chip stays a listed category |
| Screen.UnfilteredTicker | composeApp/src/commonMain/kotlin/com/example/pengembanganaplikasimobile/App.kt:55-61 | with "Semua" the card shows the decorated sample item n mod 6 after tick n |
| Screen.ChipSchedule | composeApp/src/commonMain/kotlin/com/example/pengembanganaplikasimobile/App.kt:39-60 | for a chip other than "Semua" whose item is at index j, items arrive exactly at ticks j, j+6, j+12, ... and are always that item |
| Screen.RunTicks | composeApp/src/commonMain/kotlin/com/example/pengembanganaplikasimobile/App.kt:85-87 | k ticks advance the stream index by k and leave the card on the latest delivery, nothing else changing |
| Screen.SelectThenTicks | composeApp/src/commonMain/kotlin/com/example/pengembanganaplikasimobile/App.kt:83-87 | choosing another chip and waiting k more ticks shows what that chip's fresh stream delivered in k + 1 ticks |
| Screen.TechTicker | composeApp/src/commonMain/kotlin/com/example/pengembanganaplikasimobile/App.kt:43-61 | with "Tech" the stream delivers nothing in its first four ticks, then item 5 titled "[Tech] Teknologi AI Terus Berkembang Pesat di Indonesia" |
| Screen.TechEndToEnd | composeApp/src/commonMain/kotlin/com/example/pengembanganaplikasimobile/App.kt:83-364 | choose "Tech", wait four more ticks, read, complete: the count goes 0 to 1, the status goes "Siap" to "Loading…" to "Siap", and the report contains the title on the card |

## Left out

- Rendering: layout, colours, gradients, blur, the category-chip colours, the stat cards, the notification badge, and the animated content and visibility. These are presentation only.
- The pulsing LIVE dot animation: a floating-point, purely visual value.
- Coroutine timing. The 2-second tick delay, the 1.2-second fetch delay, `Dispatchers.Default` and `withContext` are not modelled. Time is a sequence of discrete ticks, and the fetch is a request/complete pair of transitions. Cancelling the old stream collector on a chip change becomes replacing the stream index.
- The moment the fetched title is read. In the code, `currentNews.title` is read when the launched coroutine starts, just after the click. The model reads it at the press itself, with no tick in between.
- `getPlatform()`: a platform call whose source is not part of this model.
- 32-bit `Int` wrap-around of the tick counter and the read counter: both are unbounded naturals here.
- Ticker.Emission, Ticker.Delivered, Ticker.Latest, Ticker.DeliveryTicks, Ticker.Stream: they require a non-empty list. The code only ever uses the fixed six-item list, and on an empty list `i % 0` would throw.
- A failing fetch: the code has no failure path, so the model has none either.
