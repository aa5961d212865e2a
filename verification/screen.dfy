/**
 The screen state of `App()` and the four things that change it: choosing a category
 chip (which restarts the keyed stream effect), a tick of the running stream, pressing
 the read button, and the completion of the detail fetch it started.
 */
module Screen {
  import opened Wrappers
  import opened Feed
  import opened Ticker
  import opened Manager

  /**
   `current`, `selected`, `fetching`, `detail` and `readCount` are the screen's state;
   `index` is the running stream's tick counter and `pending` the title the in-flight
   fetch was started with.
   */
  datatype State = State(
    current: News,
    selected: string,
    fetching: bool,
    detail: string,
    readCount: nat,
    index: nat,
    pending: Option<string>)

  datatype Action = SelectCategory(category: string) | Tick | ReadPressed | FetchCompleted

  /** What the ticker card shows before the first effect runs. */
  const Connecting: News := News(0, "Menghubungkan ke server…", "Live", "📡")

  /** What the ticker card shows while a restarted stream has not yet delivered for category `c`. */
  function FilterPlaceholder(c: string): (p: News)
    ensures p.id == 0 && p.category == "Live" && p.tag == "📡"
    ensures |p.title| == |c| + 21
    ensures p.title[..20] == "Memfilter kategori: " && p.title[20..|p.title| - 1] == c
    ensures p.title[|p.title| - 1] == '…'
  {
    var title := "Memfilter kategori: " + c + "…";
    assert title[20..|title| - 1] == c;
    News(0, title, "Live", "📡")
  }

  /** The state when the screen is first composed, before its effect runs. */
  function Initial(): (s: State)
    ensures s.current == Connecting && s.selected == All
    ensures !s.fetching && s.detail == "" && s.readCount == 0 && s.pending.None?
  {
    State(Connecting, All, false, "", InitialReadCount, 0, None)
  }

  /** One tick of the running stream: show the item emitted at the current index, if any, and advance. */
  function Advance(s: State): (r: State)
    ensures r.index == s.index + 1 && r.selected == s.selected
    ensures r.fetching == s.fetching && r.detail == s.detail
    ensures r.readCount == s.readCount && r.pending == s.pending
  {
    var shown := match Emission(RawNews, s.selected, s.index)
      case Some(d) => d
      case None => s.current;
    s.(current := shown, index := s.index + 1)
  }

  /**
   The keyed effect starting (again): show the placeholder and collect a fresh stream from
   index 0. The generator emits before its first delay, and nothing suspends in between, so
   that first emission lands in the same step.
   */
  function RestartStream(s: State): (r: State)
    ensures r.index == 1 && r.selected == s.selected
    ensures r.fetching == s.fetching && r.detail == s.detail
    ensures r.readCount == s.readCount && r.pending == s.pending
  {
    Advance(s.(current := FilterPlaceholder(s.selected), index := 0))
  }

  /** The state once the first composition has started the effect for "Semua": the first sample item is already shown. */
  function Mounted(): (s: State)
    ensures s.selected == All && s.index == 1
    ensures s.current == Decorate(RawNews[0])
    ensures !s.fetching && s.detail == "" && s.readCount == 0 && s.pending.None?
  {
    RestartStream(Initial())
  }

  /** The status card's text: "Loading…" exactly while a fetch runs, "Siap" otherwise. */
  function Status(s: State): (r: string)
    ensures r == "Loading…" || r == "Siap"
    ensures r == "Loading…" <==> s.fetching
  {
    if s.fetching then "Loading…" else "Siap"
  }

  /** Chips only offer listed categories; the read button is disabled while a fetch runs. */
  predicate Enabled(s: State, a: Action) {
    match a
    case SelectCategory(c) => c in Categories
    case Tick => true
    case ReadPressed => !s.fetching
    case FetchCompleted => s.pending.Some?
  }

  /**
   One transition. Re-selecting the chip already selected leaves the effect's key
   unchanged, so the stream is not restarted. Ticks and chips never touch the fetch or
   the counter; the read button and the fetch completion never touch the ticker.
   */
  function Step(s: State, a: Action): (r: State)
    requires Enabled(s, a)
    ensures r.readCount == s.readCount + (if a.ReadPressed? then 1 else 0)
    ensures a.Tick? || a.SelectCategory? ==>
      r.fetching == s.fetching && r.pending == s.pending && r.detail == s.detail
    ensures a.ReadPressed? ==> r.fetching && r.pending == Some(s.current.title) && r.detail == ""
    ensures a.FetchCompleted? ==>
      !r.fetching && r.pending.None? && r.detail == FetchNewsDetail(s.pending.value)
    ensures a.ReadPressed? || a.FetchCompleted? ==>
      r.current == s.current && r.selected == s.selected && r.index == s.index
    ensures a.Tick? ==> r.selected == s.selected && r.index == s.index + 1
  {
    match a
    case SelectCategory(c) =>
      if c == s.selected then s else RestartStream(s.(selected := c))
    case Tick =>
      Advance(s)
    case ReadPressed =>
      s.(readCount := MarkAsRead(s.readCount), fetching := true, detail := "", pending := Some(s.current.title))
    case FetchCompleted =>
      s.(detail := FetchNewsDetail(s.pending.value), fetching := false, pending := None)
  }

  /** What the ticker card shows `n` ticks after the stream restarted with filter `f`. */
  function Showing(f: string, n: nat): News {
    Latest(RawNews, f, n, FilterPlaceholder(f))
  }

  /** The invariant of every reachable state. */
  predicate Inv(s: State) {
    && s.selected in Categories
    && (s.fetching <==> s.pending.Some?)
    && s.current == Showing(s.selected, s.index)
  }

  /** The mounted screen is reachable in the sense of the invariant. */
  lemma MountedInv()
    ensures Inv(Mounted())
  {
  }

  /** Every enabled transition keeps the invariant. */
  lemma StepInv(s: State, a: Action)
    requires Inv(s) && Enabled(s, a)
    ensures Inv(Step(s, a))
  {
    match a
    case Tick => TickShowsNext(s);
    case SelectCategory(c) => SelectCategoryEffect(s, c);
    case ReadPressed =>
    case FetchCompleted =>
  }

  /** A tick moves the card from the last delivery before the current index to the last delivery up to it. */
  lemma AdvanceShowsNext(s: State)
    requires s.current == Showing(s.selected, s.index)
    ensures Advance(s).current == Showing(s.selected, s.index + 1)
  {
  }

  /** Restarting the effect leaves the screen as the fresh stream leaves it after its first emission. */
  lemma RestartShowsFirstEmission(s: State)
    ensures RestartStream(s) == s.(current := Showing(s.selected, 1), index := 1)
  {
    var t := s.(current := FilterPlaceholder(s.selected), index := 0);
    assert t.current == Showing(t.selected, 0);
    AdvanceShowsNext(t);
  }

  /** A tick moves the card to the next entry of the current stream and changes nothing else. */
  lemma TickShowsNext(s: State)
    requires Inv(s)
    ensures Step(s, Tick) == s.(current := Showing(s.selected, s.index + 1), index := s.index + 1)
    ensures Inv(Step(s, Tick))
  {
  }

  /** Only the read button moves the counter, and by exactly one. */
  lemma StepReadCount(s: State, a: Action)
    requires Enabled(s, a)
    ensures Step(s, a).readCount == s.readCount + (if a.ReadPressed? then 1 else 0)
  {
  }

  /**
   Choosing a different chip selects it, shows its placeholder and restarts the stream
   at index 0; re-choosing the selected chip changes nothing. Reading state is untouched.
   */
  lemma SelectCategoryEffect(s: State, c: string)
    requires c in Categories
    ensures c != s.selected ==>
      Step(s, SelectCategory(c)) == s.(selected := c, current := Showing(c, 1), index := 1)
    ensures c == s.selected ==> Step(s, SelectCategory(c)) == s
  {
  }

  /**
   The placeholder is never visible after choosing "Semua" or "Religi": their first item
   sits at index 0 and is delivered in the same step that restarts the stream. Any other
   chip keeps its placeholder until its item's tick comes round.
   */
  lemma RestartDeliversAtOnce(s: State, c: string)
    requires c in Categories && c != s.selected
    ensures c == All || c == "Religi" ==> Step(s, SelectCategory(c)).current == Decorate(RawNews[0])
    ensures c != All && c != "Religi" ==> Step(s, SelectCategory(c)).current == FilterPlaceholder(c)
  {
    assert Emission(RawNews, c, 0) == (if c == All || c == "Religi" then Some(Decorate(RawNews[0])) else None);
  }

  /**
   Pressing read while idle counts the read, enters the loading status, clears the old
   report and captures the shown title; completion then fills in the report for that
   title and returns to idle. The ticker and the filter are left alone throughout.
   */
  lemma ReadThenComplete(s: State)
    requires Inv(s) && !s.fetching
    ensures Status(s) == "Siap"
    ensures Enabled(s, ReadPressed)
    ensures var t := Step(s, ReadPressed);
      && Status(t) == "Loading…" && t.detail == "" && t.readCount == s.readCount + 1
      && !Enabled(t, ReadPressed) && Enabled(t, FetchCompleted)
      && t.current == s.current && t.selected == s.selected && t.index == s.index
    ensures var u := Step(Step(s, ReadPressed), FetchCompleted);
      && Status(u) == "Siap" && u.readCount == s.readCount + 1
      && u.detail == FetchNewsDetail(s.current.title) && Contains(u.detail, s.current.title)
      && u.current == s.current && u.selected == s.selected && u.index == s.index
  {
    DetailContainsTitle(s.current.title);
  }

  /** Under a real filter the ticker card shows either the placeholder or an item of that category. */
  lemma ShownNewsMatchesFilter(s: State)
    requires Inv(s)
    ensures s.current == FilterPlaceholder(s.selected) || Admitted(RawNews, s.selected, s.current)
    ensures s.selected != All && s.current.category != "Live" ==> s.current.category == s.selected
  {
    LatestIsLastDelivered(RawNews, s.selected, s.index, FilterPlaceholder(s.selected));
  }

  /** Applies actions in order; `None` when some action was not enabled at its turn. */
  function Run(s: State, acts: seq<Action>): Option<State>
    decreases |acts|
  {
    if acts == [] then Some(s)
    else if !Enabled(s, acts[0]) then None
    else Run(Step(s, acts[0]), acts[1..])
  }

  /** How many presses of the read button a sequence of actions holds. */
  function Reads(acts: seq<Action>): nat {
    if acts == [] then 0 else (if acts[0].ReadPressed? then 1 else 0) + Reads(acts[1..])
  }

  /** How many fetch completions a sequence of actions holds. */
  function Completions(acts: seq<Action>): nat {
    if acts == [] then 0 else (if acts[0].FetchCompleted? then 1 else 0) + Completions(acts[1..])
  }

  /** Along any run the counter rises by the number of reads, whatever else happens. */
  lemma {:induction false} RunReadCount(s: State, acts: seq<Action>)
    requires Run(s, acts).Some?
    ensures Run(s, acts).value.readCount == s.readCount + Reads(acts)
    decreases |acts|
  {
    if acts != [] {
      StepReadCount(s, acts[0]);
      RunReadCount(Step(s, acts[0]), acts[1..]);
    }
  }

  /** Every run from a reachable state ends in a reachable state. */
  lemma {:induction false} RunInv(s: State, acts: seq<Action>)
    requires Inv(s) && Run(s, acts).Some?
    ensures Inv(Run(s, acts).value)
    decreases |acts|
  {
    if acts != [] {
      StepInv(s, acts[0]);
      RunInv(Step(s, acts[0]), acts[1..]);
    }
  }

  /**
   Fetches never overlap and are never lost: every read starts exactly one fetch, each
   completed once, and at most one is in flight.
   */
  lemma {:induction false} RunFetchBalance(s: State, acts: seq<Action>)
    requires Inv(s) && Run(s, acts).Some?
    ensures Reads(acts) + (if s.fetching then 1 else 0)
      == Completions(acts) + (if Run(s, acts).value.fetching then 1 else 0)
    decreases |acts|
  {
    if acts != [] {
      StepInv(s, acts[0]);
      RunFetchBalance(Step(s, acts[0]), acts[1..]);
    }
  }

  /** Running `a` then `b` is running `a + b`. */
  lemma {:induction false} RunAppend(s: State, a: seq<Action>, b: seq<Action>)
    ensures Run(s, a + b) == match Run(s, a) case Some(t) => Run(t, b) case None => None
    decreases |a|
  {
    if a == [] {
      assert a + b == b;
    } else {
      assert (a + b)[0] == a[0];
      if Enabled(s, a[0]) {
        assert (a + b)[1..] == a[1..] + b;
        RunAppend(Step(s, a[0]), a[1..], b);
      }
    }
  }

  /** Actions that only touch the ticker: stream ticks and taps on listed chips. */
  predicate Passive(a: Action) {
    a.Tick? || (a.SelectCategory? && a.category in Categories)
  }

  /** Ticks and chip changes are always possible and leave the fetch, the report and the counter alone. */
  lemma {:induction false} RunPassiveKeepsFetch(s: State, acts: seq<Action>)
    requires forall i :: 0 <= i < |acts| ==> Passive(acts[i])
    ensures Run(s, acts).Some?
    ensures var t := Run(s, acts).value;
      && t.pending == s.pending && t.fetching == s.fetching
      && t.detail == s.detail && t.readCount == s.readCount
    decreases |acts|
  {
    if acts != [] {
      assert Passive(acts[0]);
      RunPassiveKeepsFetch(Step(s, acts[0]), acts[1..]);
    }
  }

  /**
   The report is about the title on the card when read was pressed, however the card
   moved on (ticks, chip changes) before the fetch completed.
   */
  lemma ReportUsesTitleAtPress(s: State, acts: seq<Action>)
    requires Inv(s) && !s.fetching
    requires forall i :: 0 <= i < |acts| ==> Passive(acts[i])
    ensures Run(s, [ReadPressed] + acts + [FetchCompleted]).Some?
    ensures var u := Run(s, [ReadPressed] + acts + [FetchCompleted]).value;
      && u.detail == FetchNewsDetail(s.current.title) && Contains(u.detail, s.current.title)
      && Status(u) == "Siap" && u.readCount == s.readCount + 1
  {
    var pressed := Step(s, ReadPressed);
    assert Run(s, [ReadPressed]) == Some(pressed) by {
      assert [ReadPressed][1..] == [];
    }
    RunAppend(s, [ReadPressed], acts);
    RunPassiveKeepsFetch(pressed, acts);
    var t := Run(pressed, acts).value;
    RunAppend(s, [ReadPressed] + acts, [FetchCompleted]);
    assert Run(t, [FetchCompleted]) == Some(Step(t, FetchCompleted)) by {
      assert [FetchCompleted][1..] == [];
    }
    DetailContainsTitle(s.current.title);
  }

  /** From the mounted screen, the counter equals the number of reads and the chip stays a listed one. */
  lemma MountedRun(acts: seq<Action>)
    requires Run(Mounted(), acts).Some?
    ensures Run(Mounted(), acts).value.readCount == Reads(acts)
    ensures Run(Mounted(), acts).value.selected in Categories
  {
    MountedInv();
    RunReadCount(Mounted(), acts);
    RunInv(Mounted(), acts);
  }

  /** With "Semua" selected, tick n shows the decorated sample item n mod 6. */
  lemma UnfilteredTicker(n: nat)
    ensures Showing(All, n + 1) == Decorate(RawNews[n % 6])
  {
  }

  /**
   With chip c other than "Semua" selected, whose sample item sits at index j, the item
   arrives exactly at ticks j, j + 6, j + 12, ... and is the same item every time.
   */
  lemma ChipSchedule(c: string, n: nat)
    requires c in Categories && c != All
    ensures CategoryIndex(c).Some?
    ensures |DeliveryTicks(RawNews, c, n)| == TicksWithRemainder(6, CategoryIndex(c).value, n)
    ensures forall k :: 0 <= k < |DeliveryTicks(RawNews, c, n)| ==>
      DeliveryTicks(RawNews, c, n)[k] == CategoryIndex(c).value + 6 * k
    ensures forall k :: 0 <= k < |Delivered(RawNews, c, n)| ==>
      Delivered(RawNews, c, n)[k] == Decorate(RawNews[CategoryIndex(c).value])
  {
    ChipSelectsExactlyOne(c);
    var j := CategoryIndex(c).value;
    assert OnlyMatchAt(RawNews, c, j);
    SingleMatchSchedule(RawNews, c, j, n);
    SingleMatchRepeats(RawNews, c, j, n);
  }

  /** k ticks of the stream and nothing else. */
  function Ticks(k: nat): (acts: seq<Action>)
    ensures |acts| == k && forall i :: 0 <= i < k ==> acts[i] == Tick
  {
    seq(k, _ => Tick)
  }

  /** Ticks advance the stream index one by one and keep the card on the latest delivery. */
  lemma {:induction false} RunTicks(s: State, k: nat)
    requires Inv(s)
    ensures Run(s, Ticks(k)).Some?
    ensures var t := Run(s, Ticks(k)).value;
      && t == s.(current := Showing(s.selected, s.index + k), index := s.index + k)
    decreases k
  {
    if k > 0 {
      var s' := Step(s, Tick);
      TickShowsNext(s);
      assert Run(s, Ticks(k)) == Run(s', Ticks(k)[1..]);
      assert Ticks(k)[1..] == Ticks(k - 1);
      RunTicks(s', k - 1);
    }
  }

  /**
   Choosing another chip and letting k more ticks pass shows what that chip's stream
   delivered in k + 1 ticks, the first of them taken when the stream restarted.
   */
  lemma SelectThenTicks(s: State, c: string, k: nat)
    requires Inv(s) && c in Categories && c != s.selected
    ensures Run(s, [SelectCategory(c)] + Ticks(k)).Some?
    ensures var t := Run(s, [SelectCategory(c)] + Ticks(k)).value;
      && t == s.(selected := c, current := Showing(c, k + 1), index := k + 1)
  {
    var s' := Step(s, SelectCategory(c));
    StepInv(s, SelectCategory(c));
    assert ([SelectCategory(c)] + Ticks(k))[1..] == Ticks(k);
    RunTicks(s', k);
  }

  /** The "Tech" chip: nothing for four ticks, then the Tech item with its bracketed title. */
  lemma TechTicker()
    ensures Showing("Tech", 4) == FilterPlaceholder("Tech")
    ensures Showing("Tech", 5) == Decorate(RawNews[4])
    ensures Showing("Tech", 5).id == 5 && Showing("Tech", 5).category == "Tech"
    ensures Showing("Tech", 5).title == "[Tech] " + "Teknologi AI Terus Berkembang Pesat di Indonesia"
  {
    assert Emission(RawNews, "Tech", 0) == None;
    assert Emission(RawNews, "Tech", 1) == None;
    assert Emission(RawNews, "Tech", 2) == None;
    assert Emission(RawNews, "Tech", 3) == None;
    assert Prefix("Tech") == "[Tech] ";
  }

  /**
   From the mounted screen: choose "Tech", wait four more ticks, press read, let the fetch
   complete. The counter goes from 0 to 1, the status from "Siap" to "Loading…" and back,
   and the report contains the title on the card.
   */
  lemma TechEndToEnd()
    ensures var acts := [SelectCategory("Tech")] + Ticks(4);
      && Run(Mounted(), acts).Some?
      && var t := Run(Mounted(), acts).value;
      && t.current == Showing("Tech", 5) && Status(t) == "Siap" && t.readCount == 0
      && Status(Step(t, ReadPressed)) == "Loading…" && Step(t, ReadPressed).readCount == 1
      && var u := Step(Step(t, ReadPressed), FetchCompleted);
      && Status(u) == "Siap" && u.readCount == 1 && Contains(u.detail, Showing("Tech", 5).title)
  {
    MountedInv();
    SelectThenTicks(Mounted(), "Tech", 4);
    var t := Run(Mounted(), [SelectCategory("Tech")] + Ticks(4)).value;
    StepInv(Mounted(), SelectCategory("Tech"));
    ReadThenComplete(t);
  }
}
