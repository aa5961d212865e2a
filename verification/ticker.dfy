/**
 The live news stream of `NewsManager.getNewsStream`, with time reduced to discrete ticks.
 The stream cycles through a fixed list of items (the application passes `RawNews`):
 tick `i` of a stream started at index 0 looks at `items[i % |items|]`; the filter may
 suppress it, but the index advances either way; a surviving item is delivered decorated.
 */
module Ticker {
  import opened Wrappers
  import opened Feed

  /** What the consumer receives at tick `i`: nothing when the filter suppresses the item. */
  function Emission(items: seq<News>, filter: string, i: nat): Option<News>
    requires |items| > 0
  {
    var n := items[i % |items|];
    if Matches(filter, n) then Some(Decorate(n)) else None
  }

  /**
   Tick i delivers exactly when the filter admits the undecorated item i mod length, and
   what it delivers decodes back to that item.
   */
  lemma EmissionFilters(items: seq<News>, filter: string, i: nat)
    requires |items| > 0
    ensures Emission(items, filter, i).Some? <==> Matches(filter, items[i % |items|])
    ensures Emission(items, filter, i).Some? ==>
      Undecorate(Emission(items, filter, i).value) == Some(items[i % |items|])
  {
    UndecorateDecorate(items[i % |items|]);
  }

  /** `d` is the decorated copy of an item of the list that `filter` admits. */
  ghost predicate Admitted(items: seq<News>, filter: string, d: News) {
    exists j :: 0 <= j < |items| && Matches(filter, items[j]) && d == Decorate(items[j])
  }

  /** The items delivered during ticks 0 .. n-1, in delivery order. */
  function Delivered(items: seq<News>, filter: string, n: nat): (r: seq<News>)
    requires |items| > 0
    ensures |r| <= n
    ensures forall k :: 0 <= k < |r| ==> Admitted(items, filter, r[k])
    ensures filter == All ==> |r| == n && forall k :: 0 <= k < n ==> r[k] == Decorate(items[k % |items|])
  {
    if n == 0 then []
    else
      var prev := Delivered(items, filter, n - 1);
      match Emission(items, filter, n - 1)
      case None => prev
      case Some(d) =>
        var j := (n - 1) % |items|;
        assert Matches(filter, items[j]) && d == Decorate(items[j]);
        prev + [d]
  }

  /** The latest item delivered during ticks 0 .. n-1, or `fallback` while nothing was delivered. */
  function Latest(items: seq<News>, filter: string, n: nat, fallback: News): (r: News)
    requires |items| > 0
  {
    if n == 0 then fallback
    else
      match Emission(items, filter, n - 1)
      case Some(d) => d
      case None => Latest(items, filter, n - 1, fallback)
  }

  /** Latest really is the last element of the delivered sequence. */
  lemma {:induction false} LatestIsLastDelivered(items: seq<News>, filter: string, n: nat, fallback: News)
    requires |items| > 0
    ensures |Delivered(items, filter, n)| == 0 ==> Latest(items, filter, n, fallback) == fallback
    ensures |Delivered(items, filter, n)| > 0 ==>
      Latest(items, filter, n, fallback) == Delivered(items, filter, n)[|Delivered(items, filter, n)| - 1]
  {
    if n > 0 {
      LatestIsLastDelivered(items, filter, n - 1, fallback);
    }
  }

  /** The ticks among 0 .. n-1 at which an item reaches the consumer, in increasing order. */
  function DeliveryTicks(items: seq<News>, filter: string, n: nat): (r: seq<nat>)
    requires |items| > 0
    ensures forall k :: 0 <= k < |r| ==> r[k] < n && Emission(items, filter, r[k]).Some?
    ensures forall k, l :: 0 <= k < l < |r| ==> r[k] < r[l]
  {
    if n == 0 then []
    else
      var prev := DeliveryTicks(items, filter, n - 1);
      if Emission(items, filter, n - 1).Some? then prev + [n - 1] else prev
  }

  /** No delivering tick is left out: a tick is listed exactly when its item passes the filter. */
  lemma {:induction false} DeliveryTicksComplete(items: seq<News>, filter: string, n: nat, t: nat)
    requires |items| > 0
    ensures t in DeliveryTicks(items, filter, n) <==> t < n && Emission(items, filter, t).Some?
  {
    if n > 0 {
      DeliveryTicksComplete(items, filter, n - 1, t);
    }
  }

  /** The k-th delivered item is exactly what the generator emitted at the k-th delivery tick. */
  lemma {:induction false} DeliveryTicksLineUp(items: seq<News>, filter: string, n: nat)
    requires |items| > 0
    ensures |DeliveryTicks(items, filter, n)| == |Delivered(items, filter, n)|
    ensures forall k :: 0 <= k < |Delivered(items, filter, n)| ==>
      Emission(items, filter, DeliveryTicks(items, filter, n)[k]) == Some(Delivered(items, filter, n)[k])
  {
    if n > 0 {
      DeliveryTicksLineUp(items, filter, n - 1);
      var ticks, got := DeliveryTicks(items, filter, n - 1), Delivered(items, filter, n - 1);
      match Emission(items, filter, n - 1)
      case None =>
        assert DeliveryTicks(items, filter, n) == ticks && Delivered(items, filter, n) == got;
      case Some(d) =>
        assert DeliveryTicks(items, filter, n) == ticks + [n - 1];
        assert Delivered(items, filter, n) == got + [d];
    }
  }

  /**
   The generator loop run for `ticks` ticks: emit `items[i % |items|]`, advance `i`,
   and pass on the decorated item when the filter admits it.
   */
  method Stream(items: seq<News>, filter: string, ticks: nat) returns (delivered: seq<News>)
    requires |items| > 0
    ensures delivered == Delivered(items, filter, ticks)
  {
    delivered := [];
    var i := 0;
    while i < ticks
      invariant i <= ticks
      invariant delivered == Delivered(items, filter, i)
    {
      var news := items[i % |items|];
      if filter == All || news.category == filter {
        delivered := delivered + [news.(title := "[" + news.category + "] " + news.title)];
      }
      i := i + 1;
    }
  }

  /** With the "Semua" filter every tick delivers: tick n yields the decorated item n mod |items|. */
  lemma UnfilteredIsCyclic(items: seq<News>, n: nat)
    requires |items| > 0
    ensures Emission(items, All, n) == Some(Decorate(items[n % |items|]))
    ensures Delivered(items, All, n + 1)[n] == Decorate(items[n % |items|])
  {
  }

  /** The stream repeats with the length of the list as its period, under every filter. */
  lemma EmissionPeriodic(items: seq<News>, filter: string, n: nat)
    requires |items| > 0
    ensures Emission(items, filter, n + |items|) == Emission(items, filter, n)
  {
    DivModUnique(n, |items|, n / |items|, n % |items|);
    DivModUnique(n + |items|, |items|, n / |items| + 1, n % |items|);
  }

  /** Under a real filter every delivered item belongs to the selected category. */
  lemma FilteredItemsMatch(items: seq<News>, filter: string, n: nat)
    requires |items| > 0 && filter != All
    ensures forall k :: 0 <= k < |Delivered(items, filter, n)| ==> Delivered(items, filter, n)[k].category == filter
  {
  }

  /** A filter that no item of the list carries delivers nothing, however long the stream runs. */
  lemma {:induction false} UnknownFilterIsSilent(items: seq<News>, filter: string, n: nat)
    requires |items| > 0 && filter != All
    requires forall j :: 0 <= j < |items| ==> items[j].category != filter
    ensures Delivered(items, filter, n) == []
  {
    if n > 0 {
      UnknownFilterIsSilent(items, filter, n - 1);
      assert !Matches(filter, items[(n - 1) % |items|]);
    }
  }

  /** Quotient and remainder are determined by any decomposition a == p * q + r with 0 <= r < p. */
  lemma DivModUnique(a: int, p: int, q: int, r: int)
    requires p > 0 && 0 <= r < p && a == p * q + r
    ensures a / p == q && a % p == r
  {
    var q0, r0 := a / p, a % p;
    assert a == p * q0 + r0;
    assert p * (q0 - q) == r - r0;
    MulBound(p, q0 - q);
  }

  /** A nonzero multiple of a positive number is at least that number in size. */
  lemma MulBound(p: int, x: int)
    requires p > 0
    ensures x >= 1 ==> p * x >= p
    ensures x <= -1 ==> p * x <= -p
  {
  }

  /** How many of the ticks 0 .. n-1 leave remainder `j` modulo `p`. */
  function TicksWithRemainder(p: nat, j: nat, n: nat): nat
    requires j < p
  {
    (n + p - 1 - j) / p
  }

  /** One more tick adds one to the count exactly when that tick has remainder `j`. */
  lemma TicksWithRemainderStep(p: nat, j: nat, n: nat)
    requires j < p
    ensures TicksWithRemainder(p, j, n + 1) == TicksWithRemainder(p, j, n) + (if n % p == j then 1 else 0)
    ensures n % p == j ==> n == j + p * TicksWithRemainder(p, j, n)
  {
    var q, r := n / p, n % p;
    DivModUnique(n, p, q, r);
    assert p * (q + 1) == p * q + p;
    if r == j {
      DivModUnique(n + p - 1 - j, p, q, p - 1);
      DivModUnique(n + p - j, p, q + 1, 0);
    } else if r > j {
      DivModUnique(n + p - 1 - j, p, q + 1, r - j - 1);
      DivModUnique(n + p - j, p, q + 1, r - j);
    } else {
      DivModUnique(n + p - 1 - j, p, q, r - j + p - 1);
      DivModUnique(n + p - j, p, q, r - j + p);
    }
  }

  /** `c` is carried by exactly one item of the list, the one at index `j`. */
  predicate OnlyMatchAt(items: seq<News>, c: string, j: nat) {
    && j < |items| && items[j].category == c && c != All
    && forall i :: 0 <= i < |items| && items[i].category == c ==> i == j
  }

  /** Under such a filter, tick t delivers exactly when t leaves remainder j, and delivers item j. */
  lemma SingleMatchEmission(items: seq<News>, c: string, j: nat, t: nat)
    requires OnlyMatchAt(items, c, j)
    ensures Emission(items, c, t).Some? <==> t % |items| == j
    ensures Emission(items, c, t).Some? ==> Emission(items, c, t).value == Decorate(items[j])
  {
  }

  /**
   When exactly one item of the list, at index j, carries category c, a stream filtered
   on c delivers exactly at ticks j, j + |items|, j + 2 |items|, ...: suppressed ticks
   still advance the generator's index.
   */
  lemma {:induction false} SingleMatchSchedule(items: seq<News>, c: string, j: nat, n: nat)
    requires OnlyMatchAt(items, c, j)
    ensures |DeliveryTicks(items, c, n)| == TicksWithRemainder(|items|, j, n)
    ensures forall k :: 0 <= k < |DeliveryTicks(items, c, n)| ==>
      DeliveryTicks(items, c, n)[k] == j + |items| * k
  {
    if n > 0 {
      var t, p := n - 1, |items|;
      SingleMatchSchedule(items, c, j, t);
      TicksWithRemainderStep(p, j, t);
      SingleMatchEmission(items, c, j, t);
      var prev := DeliveryTicks(items, c, t);
      if t % p == j {
        var r := prev + [t];
        assert DeliveryTicks(items, c, n) == r;
        assert t == j + p * |prev|;
        assert forall k :: 0 <= k < |prev| ==> r[k] == prev[k];
      } else {
        assert DeliveryTicks(items, c, n) == prev;
      }
    }
  }

  /** Under such a filter every delivery is the same decorated item. */
  lemma {:induction false} SingleMatchRepeats(items: seq<News>, c: string, j: nat, n: nat)
    requires OnlyMatchAt(items, c, j)
    ensures forall k :: 0 <= k < |Delivered(items, c, n)| ==> Delivered(items, c, n)[k] == Decorate(items[j])
  {
    if n > 0 {
      SingleMatchRepeats(items, c, j, n - 1);
      SingleMatchEmission(items, c, j, n - 1);
    }
  }
}
