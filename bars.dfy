/**
  `TXFDownloader.resample_ticks_to_1min_kbars` (tx_downloader.py, lines 133-156):
  trades are grouped into 1-minute buckets and every bucket holding at least one
  trade becomes an open/high/low/close/volume bar. Prices are integers here.
 */
module Bars {
  import opened Results
  import opened Sequences

  /** One trade: timestamp in nanoseconds, traded price (the `close` column) and volume. */
  datatype Tick = Tick(ts: int, price: int, volume: int)

  /** One 1-minute bar; `minute` is the bucket's start divided by one minute. */
  datatype Bar = Bar(minute: int, open: int, high: int, low: int, close: int, volume: int)

  const NanosPerMinute := 60_000_000_000

  function Ts(t: Tick): int
  {
    t.ts
  }

  /** The bucket of a tick: its timestamp floored to the minute (the divisor is positive, so `/` floors). */
  function MinuteOf(t: Tick): int
  {
    t.ts / NanosPerMinute
  }

  function MaxPrice(g: seq<Tick>): (r: int)
    requires g != []
    ensures forall t :: t in g ==> t.price <= r
    ensures exists t :: t in g && t.price == r
  {
    if |g| == 1 then g[0].price
    else
      var rest := MaxPrice(g[1..]);
      assert forall t :: t in g[1..] ==> t in g;
      if g[0].price >= rest then g[0].price else rest
  }

  function MinPrice(g: seq<Tick>): (r: int)
    requires g != []
    ensures forall t :: t in g ==> r <= t.price
    ensures exists t :: t in g && t.price == r
  {
    if |g| == 1 then g[0].price
    else
      var rest := MinPrice(g[1..]);
      assert forall t :: t in g[1..] ==> t in g;
      if g[0].price <= rest then g[0].price else rest
  }

  /** Sum of the volumes. */
  function TotalVolume(g: seq<Tick>): (r: int)
    ensures (forall t :: t in g ==> t.volume >= 0) ==> r >= 0
  {
    if g == [] then 0 else g[0].volume + TotalVolume(g[1..])
  }

  /**
    The bar of one non-empty bucket whose ticks are in chronological order:
    open is the first price, close the last, high the largest, low the smallest,
    volume the sum.
   */
  function BarOf(g: seq<Tick>): (b: Bar)
    requires g != []
    ensures b.low <= b.open <= b.high && b.low <= b.close <= b.high
  {
    assert g[0] in g && Last(g) in g;
    Bar(MinuteOf(g[0]), g[0].price, MaxPrice(g), MinPrice(g), Last(g).price, TotalVolume(g))
  }

  /** Number of leading ticks that fall in bucket `m`. */
  function RunLength(ts: seq<Tick>, m: int): (n: nat)
    ensures n <= |ts|
    ensures forall i :: 0 <= i < n ==> MinuteOf(ts[i]) == m
    ensures n < |ts| ==> MinuteOf(ts[n]) != m
  {
    if ts == [] || MinuteOf(ts[0]) != m then 0 else 1 + RunLength(ts[1..], m)
  }

  /** One bar per run of consecutive ticks that share a minute. */
  function BarsOfRuns(ts: seq<Tick>): seq<Bar>
    decreases |ts|
  {
    if ts == [] then []
    else
      var n := RunLength(ts, MinuteOf(ts[0]));
      [BarOf(ts[..n])] + BarsOfRuns(ts[n..])
  }

  /**
    `resample_ticks_to_1min_kbars`: no bars (None) for a missing or empty frame;
    otherwise the ticks are put in time order (stably, as pandas does for an index
    that is not sorted) and cut into 1-minute buckets; empty buckets are dropped.
   */
  function Resample(ticks: Option<seq<Tick>>): Option<seq<Bar>>
  {
    match ticks
    case None => None
    case Some(ts) => if ts == [] then None else Some(BarsOfRuns(SortBy(ts, Ts)))
  }

  /** Ticks in time order are in minute order too. */
  lemma MinutesFollowTime(ts: seq<Tick>)
    requires SortedBy(ts, Ts)
    ensures SortedBy(ts, MinuteOf)
  {
    forall a, b | 0 <= a < b < |ts|
      ensures MinuteOf(ts[a]) <= MinuteOf(ts[b])
    {
      assert Ts(ts[a]) <= Ts(ts[b]);
      FloorDivMonotone(ts[a].ts, ts[b].ts);
    }
  }

  lemma FloorDivMonotone(x: int, y: int)
    requires x <= y
    ensures x / NanosPerMinute <= y / NanosPerMinute
  {
    var qx, qy := x / NanosPerMinute, y / NanosPerMinute;
    assert x == qx * NanosPerMinute + x % NanosPerMinute;
    assert y == qy * NanosPerMinute + y % NanosPerMinute;
  }

  /** Some bar is for minute `m`. */
  ghost predicate HasBar(bars: seq<Bar>, m: int)
  {
    exists i :: 0 <= i < |bars| && bars[i].minute == m
  }

  /** Some tick falls in minute `m`. */
  ghost predicate HasTick(ts: seq<Tick>, m: int)
  {
    exists t :: t in ts && MinuteOf(t) == m
  }

  /** Bar minutes strictly ascend. */
  ghost predicate Ascending(bars: seq<Bar>)
  {
    forall a, b :: 0 <= a < b < |bars| ==> bars[a].minute < bars[b].minute
  }

  /** Every bar is BarOf the ticks of its minute, taken in their order in `ts`. */
  ghost predicate BuiltFromMinutes(ts: seq<Tick>, bars: seq<Bar>)
  {
    forall i :: 0 <= i < |bars| ==>
      WithKey(ts, MinuteOf, bars[i].minute) != []
      && bars[i] == BarOf(WithKey(ts, MinuteOf, bars[i].minute))
  }

  /** A minute has a bar exactly when it has a tick. */
  ghost predicate SameMinutes(ts: seq<Tick>, bars: seq<Bar>)
  {
    forall m :: HasBar(bars, m) <==> HasTick(ts, m)
  }

  /** The bars of minute-ordered ticks: what each bar holds and which minutes get one. */
  ghost predicate BarsDescribe(ts: seq<Tick>, bars: seq<Bar>)
  {
    Ascending(bars) && BuiltFromMinutes(ts, bars) && SameMinutes(ts, bars)
  }

  /** After the first run of minute-ordered ticks, every tick is in a later minute. */
  lemma AfterFirstRun(ts: seq<Tick>)
    requires SortedBy(ts, MinuteOf) && ts != []
    ensures var m := MinuteOf(ts[0]);
      forall t :: t in ts[RunLength(ts, m)..] ==> MinuteOf(t) > m
  {
    var m := MinuteOf(ts[0]);
    var n := RunLength(ts, m);
    var tail := ts[n..];
    forall t | t in tail
      ensures MinuteOf(t) > m
    {
      var j :| 0 <= j < |tail| && tail[j] == t;
      assert tail[j] == ts[n + j];
      assert MinuteOf(ts[0]) <= MinuteOf(ts[n + j]);
    }
  }

  /**
    The first run of minute-ordered ticks holds every tick of the first minute,
    and the ticks of every other minute all come after it.
   */
  lemma FirstRun(ts: seq<Tick>)
    requires SortedBy(ts, MinuteOf) && ts != []
    ensures var m := MinuteOf(ts[0]);
      var n := RunLength(ts, m);
      1 <= n && WithKey(ts, MinuteOf, m) == ts[..n]
      && (forall t :: t in ts[n..] ==> MinuteOf(t) > m)
      && (forall k :: k != m ==> WithKey(ts, MinuteOf, k) == WithKey(ts[n..], MinuteOf, k))
  {
    var m := MinuteOf(ts[0]);
    var n := RunLength(ts, m);
    var head, tail := ts[..n], ts[n..];
    assert ts == head + tail;
    AfterFirstRun(ts);
    WithKeyAppend(head, tail, MinuteOf, m);
    WithKeyAll(head, MinuteOf, m);
    WithKeyNone(tail, MinuteOf, m);
    forall k | k != m
      ensures WithKey(ts, MinuteOf, k) == WithKey(tail, MinuteOf, k)
    {
      WithKeyAppend(head, tail, MinuteOf, k);
      WithKeyNone(head, MinuteOf, k);
    }
  }

  lemma {:induction false} BarsOfRunsGroupByMinute(ts: seq<Tick>)
    requires SortedBy(ts, MinuteOf)
    ensures BarsDescribe(ts, BarsOfRuns(ts))
    decreases |ts|
  {
    if ts != [] {
      var n := RunLength(ts, MinuteOf(ts[0]));
      SortedSuffix(ts, MinuteOf, n);
      BarsOfRunsGroupByMinute(ts[n..]);
      RunStep(ts, n, BarsOfRuns(ts[n..]));
    }
  }

  /** The bar of the first run put in front of correct bars for the later ticks gives correct bars for all. */
  lemma RunStep(ts: seq<Tick>, n: nat, rest: seq<Bar>)
    requires SortedBy(ts, MinuteOf) && ts != [] && n == RunLength(ts, MinuteOf(ts[0]))
    requires BarsDescribe(ts[n..], rest)
    ensures BarsDescribe(ts, [BarOf(ts[..n])] + rest)
  {
    var m := MinuteOf(ts[0]);
    var tail := ts[n..];
    FirstRun(ts);
    var first := BarOf(ts[..n]);
    LaterBars(tail, rest, m);
    AscendingStep(first, rest);
    BuiltStep(ts, tail, first, rest);
    assert ts[0] in ts;
    SplitMembers(ts, n);
    forall t | t in ts[..n]
      ensures MinuteOf(t) == m
    {
      var j :| 0 <= j < n && ts[..n][j] == t;
    }
    SameMinutesStep(ts, tail, first, rest);
  }

  /** Bars of ticks that all lie after minute `m` are all for minutes after `m`. */
  lemma LaterBars(tail: seq<Tick>, rest: seq<Bar>, m: int)
    requires SameMinutes(tail, rest) && forall t :: t in tail ==> MinuteOf(t) > m
    ensures forall i :: 0 <= i < |rest| ==> rest[i].minute > m
  {
    forall i | 0 <= i < |rest|
      ensures rest[i].minute > m
    {
      assert HasBar(rest, rest[i].minute);
    }
  }

  lemma AscendingStep(first: Bar, rest: seq<Bar>)
    requires Ascending(rest) && forall i :: 0 <= i < |rest| ==> first.minute < rest[i].minute
    ensures Ascending([first] + rest)
  {
    var bars := [first] + rest;
    forall a, b | 0 <= a < b < |bars|
      ensures bars[a].minute < bars[b].minute
    {
      assert bars[b] == rest[b - 1];
      if a > 0 {
        assert bars[a] == rest[a - 1];
      }
    }
  }

  lemma BuiltStep(ts: seq<Tick>, tail: seq<Tick>, first: Bar, rest: seq<Bar>)
    requires BuiltFromMinutes(tail, rest)
    requires WithKey(ts, MinuteOf, first.minute) != []
    requires first == BarOf(WithKey(ts, MinuteOf, first.minute))
    requires forall i :: 0 <= i < |rest| ==>
      WithKey(ts, MinuteOf, rest[i].minute) == WithKey(tail, MinuteOf, rest[i].minute)
    ensures BuiltFromMinutes(ts, [first] + rest)
  {
    var bars := [first] + rest;
    forall i | 0 <= i < |bars|
      ensures WithKey(ts, MinuteOf, bars[i].minute) != []
      ensures bars[i] == BarOf(WithKey(ts, MinuteOf, bars[i].minute))
    {
      if i > 0 {
        assert bars[i] == rest[i - 1];
      }
    }
  }

  lemma SameMinutesStep(ts: seq<Tick>, tail: seq<Tick>, first: Bar, rest: seq<Bar>)
    requires SameMinutes(tail, rest) && HasTick(ts, first.minute)
    requires forall t :: t in ts ==> t in tail || MinuteOf(t) == first.minute
    requires forall t :: t in tail ==> t in ts
    ensures SameMinutes(ts, [first] + rest)
  {
    var bars := [first] + rest;
    forall k
      ensures HasBar(bars, k) <==> HasTick(ts, k)
    {
      if k == first.minute {
        assert bars[0].minute == k;
      } else {
        if HasTick(ts, k) {
          var t :| t in ts && MinuteOf(t) == k;
          assert HasTick(tail, k);
          var i :| 0 <= i < |rest| && rest[i].minute == k;
          assert bars[i + 1].minute == k;
        }
        if HasBar(bars, k) {
          var i :| 0 <= i < |bars| && bars[i].minute == k;
          assert bars[i] == rest[i - 1];
          assert HasBar(rest, k);
          var t :| t in tail && MinuteOf(t) == k;
        }
      }
    }
  }

  /** Resampling gives no bars exactly for a missing or empty frame, and never an empty list of bars. */
  lemma ResampleAbsent(ticks: Option<seq<Tick>>)
    ensures Resample(ticks).None? <==> ticks.None? || ticks.value == []
    ensures Resample(ticks).Some? ==> Resample(ticks).value != []
  {
  }

  /**
    For a non-empty frame, with `sorted` the ticks in stable time order: one bar
    per minute that holds a tick and none for empty minutes, in strictly ascending
    minute order, each bar built by BarOf from exactly the ticks of its minute in
    that order (open = first price, close = last, high = max, low = min, volume =
    sum). Ticks that arrive already in time order are taken as they are.
   */
  lemma ResampleGroupsByMinute(ts: seq<Tick>)
    requires ts != []
    ensures var sorted := SortBy(ts, Ts);
      Resample(Some(ts)).Some? && BarsDescribe(sorted, Resample(Some(ts)).value)
      && (forall t :: t in sorted <==> t in ts)
      && (SortedBy(ts, Ts) ==> sorted == ts)
  {
    var sorted := SortBy(ts, Ts);
    SortBySorted(ts, Ts);
    MinutesFollowTime(sorted);
    BarsOfRunsGroupByMinute(sorted);
    SortByMembers(ts, Ts);
    if SortedBy(ts, Ts) {
      SortByOfSorted(ts, Ts);
    }
  }
}
