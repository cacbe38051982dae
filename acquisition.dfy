/**
  The download half of `TXFDownloader.fetch_continuous_data` (tx_downloader.py,
  lines 268-308): every day of every planned segment is asked for its ticks, in
  plan order and day by day; a day that fails or has no trades is skipped and the
  walk goes on; the collected frames are concatenated and resampled into bars.
 */
module Acquisition {
  import opened Results
  import opened Calendar
  import opened Sequences
  import opened Contracts
  import opened Planner
  import opened Bars

  /** One call for a day's ticks: the contract and the day asked for. */
  datatype Request = Request(contract: Contract, day: Day)

  /** Why no bars come back. Each case is a logged message followed by `return None`. */
  datatype FetchError = PlanFailed(reason: PlanError) | NoTicks | NoBars

  /** The requests for days `lo` up to but excluding `hi` of one contract. */
  function DayRequests(c: Contract, lo: Day, hi: Day): seq<Request>
    decreases hi - lo
  {
    if hi <= lo then [] else DayRequests(c, lo, hi - 1) + [Request(c, hi - 1)]
  }

  /** Days `lo` to `hi - 1` of contract `c` are requested once each, in ascending order. */
  lemma {:induction false} DayRequestsAscend(c: Contract, lo: Day, hi: Day)
    ensures var r := DayRequests(c, lo, hi);
      |r| == (if lo <= hi then hi - lo else 0)
      && forall j :: 0 <= j < |r| ==> r[j] == Request(c, lo + j)
    decreases hi - lo
  {
    if lo < hi {
      DayRequestsAscend(c, lo, hi - 1);
    }
  }

  /** The requests of one segment: each day from `first` to `last`, once, in ascending order. */
  function SegmentRequests(seg: Segment): seq<Request>
  {
    DayRequests(seg.contract, seg.first, seg.last + 1)
  }

  /** The requests of a whole plan, segment after segment in plan order. */
  function Requests(plan: seq<Segment>): seq<Request>
  {
    if plan == [] then [] else Requests(plan[..|plan| - 1]) + SegmentRequests(Last(plan))
  }

  /**
    What a day contributes to `all_ticks_df`: its frame when the call succeeded
    and returned trades (`if ticks.ts`), nothing when it raised or came back empty.
   */
  function Kept(answer: Option<seq<Tick>>): seq<seq<Tick>>
  {
    if answer.Some? && answer.value != [] then [answer.value] else []
  }

  /** The frames gathered by asking for `reqs` in order. */
  function Collect(reqs: seq<Request>, answer: Request -> Option<seq<Tick>>): seq<seq<Tick>>
  {
    if reqs == [] then [] else Collect(reqs[..|reqs| - 1], answer) + Kept(answer(Last(reqs)))
  }

  /**
    The tick source (`api.ticks`). `answer` says what each request gets back:
    None when the call raises, otherwise the day's trades (possibly none). The
    feed keeps the log of requests made so far.
   */
  class TickFeed {
    const answer: Request -> Option<seq<Tick>>
    var calls: seq<Request>

    constructor (answer: Request -> Option<seq<Tick>>)
      ensures this.answer == answer && calls == []
    {
      this.answer := answer;
      calls := [];
    }

    /** Asks for one day's ticks; the request is logged. */
    method Ticks(req: Request) returns (ticks: Option<seq<Tick>>)
      modifies this
      ensures ticks == answer(req) && calls == old(calls) + [req]
    {
      ticks := answer(req);
      calls := calls + [req];
    }
  }

  lemma CollectStep(reqs: seq<Request>, req: Request, answer: Request -> Option<seq<Tick>>)
    ensures Collect(reqs + [req], answer) == Collect(reqs, answer) + Kept(answer(req))
  {
    assert (reqs + [req])[..|reqs|] == reqs;
  }

  /** One more day of a contract: its request comes last. */
  lemma SegmentDayStep(c: Contract, lo: Day, day: Day)
    requires lo <= day
    ensures DayRequests(c, lo, day + 1) == DayRequests(c, lo, day) + [Request(c, day)]
  {
  }

  /** Asking for `a` and then `b` gathers the frames of `a` followed by those of `b`. */
  lemma {:induction false} CollectAppend(a: seq<Request>, b: seq<Request>, answer: Request -> Option<seq<Tick>>)
    ensures Collect(a + b, answer) == Collect(a, answer) + Collect(b, answer)
    decreases |b|
  {
    if b == [] {
      assert a + b == a;
    } else {
      var init := b[..|b| - 1];
      calc {
        Collect(a + b, answer);
        { assert a + b == (a + init) + [Last(b)]; }
        Collect((a + init) + [Last(b)], answer);
        { CollectStep(a + init, Last(b), answer); }
        Collect(a + init, answer) + Kept(answer(Last(b)));
        { CollectAppend(a, init, answer); }
        Collect(a, answer) + Collect(init, answer) + Kept(answer(Last(b)));
        Collect(a, answer) + Collect(b, answer);
      }
    }
  }

  /** One more segment of the plan: its requests and frames follow those of the segments before it. */
  lemma PlanStep(plan: seq<Segment>, p: nat, log: seq<Request>, answer: Request -> Option<seq<Tick>>)
    requires p < |plan|
    ensures log + Requests(plan[..p + 1]) == log + Requests(plan[..p]) + SegmentRequests(plan[p])
    ensures Collect(Requests(plan[..p + 1]), answer)
         == Collect(Requests(plan[..p]), answer) + Collect(SegmentRequests(plan[p]), answer)
  {
    assert plan[..p + 1][..p] == plan[..p];
    CollectAppend(Requests(plan[..p]), SegmentRequests(plan[p]), answer);
  }

  /**
    The inner `while` of the walk (lines 273-290): every day of `seg` from the
    first to the last is requested once, in order; the frames of the days that
    returned trades are appended to `frames`.
   */
  method DownloadSegment(seg: Segment, feed: TickFeed, frames: seq<seq<Tick>>) returns (after: seq<seq<Tick>>)
    modifies feed
    ensures feed.calls == old(feed.calls) + SegmentRequests(seg)
    ensures after == frames + Collect(SegmentRequests(seg), feed.answer)
  {
    after := frames;
    var current := seg.first;
    ghost var done: seq<Request> := [];
    while current <= seg.last
      invariant seg.first <= current && (current <= seg.last + 1 || current == seg.first)
      invariant done == DayRequests(seg.contract, seg.first, current)
      invariant feed.calls == old(feed.calls) + done
      invariant after == frames + Collect(done, feed.answer)
      decreases seg.last - current
    {
      var req := Request(seg.contract, current);
      var ticks := feed.Ticks(req);
      SegmentDayStep(seg.contract, seg.first, current);
      CollectStep(done, req, feed.answer);
      if ticks.Some? && ticks.value != [] {
        after := after + [ticks.value];
      }
      done := done + [req];
      current := current + 1;
    }
  }

  /**
    The walk over the plan (lines 270-290): for each segment in plan order, each
    day from its first to its last is requested once; a failure is skipped.
   */
  method DownloadPlan(plan: seq<Segment>, feed: TickFeed) returns (frames: seq<seq<Tick>>)
    modifies feed
    ensures feed.calls == old(feed.calls) + Requests(plan)
    ensures frames == Collect(Requests(plan), feed.answer)
  {
    frames := [];
    for p := 0 to |plan|
      invariant feed.calls == old(feed.calls) + Requests(plan[..p])
      invariant frames == Collect(Requests(plan[..p]), feed.answer)
    {
      PlanStep(plan, p, old(feed.calls), feed.answer);
      frames := DownloadSegment(plan[p], feed, frames);
    }
    assert plan[..|plan|] == plan;
  }

  /** What `fetch_continuous_data` returns for the catalog, the request and the feed's answers. */
  function ContinuousBars(catalog: seq<Contract>, start: Day, end: Day,
                          answer: Request -> Option<seq<Tick>>): Result<seq<Bar>, FetchError>
  {
    match Plan(catalog, start, end)
    case Err(e) => Err(PlanFailed(e))
    case Ok(plan) => DownloadedBars(plan, answer)
  }

  /** The bars made from the ticks downloaded for `plan` (lines 294-308). */
  function DownloadedBars(plan: seq<Segment>, answer: Request -> Option<seq<Tick>>): Result<seq<Bar>, FetchError>
  {
    var frames := Collect(Requests(plan), answer);
    if frames == [] then Err(NoTicks)
    else match Resample(Some(Flatten(frames)))
      case None => Err(NoBars)
      case Some(bars) => if bars == [] then Err(NoBars) else Ok(bars)
  }

  /**
    `fetch_continuous_data`: plan, download day by day, concatenate and resample.
    No request is made when there is no plan.
   */
  method FetchContinuousData(catalog: seq<Contract>, start: Day, end: Day, feed: TickFeed)
    returns (r: Result<seq<Bar>, FetchError>)
    modifies feed
    ensures r == ContinuousBars(catalog, start, end, feed.answer)
    ensures feed.calls == old(feed.calls)
                          + (if Plan(catalog, start, end).Ok? then Requests(Plan(catalog, start, end).value) else [])
  {
    var plan := PlanQuery(catalog, start, end);
    if plan.Err? {
      return Err(PlanFailed(plan.error));
    }
    var frames := DownloadPlan(plan.value, feed);
    if frames == [] {
      return Err(NoTicks);
    }
    var bars := Resample(Some(Flatten(frames)));
    if bars.None? || bars.value == [] {
      return Err(NoBars);
    }
    return Ok(bars.value);
  }

  /** Some segment of `plan` holds the request's day for the request's contract. */
  ghost predicate FromSegment(plan: seq<Segment>, req: Request)
  {
    exists seg :: seg in plan && seg.contract == req.contract && seg.first <= req.day <= seg.last
  }

  /**
    The requests of non-empty contiguous segments ask for one day after another,
    from the first segment's first day to the last segment's last day, each day
    once and each for the contract of the segment holding it.
   */
  lemma {:induction false} RequestsOfContiguous(plan: seq<Segment>)
    requires plan != [] && Contiguous(plan)
    requires forall j :: 0 <= j < |plan| ==> plan[j].first <= plan[j].last
    ensures var reqs := Requests(plan);
      |reqs| == Last(plan).last - plan[0].first + 1
      && forall j :: 0 <= j < |reqs| ==> reqs[j].day == plan[0].first + j && FromSegment(plan, reqs[j])
  {
    var seg := Last(plan);
    var init := plan[..|plan| - 1];
    var tail := SegmentRequests(seg);
    var reqs := Requests(plan);
    assert reqs == Requests(init) + tail;
    DayRequestsAscend(seg.contract, seg.first, seg.last + 1);
    assert seg in plan;
    if init == [] {
      forall j | 0 <= j < |reqs|
        ensures reqs[j].day == plan[0].first + j && FromSegment(plan, reqs[j])
      {
        assert reqs[j] == tail[j];
      }
    } else {
      assert Contiguous(init);
      RequestsOfContiguous(init);
      var head := Requests(init);
      assert seg.first == Last(init).last + 1;
      forall j | 0 <= j < |reqs|
        ensures reqs[j].day == plan[0].first + j && FromSegment(plan, reqs[j])
      {
        if j < |head| {
          assert reqs[j] == head[j] && FromSegment(init, head[j]);
          var s :| s in init && s.contract == head[j].contract && s.first <= head[j].day <= s.last;
          assert s in plan;
        } else {
          assert reqs[j] == tail[j - |head|];
        }
      }
    }
  }

  /**
    With distinct contract codes and start <= end, the download asks for every
    day from `start` to the earlier of `end` and the latest regular delivery,
    in ascending order, each exactly once; each day is asked of a regular catalog
    contract still trading on that day, the one whose planned segment holds it.
   */
  lemma ContinuousRequests(catalog: seq<Contract>, start: Day, end: Day)
    requires DistinctCodes(catalog) && start <= end
    requires Plan(catalog, start, end).Ok?
    ensures var plan := Plan(catalog, start, end).value;
      var reqs := Requests(plan);
      |reqs| == Min(end, Last(Ordered(catalog)).delivery) - start + 1
      && forall j :: 0 <= j < |reqs| ==>
           reqs[j].day == start + j && FromSegment(plan, reqs[j])
           && reqs[j].contract in catalog && !IsSpread(reqs[j].contract)
           && reqs[j].day <= reqs[j].contract.delivery
  {
    var plan := Plan(catalog, start, end).value;
    PlanCoversRequest(catalog, start, end);
    PlanFollowsRollover(catalog, start, end);
    PlanSegmentsWithinRequest(catalog, start, end);
    forall j | 0 <= j < |plan|
      ensures plan[j].first <= plan[j].last
    {
      assert plan[j] in plan;
    }
    RequestsOfContiguous(plan);
    var reqs := Requests(plan);
    forall j | 0 <= j < |reqs|
      ensures reqs[j].contract in catalog && !IsSpread(reqs[j].contract)
      ensures reqs[j].day <= reqs[j].contract.delivery
    {
      var seg :| seg in plan && seg.contract == reqs[j].contract && seg.first <= reqs[j].day <= seg.last;
    }
  }

  /**
    Only successful days with trades leave a frame, and every one of them does,
    wherever it falls: a failing day never stops the days after it.
   */
  lemma {:induction false} CollectKeepsTradingDays(reqs: seq<Request>, answer: Request -> Option<seq<Tick>>)
    ensures forall f :: f in Collect(reqs, answer) ==>
      f != [] && exists j :: 0 <= j < |reqs| && answer(reqs[j]) == Some(f)
    ensures forall j :: 0 <= j < |reqs| && answer(reqs[j]).Some? && answer(reqs[j]).value != [] ==>
      answer(reqs[j]).value in Collect(reqs, answer)
  {
    if reqs != [] {
      var init := reqs[..|reqs| - 1];
      CollectKeepsTradingDays(init, answer);
      var r := Collect(reqs, answer);
      assert r == Collect(init, answer) + Kept(answer(Last(reqs)));
      forall f | f in r
        ensures f != [] && exists j :: 0 <= j < |reqs| && answer(reqs[j]) == Some(f)
      {
        if f in Collect(init, answer) {
          var j :| 0 <= j < |init| && answer(init[j]) == Some(f);
          assert init[j] == reqs[j];
        } else {
          assert answer(reqs[|reqs| - 1]) == Some(f);
        }
      }
      forall j | 0 <= j < |reqs| && answer(reqs[j]).Some? && answer(reqs[j]).value != []
        ensures answer(reqs[j]).value in r
      {
        if j < |init| {
          assert init[j] == reqs[j];
        }
      }
    }
  }

  /**
    Bars from a plan's downloads: none (for lack of ticks) exactly when no
    requested day returned trades; the "no bars after resampling" branch is never
    taken; and the bars are the 1-minute bars of all collected trades.
   */
  lemma DownloadedBarsOutcome(plan: seq<Segment>, answer: Request -> Option<seq<Tick>>)
    ensures var reqs := Requests(plan);
      DownloadedBars(plan, answer) == Err(NoTicks)
      <==> (forall j :: 0 <= j < |reqs| ==> answer(reqs[j]).None? || answer(reqs[j]).value == [])
    ensures DownloadedBars(plan, answer) != Err(NoBars)
    ensures DownloadedBars(plan, answer).Ok? ==>
      var ticks := Flatten(Collect(Requests(plan), answer));
      ticks != [] && BarsDescribe(SortBy(ticks, Ts), DownloadedBars(plan, answer).value)
  {
    var reqs := Requests(plan);
    var frames := Collect(reqs, answer);
    CollectKeepsTradingDays(reqs, answer);
    if frames != [] {
      assert frames[0] in frames;
      var ticks := Flatten(frames);
      assert ticks != [];
      ResampleAbsent(Some(ticks));
      ResampleGroupsByMinute(ticks);
    } else {
      forall j | 0 <= j < |reqs|
        ensures answer(reqs[j]).None? || answer(reqs[j]).value == []
      {
        if answer(reqs[j]).Some? && answer(reqs[j]).value != [] {
          assert answer(reqs[j]).value in frames;
        }
      }
    }
  }

  /** Without a plan the fetch fails with the planner's reason; with one, it returns the downloads' bars. */
  lemma FetchOutcome(catalog: seq<Contract>, start: Day, end: Day, answer: Request -> Option<seq<Tick>>)
    ensures var r := ContinuousBars(catalog, start, end, answer);
      (Plan(catalog, start, end).Err? <==> r.Err? && r.error.PlanFailed?)
      && (Plan(catalog, start, end).Err? ==> r == Err(PlanFailed(Plan(catalog, start, end).error)))
      && r != Err(NoBars)
  {
    if Plan(catalog, start, end).Ok? {
      DownloadedBarsOutcome(Plan(catalog, start, end).value, answer);
    }
  }
}
