/**
  The continuous-contract query planner of `TXFDownloader.fetch_continuous_data`
  (tx_downloader.py, lines 221-266): it splits a requested day range across the
  regular TXF contracts so that each day is fetched from the contract that owns it.
  A contract owns the days from the day after its predecessor's delivery up to
  and including its own delivery day.
 */
module Planner {
  import opened Results
  import opened Calendar
  import opened Sequences
  import opened Contracts

  /** One entry of the query plan: fetch `contract` on every day from `first` to `last`, both included. */
  datatype Segment = Segment(contract: Contract, first: Day, last: Day)

  /** Why no plan is made. The source logs one message for each case and returns None. */
  datatype PlanError = NoRegularContract | NoLiveContract

  function Max(a: int, b: int): int
  {
    if a >= b then a else b
  }

  function Min(a: int, b: int): int
  {
    if a <= b then a else b
  }

  /** Index of the first contract, at or after `i`, that still trades on `start`. */
  function FirstLive(cs: seq<Contract>, start: Day, i: nat): (r: Option<nat>)
    requires i <= |cs|
    ensures r.Some? ==> i <= r.value < |cs| && cs[r.value].delivery >= start
    ensures r.Some? ==> forall j :: i <= j < r.value ==> cs[j].delivery < start
    ensures r.None? ==> forall j :: i <= j < |cs| ==> cs[j].delivery < start
    decreases |cs| - i
  {
    if i == |cs| then None
    else if cs[i].delivery >= start then Some(i)
    else FirstLive(cs, start, i + 1)
  }

  /**
    The rollover rule for a walk that began at index `k`: the first contract's
    range starts on the requested `start`, every later contract's range on the day
    after the previous contract's delivery.
   */
  function RangeStart(cs: seq<Contract>, k: nat, i: nat, start: Day): Day
    requires k <= i < |cs|
  {
    if i == k then start else cs[i - 1].delivery + 1
  }

  /** The segment contract `i` contributes once its range is clamped to `[start, end]`, unless that is empty. */
  function SegmentAt(cs: seq<Contract>, k: nat, i: nat, start: Day, end: Day): Option<Segment>
    requires k <= i < |cs|
  {
    var first := Max(start, RangeStart(cs, k, i, start));
    var last := Min(end, cs[i].delivery);
    if first <= last then Some(Segment(cs[i], first, last)) else None
  }

  /**
    `query_plan[code] = segment` on a Python dict keyed by contract code: an
    existing key keeps its place and takes the new value, a new key goes last.
   */
  function Put(plan: seq<Segment>, seg: Segment): seq<Segment>
  {
    if plan == [] then [seg]
    else if plan[0].contract.code == seg.contract.code then [seg] + plan[1..]
    else [plan[0]] + Put(plan[1..], seg)
  }

  /** Storing under a code not yet in the plan appends the segment. */
  lemma {:induction false} PutNew(plan: seq<Segment>, seg: Segment)
    requires forall x :: x in plan ==> x.contract.code != seg.contract.code
    ensures Put(plan, seg) == plan + [seg]
  {
    if plan != [] {
      assert plan[0] in plan;
      assert forall x :: x in plan[1..] ==> x in plan;
      PutNew(plan[1..], seg);
      assert plan == [plan[0]] + plan[1..];
    }
  }

  /**
    Storing under a code already in the plan (codes being distinct) overwrites
    that entry in its place: the plan keeps its length and order.
   */
  lemma {:induction false} PutExisting(plan: seq<Segment>, seg: Segment, j: nat)
    requires j < |plan| && plan[j].contract.code == seg.contract.code
    requires forall a, b :: 0 <= a < b < |plan| ==> plan[a].contract.code != plan[b].contract.code
    ensures Put(plan, seg) == plan[j := seg]
  {
    if j > 0 {
      assert plan[0].contract.code != seg.contract.code;
      PutExisting(plan[1..], seg, j - 1);
      assert plan[j := seg] == [plan[0]] + plan[1..][j - 1 := seg];
    } else {
      assert plan[0 := seg] == [seg] + plan[1..];
    }
  }

  /** After storing, the segment is in the plan, and every entry is an old one or the new one. */
  lemma {:induction false} PutMembers(plan: seq<Segment>, seg: Segment)
    ensures seg in Put(plan, seg)
    ensures forall x :: x in Put(plan, seg) ==> x in plan || x == seg
  {
    if plan != [] && plan[0].contract.code != seg.contract.code {
      PutMembers(plan[1..], seg);
      assert forall x :: x in plan[1..] ==> x in plan;
    }
  }

  /** The plan after visiting contract `i`: its segment, if any, is recorded. */
  function Visit(cs: seq<Contract>, k: nat, i: nat, start: Day, end: Day, acc: seq<Segment>): seq<Segment>
    requires k <= i < |cs|
  {
    match SegmentAt(cs, k, i, start, end)
    case Some(seg) => Put(acc, seg)
    case None => acc
  }

  /** The walk from contract `i` on, stopping after the first contract that delivers on or after `end`. */
  function Walk(cs: seq<Contract>, k: nat, i: nat, start: Day, end: Day, acc: seq<Segment>): seq<Segment>
    requires k <= i <= |cs|
    decreases |cs| - i
  {
    if i == |cs| then acc
    else if cs[i].delivery >= end then Visit(cs, k, i, start, end, acc)
    else Walk(cs, k, i + 1, start, end, Visit(cs, k, i, start, end, acc))
  }

  /** The query plan for the request `[start, end]`, or why there is none. */
  function Plan(catalog: seq<Contract>, start: Day, end: Day): Result<seq<Segment>, PlanError>
  {
    var cs := Ordered(catalog);
    if cs == [] then Err(NoRegularContract)
    else match FirstLive(cs, start, 0)
      case None => Err(NoLiveContract)
      case Some(k) => Ok(Walk(cs, k, k, start, end, []))
  }

  /** The scan for `start_contract_idx`: the first contract in delivery order still trading on `start`, or -1. */
  method FindStartContract(cs: seq<Contract>, start: Day) returns (idx: int)
    ensures idx == -1 <==> FirstLive(cs, start, 0).None?
    ensures idx != -1 ==> FirstLive(cs, start, 0) == Some(idx)
  {
    idx := -1;
    for i := 0 to |cs|
      invariant idx == -1
      invariant FirstLive(cs, start, 0) == FirstLive(cs, start, i)
    {
      if cs[i].delivery >= start {
        idx := i;
        break;
      }
    }
  }

  /**
    The walk that fills `query_plan`: from contract `k` on, record each contract's
    clamped range when it is not empty, and stop after the first contract that
    delivers on or after `end`.
   */
  method WalkContracts(cs: seq<Contract>, k: nat, start: Day, end: Day) returns (plan: seq<Segment>)
    requires k < |cs|
    ensures plan == Walk(cs, k, k, start, end, [])
  {
    plan := [];
    for i := k to |cs|
      invariant Walk(cs, k, k, start, end, []) == Walk(cs, k, i, start, end, plan)
    {
      ghost var before := plan;
      var contract := cs[i];
      var rangeStart := if i == k then start else cs[i - 1].delivery + 1;
      var rangeEnd := contract.delivery;
      var effectiveStart := Max(start, rangeStart);
      var effectiveEnd := Min(end, rangeEnd);
      if effectiveStart <= effectiveEnd {
        plan := Put(plan, Segment(contract, effectiveStart, effectiveEnd));
      }
      assert plan == Visit(cs, k, i, start, end, before);
      WalkUnfold(cs, k, i, start, end, before);
      if contract.delivery >= end {
        break;
      }
    }
  }

  /** One step of Walk: visit contract `i`, then stop or go on to `i + 1`. */
  lemma WalkUnfold(cs: seq<Contract>, k: nat, i: nat, start: Day, end: Day, acc: seq<Segment>)
    requires k <= i < |cs|
    ensures Walk(cs, k, i, start, end, acc)
         == if cs[i].delivery >= end then Visit(cs, k, i, start, end, acc)
            else Walk(cs, k, i + 1, start, end, Visit(cs, k, i, start, end, acc))
  {
  }

  /** Past a contract delivering before `end`, the walk goes on to the next contract. */
  lemma WalkGoesOn(cs: seq<Contract>, k: nat, i: nat, start: Day, end: Day, acc: seq<Segment>)
    requires k <= i < |cs| && cs[i].delivery < end
    ensures Walk(cs, k, i, start, end, acc) == Walk(cs, k, i + 1, start, end, Visit(cs, k, i, start, end, acc))
  {
  }

  /** The planning part of `fetch_continuous_data`: drop spreads, sort, find the first live contract, walk. */
  method PlanQuery(catalog: seq<Contract>, start: Day, end: Day) returns (r: Result<seq<Segment>, PlanError>)
    ensures r == Plan(catalog, start, end)
  {
    var cs := Ordered(catalog);
    if cs == [] {
      return Err(NoRegularContract);
    }
    var startIdx := FindStartContract(cs, start);
    if startIdx == -1 {
      return Err(NoLiveContract);
    }
    var plan := WalkContracts(cs, startIdx, start, end);
    return Ok(plan);
  }

  // ---------------------------------------------------------------------------
  // Properties of the plan

  /** The plan fails exactly when the catalog has no regular contract, or none still trading on `start`. */
  lemma PlanErrors(catalog: seq<Contract>, start: Day, end: Day)
    ensures Plan(catalog, start, end) == Err(NoRegularContract)
        <==> forall c :: c in catalog ==> IsSpread(c)
    ensures Plan(catalog, start, end) == Err(NoLiveContract)
        <==> (exists c :: c in catalog && !IsSpread(c))
             && forall c :: c in catalog && !IsSpread(c) ==> c.delivery < start
  {
    var cs := Ordered(catalog);
    if cs != [] {
      assert cs[0] in cs;
      if FirstLive(cs, start, 0).None? {
        forall c | c in catalog && !IsSpread(c)
          ensures c.delivery < start
        {
        }
      } else {
        assert cs[FirstLive(cs, start, 0).value] in cs;
      }
    } else {
      forall c | c in catalog
        ensures IsSpread(c)
      {
      }
    }
  }

  /** `seg` is the range contract `j` of a walk begun at `k` owns, clamped to end on `end`. */
  ghost predicate OwnedBy(cs: seq<Contract>, k: nat, start: Day, end: Day, seg: Segment, j: int)
  {
    k <= j < |cs| && seg == Segment(cs[j], RangeStart(cs, k, j, start), Min(end, cs[j].delivery))
  }

  /**
    `seg` is the range that some contract of the delivery-ordered catalog owns
    in the walk that begins at the first contract still trading on `start`.
   */
  ghost predicate RollsOver(catalog: seq<Contract>, start: Day, end: Day, seg: Segment)
  {
    var cs := Ordered(catalog);
    FirstLive(cs, start, 0).Some? && exists j :: OwnedBy(cs, FirstLive(cs, start, 0).value, start, end, seg, j)
  }

  lemma {:induction false} WalkOwned(cs: seq<Contract>, k: nat, i: nat, start: Day, end: Day, acc: seq<Segment>)
    requires SortedBy(cs, Delivery)
    requires k <= i <= |cs| && k < |cs| && cs[k].delivery >= start
    requires forall seg :: seg in acc ==> seg.first <= seg.last && exists j :: OwnedBy(cs, k, start, end, seg, j)
    ensures forall seg :: seg in Walk(cs, k, i, start, end, acc) ==>
              seg.first <= seg.last && exists j :: OwnedBy(cs, k, start, end, seg, j)
    decreases |cs| - i
  {
    if i < |cs| {
      var acc' := Visit(cs, k, i, start, end, acc);
      if i > k {
        assert Delivery(cs[k]) <= Delivery(cs[i - 1]);
      }
      match SegmentAt(cs, k, i, start, end) {
        case Some(seg) =>
          assert OwnedBy(cs, k, start, end, seg, i);
          PutMembers(acc, seg);
        case None =>
      }
      if cs[i].delivery < end {
        WalkOwned(cs, k, i + 1, start, end, acc');
      }
    }
  }

  /**
    Every planned segment follows the rollover rule: it is the range its contract
    owns (from the requested start for the first contract walked, from the day
    after the previous contract's delivery otherwise), ended at the requested end
    or the delivery day, whichever is earlier; and it is never empty.
   */
  lemma PlanFollowsRollover(catalog: seq<Contract>, start: Day, end: Day)
    requires Plan(catalog, start, end).Ok?
    ensures forall seg :: seg in Plan(catalog, start, end).value ==>
      seg.first <= seg.last && RollsOver(catalog, start, end, seg)
  {
    var cs := Ordered(catalog);
    var k := FirstLive(cs, start, 0).value;
    var segs := Walk(cs, k, k, start, end, []);
    assert Plan(catalog, start, end).value == segs;
    WalkOwned(cs, k, k, start, end, []);
    forall seg | seg in segs
      ensures seg.first <= seg.last && exists j :: OwnedBy(cs, k, start, end, seg, j)
    {
    }
  }

  /**
    Every planned segment uses a regular catalog contract and lies inside the
    request and inside its contract's life: start <= first <= last <= end and
    last <= delivery.
   */
  lemma PlanSegmentsWithinRequest(catalog: seq<Contract>, start: Day, end: Day)
    requires Plan(catalog, start, end).Ok?
    ensures forall seg :: seg in Plan(catalog, start, end).value ==>
      seg.contract in catalog && !IsSpread(seg.contract)
      && start <= seg.first <= seg.last <= end && seg.last <= seg.contract.delivery
  {
    var cs := Ordered(catalog);
    var k := FirstLive(cs, start, 0).value;
    PlanFollowsRollover(catalog, start, end);
    forall seg | seg in Plan(catalog, start, end).value
      ensures seg.contract in catalog && !IsSpread(seg.contract)
      ensures start <= seg.first <= seg.last <= end && seg.last <= seg.contract.delivery
    {
      var j :| OwnedBy(cs, k, start, end, seg, j);
      assert cs[j] in cs;
      if j > k {
        assert Delivery(cs[k]) <= Delivery(cs[j - 1]);
      }
    }
  }

  /** A one-day request is planned as exactly one one-day segment. */
  lemma SingleDayPlan(catalog: seq<Contract>, day: Day)
    requires Plan(catalog, day, day).Ok?
    ensures |Plan(catalog, day, day).value| == 1
    ensures Plan(catalog, day, day).value[0].first == day == Plan(catalog, day, day).value[0].last
  {
    var cs := Ordered(catalog);
    var k := FirstLive(cs, day, 0).value;
    assert SegmentAt(cs, k, k, day, day) == Some(Segment(cs[k], day, day));
  }

  /** Each segment begins the day after the previous one ends: no gap, no overlap. */
  ghost predicate Contiguous(segs: seq<Segment>)
  {
    forall j :: 0 <= j < |segs| - 1 ==> segs[j + 1].first == segs[j].last + 1
  }

  /** Day `d` falls in some segment of `segs`. */
  ghost predicate Covers(segs: seq<Segment>, d: Day)
  {
    exists j :: 0 <= j < |segs| && segs[j].first <= d <= segs[j].last
  }

  /** Non-empty contiguous segments are strictly ascending and together cover one interval of days. */
  lemma {:induction false} ContiguousCover(segs: seq<Segment>)
    requires segs != [] && Contiguous(segs)
    requires forall j :: 0 <= j < |segs| ==> segs[j].first <= segs[j].last
    ensures forall a, b :: 0 <= a < b < |segs| ==> segs[a].last < segs[b].first
    ensures forall d :: Covers(segs, d) <==> segs[0].first <= d <= Last(segs).last
  {
    var n := |segs|;
    if n > 1 {
      var init := segs[..n - 1];
      assert Contiguous(init);
      ContiguousCover(init);
      forall a, b | 0 <= a < b < n
        ensures segs[a].last < segs[b].first
      {
        if b < n - 1 {
          assert init[a] == segs[a] && init[b] == segs[b];
        } else if a < n - 2 {
          assert init[a] == segs[a] && init[n - 2] == segs[n - 2];
        }
      }
      forall d
        ensures Covers(segs, d) <==> segs[0].first <= d <= Last(segs).last
      {
        if segs[0].first <= d <= Last(segs).last {
          if d <= segs[n - 2].last {
            assert init[0] == segs[0] && Last(init) == segs[n - 2];
            assert Covers(init, d);
            var j :| 0 <= j < |init| && init[j].first <= d <= init[j].last;
            assert segs[j] == init[j];
          } else {
            assert segs[n - 1].first <= d <= segs[n - 1].last;
          }
        }
        if Covers(segs, d) {
          var j :| 0 <= j < n && segs[j].first <= d <= segs[j].last;
          if j > 0 {
            assert segs[0].last < segs[j].first;
          }
          if j < n - 1 {
            assert segs[j].last < segs[n - 1].first;
          }
        }
      }
    }
  }

  /** Invariant of a walk that has visited contracts `k` to `i - 1`, all delivering before `end`. */
  ghost predicate WalkedSoFar(cs: seq<Contract>, i: nat, start: Day, end: Day, acc: seq<Segment>)
    requires 0 < i <= |cs|
  {
    acc != [] && acc[0].first == start && Last(acc).last == cs[i - 1].delivery && Contiguous(acc)
    && (forall j :: 0 <= j < |acc| ==> acc[j].first <= acc[j].last && acc[j].contract.delivery < end)
    && (forall x, j :: x in acc && i <= j < |cs| ==> x.contract.code != cs[j].code)
  }

  /** One step of a walk that goes on past contract `i` keeps the invariant. */
  lemma WalkStep(cs: seq<Contract>, k: nat, i: nat, start: Day, end: Day, acc: seq<Segment>)
    requires SortedBy(cs, Delivery) && DistinctCodes(cs)
    requires k < i < |cs| && start <= cs[k].delivery && cs[i].delivery < end
    requires WalkedSoFar(cs, i, start, end, acc)
    ensures WalkedSoFar(cs, i + 1, start, end, Visit(cs, k, i, start, end, acc))
  {
    assert Delivery(cs[k]) <= Delivery(cs[i - 1]) <= Delivery(cs[i]);
    forall j | i < j < |cs|
      ensures cs[i].code != cs[j].code
    {
      assert Code(cs[i]) != Code(cs[j]);
    }
    MiddleVisit(cs, k, i, start, end, acc);
    if cs[i - 1].delivery < cs[i].delivery {
      WalkedAppend(cs, i, start, end, acc);
    } else {
      WalkedSkip(cs, i, start, end, acc);
    }
  }

  /**
    Visiting a contract that delivers before `end`, after one that delivered
    on or after `start`: its segment runs from the day after the previous
    delivery to its own, and is recorded when that is not empty.
   */
  lemma MiddleVisit(cs: seq<Contract>, k: nat, i: nat, start: Day, end: Day, acc: seq<Segment>)
    requires k < i < |cs| && start <= cs[i - 1].delivery <= cs[i].delivery < end
    requires forall x :: x in acc ==> x.contract.code != cs[i].code
    ensures Visit(cs, k, i, start, end, acc)
         == if cs[i - 1].delivery < cs[i].delivery
            then acc + [Segment(cs[i], cs[i - 1].delivery + 1, cs[i].delivery)]
            else acc
  {
    if cs[i - 1].delivery < cs[i].delivery {
      var seg := Segment(cs[i], cs[i - 1].delivery + 1, cs[i].delivery);
      assert SegmentAt(cs, k, i, start, end) == Some(seg);
      PutNew(acc, seg);
    } else {
      assert SegmentAt(cs, k, i, start, end).None?;
    }
  }

  lemma WalkedAppend(cs: seq<Contract>, i: nat, start: Day, end: Day, acc: seq<Segment>)
    requires 0 < i < |cs| && cs[i - 1].delivery < cs[i].delivery < end
    requires WalkedSoFar(cs, i, start, end, acc)
    requires forall j :: i < j < |cs| ==> cs[i].code != cs[j].code
    ensures WalkedSoFar(cs, i + 1, start, end, acc + [Segment(cs[i], cs[i - 1].delivery + 1, cs[i].delivery)])
  {
    var r := acc + [Segment(cs[i], cs[i - 1].delivery + 1, cs[i].delivery)];
    assert forall j :: 0 <= j < |acc| ==> r[j] == acc[j];
    assert forall x :: x in r ==> x in acc || x == r[|acc|];
  }

  lemma WalkedSkip(cs: seq<Contract>, i: nat, start: Day, end: Day, acc: seq<Segment>)
    requires 0 < i < |cs| && cs[i - 1].delivery == cs[i].delivery < end
    requires WalkedSoFar(cs, i, start, end, acc)
    ensures WalkedSoFar(cs, i + 1, start, end, acc)
  {
  }

  /** Shape of a finished walk: starts on `start`, contiguous, non-empty segments, ends on `hi`. */
  ghost predicate Finished(r: seq<Segment>, start: Day, end: Day, hi: Day)
  {
    r != [] && r[0].first == start && Contiguous(r) && Last(r).last == hi
    && (forall j :: 0 <= j < |r| ==> r[j].first <= r[j].last)
    && (forall j :: 0 <= j < |r| - 1 ==> r[j].contract.delivery < end)
  }

  /** A walk whose last contract delivers on or after `end` closes with one more segment ending on `end`. */
  lemma WalkLastStep(cs: seq<Contract>, k: nat, i: nat, start: Day, end: Day, acc: seq<Segment>)
    requires SortedBy(cs, Delivery)
    requires k < i < |cs| && start <= cs[k].delivery && cs[i - 1].delivery < end <= cs[i].delivery
    requires WalkedSoFar(cs, i, start, end, acc)
    ensures Finished(Walk(cs, k, i, start, end, acc), start, end, Min(end, Last(cs).delivery))
  {
    assert Delivery(cs[k]) <= Delivery(cs[i - 1]);
    assert Delivery(cs[i]) <= Delivery(Last(cs));
    var seg := Segment(cs[i], cs[i - 1].delivery + 1, end);
    LastVisit(cs, k, i, start, end, acc);
    FinishedAppend(acc, seg, start, end);
    FinishedSame(Walk(cs, k, i, start, end, acc), acc + [seg], start, end, Min(end, Last(cs).delivery));
  }

  /** The closing visit appends the last contract's segment, which runs from the day after the previous delivery to `end`. */
  lemma LastVisit(cs: seq<Contract>, k: nat, i: nat, start: Day, end: Day, acc: seq<Segment>)
    requires k < i < |cs| && cs[i - 1].delivery < end <= cs[i].delivery && start <= cs[i - 1].delivery
    requires forall x :: x in acc ==> x.contract.code != cs[i].code
    ensures Walk(cs, k, i, start, end, acc) == acc + [Segment(cs[i], cs[i - 1].delivery + 1, end)]
  {
    var seg := Segment(cs[i], cs[i - 1].delivery + 1, end);
    assert SegmentAt(cs, k, i, start, end) == Some(seg);
    PutNew(acc, seg);
    WalkUnfold(cs, k, i, start, end, acc);
  }

  /** A segment that starts right after a contiguous plan and ends on `end` finishes it at `end`. */
  lemma FinishedAppend(acc: seq<Segment>, seg: Segment, start: Day, end: Day)
    requires acc != [] && acc[0].first == start && Contiguous(acc)
    requires forall j :: 0 <= j < |acc| ==> acc[j].first <= acc[j].last && acc[j].contract.delivery < end
    requires seg.first == Last(acc).last + 1 && seg.first <= seg.last == end
    ensures Finished(acc + [seg], start, end, end)
  {
    var r := acc + [seg];
    assert forall j :: 0 <= j < |acc| ==> r[j] == acc[j];
  }

  lemma FinishedSame(r: seq<Segment>, r': seq<Segment>, start: Day, end: Day, hi: Day)
    requires r == r' && Finished(r', start, end, hi)
    ensures Finished(r, start, end, hi)
  {
  }

  /** A walk that has visited every contract, all delivering before `end`, is finished at the last delivery. */
  lemma WalkedAll(cs: seq<Contract>, k: nat, start: Day, end: Day, acc: seq<Segment>)
    requires k < |cs| && cs[|cs| - 1].delivery < end
    requires WalkedSoFar(cs, |cs|, start, end, acc)
    ensures Finished(Walk(cs, k, |cs|, start, end, acc), start, end, Min(end, Last(cs).delivery))
  {
  }

  lemma {:induction false} WalkCovers(cs: seq<Contract>, k: nat, i: nat, start: Day, end: Day, acc: seq<Segment>)
    requires SortedBy(cs, Delivery) && DistinctCodes(cs)
    requires k < i <= |cs| && start <= cs[k].delivery && cs[i - 1].delivery < end
    requires WalkedSoFar(cs, i, start, end, acc)
    ensures Finished(Walk(cs, k, i, start, end, acc), start, end, Min(end, Last(cs).delivery))
    decreases |cs| - i
  {
    if i == |cs| {
      WalkedAll(cs, k, start, end, acc);
    } else if cs[i].delivery < end {
      var acc' := Visit(cs, k, i, start, end, acc);
      WalkStep(cs, k, i, start, end, acc);
      WalkCovers(cs, k, i + 1, start, end, acc');
      WalkGoesOn(cs, k, i, start, end, acc);
      FinishedSame(Walk(cs, k, i, start, end, acc), Walk(cs, k, i + 1, start, end, acc'),
                   start, end, Min(end, Last(cs).delivery));
    } else {
      WalkLastStep(cs, k, i, start, end, acc);
    }
  }

  /** The walk's first step: the first live contract's segment starts on `start`. */
  lemma WalkFromFirst(cs: seq<Contract>, k: nat, start: Day, end: Day)
    requires SortedBy(cs, Delivery) && DistinctCodes(cs)
    requires k < |cs| && start <= cs[k].delivery && start <= end
    ensures var r := Walk(cs, k, k, start, end, []);
      r != [] && r[0].first == start && Contiguous(r)
      && Last(r).last == Min(end, Last(cs).delivery)
      && (forall j :: 0 <= j < |r| ==> r[j].first <= r[j].last)
      && (forall j :: 0 <= j < |r| - 1 ==> r[j].contract.delivery < end)
  {
    var seg := Segment(cs[k], start, Min(end, cs[k].delivery));
    assert SegmentAt(cs, k, k, start, end) == Some(seg);
    assert Visit(cs, k, k, start, end, []) == [seg];
    assert Delivery(cs[k]) <= Delivery(Last(cs));
    if cs[k].delivery < end {
      forall j | k + 1 <= j < |cs|
        ensures seg.contract.code != cs[j].code
      {
        assert Code(cs[k]) != Code(cs[j]);
      }
      assert WalkedSoFar(cs, k + 1, start, end, [seg]);
      WalkCovers(cs, k, k + 1, start, end, [seg]);
    }
  }

  /**
    With unique contract codes and `start <= end`, the plan covers the request
    without gaps or overlaps: its segments ascend, each begins the day after the
    previous one ends, the first begins on `start`, and together they hold
    exactly the days from `start` to the earlier of `end` and the latest regular
    delivery. Every segment but the last belongs to a contract delivering before
    `end`: the walk stops at the first contract delivering on or after `end`.
   */
  lemma PlanCoversRequest(catalog: seq<Contract>, start: Day, end: Day)
    requires DistinctCodes(catalog) && start <= end
    requires Plan(catalog, start, end).Ok?
    ensures var segs := Plan(catalog, start, end).value;
      var hi := Min(end, Last(Ordered(catalog)).delivery);
      segs != [] && segs[0].first == start && Last(segs).last == hi && Contiguous(segs)
      && (forall a, b :: 0 <= a < b < |segs| ==> segs[a].last < segs[b].first)
      && (forall d :: Covers(segs, d) <==> start <= d <= hi)
      && (forall j :: 0 <= j < |segs| - 1 ==> segs[j].contract.delivery < end)
  {
    var cs := Ordered(catalog);
    OrderedDistinct(catalog);
    var k := FirstLive(cs, start, 0).value;
    WalkFromFirst(cs, k, start, end);
    ContiguousCover(Plan(catalog, start, end).value);
  }

  /** The plan of a request runs from `start` to the earlier of `end` and the latest regular delivery. */
  lemma PlanSpan(catalog: seq<Contract>, start: Day, end: Day)
    requires DistinctCodes(catalog) && start <= end
    requires Plan(catalog, start, end).Ok?
    ensures var segs := Plan(catalog, start, end).value;
      segs != [] && segs[0].first == start && Last(segs).last == Min(end, Last(Ordered(catalog)).delivery)
  {
    var cs := Ordered(catalog);
    OrderedDistinct(catalog);
    WalkFromFirst(cs, FirstLive(cs, start, 0).value, start, end);
  }

  /** No regular contract delivers after the last one in delivery order. */
  lemma LastIsLatest(catalog: seq<Contract>, c: Contract)
    requires c in catalog && !IsSpread(c)
    ensures Ordered(catalog) != [] && c.delivery <= Last(Ordered(catalog)).delivery
  {
    var cs := Ordered(catalog);
    assert c in cs;
    var j :| 0 <= j < |cs| && cs[j] == c;
    assert Delivery(cs[j]) <= Delivery(cs[|cs| - 1]);
  }

  /** As soon as some regular contract delivers on or after `end`, the plan reaches `end`. */
  lemma PlanReachesEnd(catalog: seq<Contract>, start: Day, end: Day)
    requires DistinctCodes(catalog) && start <= end
    requires Plan(catalog, start, end).Ok?
    requires exists c :: c in catalog && !IsSpread(c) && c.delivery >= end
    ensures Plan(catalog, start, end).value != []
    ensures Last(Plan(catalog, start, end).value).last == end
  {
    var c :| c in catalog && !IsSpread(c) && c.delivery >= end;
    LastIsLatest(catalog, c);
    PlanSpan(catalog, start, end);
  }
}
