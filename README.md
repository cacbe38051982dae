# TXF continuous-contract downloader, modelled in Dafny

`tx_downloader.py` downloads Taiwan index futures (TXF) trades from a broker and
turns them into 1-minute bars. This project models the part of it that computes
things:

- the **continuous-contract query planner** of `fetch_continuous_data`. It drops
  the spread contracts (codes ending in `R1` or `R2`) and sorts the rest by
  delivery day. It finds the first contract still trading on the requested start
  day. It then hands every day to the contract that owns it: from the day after
  the previous contract's delivery to its own delivery day. The ranges are
  clamped to the request, and the walk stops at the first contract delivering on
  or after the requested end;
- the **day-by-day download walk** that follows the plan. Every day of every
  segment is asked for its ticks once, in order. A day that fails or has no
  trades is skipped and the walk goes on. The collected trades are concatenated
  and resampled;
- the **tick-to-bar aggregation** `resample_ticks_to_1min_kbars`. It makes one
  open/high/low/close/volume bar per minute that holds at least one trade;
- **date-range selection** `calculate_date_range`, with its loop that steps back
  over weekends;
- the **near-month selection** of `get_near_future_contract` and the **500-row
  commit batching** of `save_to_firestore`.

Files and modules:

| file | module | contents |
|---|---|---|
| `results.dfy` | `Results` | `Option` and `Result`, which replace Python's `None` returns and raised errors |
| `arith.dfy` | `Arith` | quotient and remainder facts for positive divisors |
| `sequences.dfy` | `Sequences` | Python's stable `sorted`, selection by key, and list concatenation |
| `calendar.dfy` | `Calendar` | days as proleptic Gregorian ordinals (`date.toordinal()`), weekdays, civil dates, first of the month |
| `contracts.dfy` | `Contracts` | contract records, the spread rule, regular contracts in delivery order |
| `planner.dfy` | `Planner` | the query plan: a specification function, the imperative scan and walk, and coverage proofs |
| `bars.dfy` | `Bars` | ticks, bars, and the 1-minute resampling |
| `acquisition.dfy` | `Acquisition` | the tick feed as a class, the download walk, and `fetch_continuous_data` end to end |
| `date_range.dfy` | `DateRange` | `calculate_date_range` and its `last_day` loop |
| `downloader.dfy` | `Downloader` | the `TXFDownloader` state, near-month selection, and Firestore batching |

Representation choices:

- A day is an integer, as `date.toordinal()` gives it, so `timedelta(days=n)` is
  plain addition.
- `date.weekday()` is `(d + 6) % 7`.
- `date.replace(day=1)` goes through a civil-date decomposition of the Gregorian
  400-year cycle. It is proved to land on day 1 of the same year and month.
- Delivery dates are already-parsed day numbers.
- Prices and volumes are integers. A timestamp is an integer number of
  nanoseconds, and a tick's minute is that timestamp floored to the minute.
- The broker's tick call is a `TickFeed` object. It holds a fixed answer for every
  (contract, day) request and logs the requests made. None stands for a call
  that raised.

## Model

| member | source | states |
|---|---|---|
| Contracts.Regular | tx_downloader.py:221-222 | a contract is kept exactly when it is in the catalog and its code does not end in R1 or R2 |
| Contracts.Ordered | tx_downloader.py:221-224 | holds exactly the non-spread catalog contracts, in non-decreasing delivery order |
| Contracts.OrderedDistinct | tx_downloader.py:221-224 | distinct catalog codes stay distinct after filtering and sorting |
| Contracts.OrderedHeadIsEarliest | tx_downloader.py:121-125 | the first contract in delivery order is a regular catalog contract with the earliest delivery, and no regular contract listed before it in the catalog delivers on the same day (stable sort) |
| Contracts.FirstRegularWithDelivery | tx_downloader.py:121-122 | the first regular contract with a given delivery day, in the order the filter keeps, is the first such contract in catalog order |
| Sequences.WithKeyMembers | tx_downloader.py:122 | selecting by key keeps exactly the elements with that key |
| Sequences.SortBySorted | tx_downloader.py:221-224 | the sort's output is ordered by its key |
| Sequences.SortByStable | tx_downloader.py:122 | elements with equal keys keep their input order, as Python's `sorted` promises |
| Sequences.SortByOfSorted | tx_downloader.py:138-151 | input already in key order is left unchanged, so ticks that arrive in time order are bucketed as they are |
| Planner.FirstLive | tx_downloader.py:234-239 | the index found is the first contract delivering on or after the start, with all earlier ones delivering before it; None when no contract does |
| Planner.FindStartContract | tx_downloader.py:234-239 | the scan with `break` returns -1 exactly when no contract is still trading on the start day, otherwise that first contract's index |
| Planner.PutNew | tx_downloader.py:263 | storing a segment under a code not yet in the plan appends it at the end, as a new dict key is inserted last |
| Planner.PutExisting | tx_downloader.py:263 | storing under a code already in the plan replaces that entry in its place, as assigning to an existing dict key keeps its position |
| Planner.PutMembers | tx_downloader.py:263 | after storing, the new segment is in the plan and every entry is either an old one or the new one |
| Planner.WalkContracts | tx_downloader.py:245-266 | the loop builds exactly the plan of the walk from the start contract |
| Planner.PlanQuery | tx_downloader.py:221-266 | the whole planning step returns the plan or the reason there is none |
| Planner.PlanErrors | tx_downloader.py:225-243 | no plan because there is no regular contract exactly when all contracts are spreads; no plan because no contract is live exactly when every regular contract delivers before the start |
| Planner.PlanFollowsRollover | tx_downloader.py:249-262 | every segment is non-empty and is the range its contract owns: from the requested start for the first contract walked, else from the day after the previous delivery, up to the earlier of the end and its own delivery |
| Planner.PlanSegmentsWithinRequest | tx_downloader.py:257-263 | every segment uses a regular catalog contract and satisfies start <= first <= last <= end and last <= delivery |
| Planner.SingleDayPlan | tx_downloader.py:245-266 | a one-day request gives exactly one one-day segment |
| Planner.WalkCovers | tx_downloader.py:245-266 | from any point of the walk, the remaining visits keep the plan contiguous up to the earlier of the end and the last delivery |
| Planner.PlanCoversRequest | tx_downloader.py:245-266 | with distinct codes and start <= end: the segments ascend without gaps or overlaps, start at the start, and together hold exactly the days from start to the earlier of end and the last delivery; every segment but the last delivers before end |
| Planner.LastIsLatest | tx_downloader.py:221-224 | no regular catalog contract delivers after the last one in delivery order |
| Planner.PlanSpan | tx_downloader.py:245-266 | with distinct codes and start <= end, a plan is non-empty, begins on the requested start and ends on the earlier of end and the last delivery |
| Planner.PlanReachesEnd | tx_downloader.py:265-266 | when some regular contract delivers on or after end, the plan's last day is end |
| Bars.MaxPrice | tx_downloader.py:146 | the high is at least every price in the minute and is one of them |
| Bars.MinPrice | tx_downloader.py:146 | the low is at most every price in the minute and is one of them |
| Bars.TotalVolume | tx_downloader.py:145 | the sum of non-negative volumes is non-negative |
| Bars.BarOf | tx_downloader.py:143-152 | low <= open <= high and low <= close <= high |
| Bars.MinutesFollowTime | tx_downloader.py:151 | flooring to the minute keeps time order |
| Bars.BarsOfRunsGroupByMinute | tx_downloader.py:151-152 | over minute-ordered ticks: bar minutes strictly ascend, each bar is built from exactly its minute's ticks in order, and a minute has a bar exactly when it has a tick |
| Bars.ResampleAbsent | tx_downloader.py:135-136 | no bars exactly for a missing or empty frame; otherwise the bar list is not empty |
| Bars.ResampleGroupsByMinute | tx_downloader.py:138-156 | for a non-empty frame: one bar per minute that has a trade and none for empty minutes, ascending; open = first price, close = last, high = max, low = min, volume = sum of that minute's trades in time order; input already in time order is used as given |
| Acquisition.DayRequestsAscend | tx_downloader.py:273-276 | a segment's days are requested from first to last, once each, in ascending order |
| Acquisition.TickFeed.Ticks | tx_downloader.py:279-283 | a call returns the feed's answer for the request and logs the request |
| Acquisition.DownloadSegment | tx_downloader.py:273-290 | the inner loop requests each day of the segment in order and appends exactly the frames of the days that returned trades |
| Acquisition.DownloadPlan | tx_downloader.py:270-290 | the walk makes exactly the plan's requests, segment after segment, and collects exactly their non-empty successful answers |
| Acquisition.CollectAppend | tx_downloader.py:270-290 | the frames of two request runs are those of the first run followed by those of the second |
| Acquisition.RequestsOfContiguous | tx_downloader.py:270-276 | over contiguous non-empty segments, the requests are consecutive days from the first segment's first day, each for the contract of the segment holding it |
| Acquisition.ContinuousRequests | tx_downloader.py:245-290 | with distinct codes and start <= end, every day from start to the earlier of end and the last delivery is requested exactly once, in ascending order, from a regular catalog contract still trading that day |
| Acquisition.CollectKeepsTradingDays | tx_downloader.py:278-290 | every collected frame is a non-empty answer to some request, and every non-empty answer is collected even after earlier failures |
| Acquisition.DownloadedBarsOutcome | tx_downloader.py:294-308 | "no ticks" exactly when no requested day returned trades; the "no bars after resampling" branch never happens; returned bars are the 1-minute bars of all collected trades |
| Acquisition.FetchContinuousData | tx_downloader.py:221-308 | the fetch returns the planned, downloaded and resampled bars; no request is made when there is no plan |
| Acquisition.FetchOutcome | tx_downloader.py:225-308 | the fetch fails for lack of a plan exactly when the planner does, with the planner's reason, and never in the resampling branch |
| Calendar.Weekday | tx_downloader.py:472 | the weekday number is between 0 (Monday) and 6 (Sunday) |
| Calendar.ToCivil | tx_downloader.py:478 | the computed date has a month in 1..12 and a day in 1..31 |
| Calendar.ToCivilOrdinal | tx_downloader.py:478 | the computed date's ordinal under CPython's `_ymd2ord` (what `date.toordinal()` returns) is the day itself, so ToCivil is `date.fromordinal(d)` |
| Calendar.ToCivilIsValidDate | tx_downloader.py:478 | the day of month never exceeds the month's length, leap years included |
| Calendar.MonthStart | tx_downloader.py:478 | the first of the month is at most 30 days before the day |
| Calendar.MonthStartIsFirstOfMonth | tx_downloader.py:478 | `replace(day=1)` keeps the year and month and gives day 1 |
| Calendar.MonthStartOrdinal | tx_downloader.py:478 | `replace(day=1)` gives the day whose `toordinal()` is that of day 1 of the same year and month |
| DateRange.PreviousWeekday | tx_downloader.py:469-474 | the result is a Monday-to-Friday strictly before today, and every day between them is a Saturday or Sunday |
| DateRange.LastTradingDay | tx_downloader.py:471-473 | the loop stepping back from yesterday over weekends stops on the latest weekday before today |
| DateRange.CalculateDateRange | tx_downloader.py:457-490 | the method returns the range the period names, or the error |
| DateRange.CustomRange | tx_downloader.py:461-466 | the result is an error exactly for a custom period missing a bound; a complete custom range is returned as given |
| DateRange.PeriodRanges | tx_downloader.py:468-490 | last_day is one day, the latest weekday before today; week starts on this week's Monday; month on the first of this month; 6_months, year, 5_years and the default start 180, 365, 1825 and 5 days back; all but last_day end today; start <= end |
| Downloader.NearMonthIsEarliest | tx_downloader.py:121-127 | there is a near-month contract exactly when a regular contract exists; it is a regular contract with the earliest delivery, and no regular contract listed before it in the catalog delivers on the same day |
| Downloader.TXFDownloader.GetNearFutureContract | tx_downloader.py:116-130 | selects the near-month contract when there is one; otherwise keeps the old selection and raises only if there was none |
| Downloader.TXFDownloader.SaveToFirestore | tx_downloader.py:418-452 | nothing is committed without a store; otherwise the batches hold every row once, in order, each batch holds 1..500 rows, all but the last exactly 500, and there are ceil(n/500) commits |

## Left out

- Login, certificate activation, usage queries and every broker SDK call are left out. The tick call appears only as the `TickFeed` answer function.
- Firestore initialisation, document writes, and the document id taken from the bar time are left out; only the batching is modelled.
- CSV writing of ticks and bars and the script directory path are left out (file I/O).
- `process_data` and the timestamp handling of the tick CSV are left out; they depend on pandas time-zone conversion to Asia/Taipei.
- Menus, `input()`, text normalisation, `main`, environment loading, the import-time SDK version check and the logging setup are left out.
- `fetch_data` is left out. It reads the clock, and its day walk is the same skip-and-continue walk as the one modelled for `fetch_continuous_data`.
- Date parsing with `strptime` is left out: delivery dates and custom bounds are already-parsed day numbers.
- DateRange.CalculateDateRange: a custom bound that is present but not a valid date is not modelled (`strptime` raising `ValueError`).
- DateRange.CalculateDateRange: Python's date limits (years 1 to 9999, `OverflowError` on stepping past them) are not modelled; days are unbounded integers.
- Contracts.Ordered: the source sorts delivery dates as `YYYY/MM/DD` strings. The model sorts parsed day numbers, which gives the same order for zero-padded dates.
- Bars.Resample: prices are integers rather than floats, and pandas `resample` is replaced by an explicit grouping by floored minute after a stable sort by time.
- Bars.Resample: bars carry their minute number rather than a pandas timestamp column.
- Acquisition.FetchContinuousData: the plan is walked from the query plan's dict values. The day strings `str(effective_start)` and `str(effective_end)` are parsed back without loss, so days stay numbers throughout.
- Resume from a checkpoint, retry with re-login, and the ticks-only or bars-only menus are left out. `tx_downloader.py` has no checkpoint, resume or retry: a failed day is logged and skipped and the walk continues (lines 288-290), and the model follows that.
- Planner.PlanCoversRequest and Acquisition.ContinuousRequests assume distinct contract codes. The source keys the plan by code, so two contracts with the same code would overwrite each other's segment; `Planner.Put` models that overwrite (`Planner.PutExisting`), but the coverage properties are stated only for distinct codes.
