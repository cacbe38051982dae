/**
  The broker's TXF futures catalog: contract records, the spread-code rule, and
  the regular contracts in delivery order that both the near-month lookup and the
  continuous-contract planner start from (tx_downloader.py, lines 121-122 and 221-224).
 */
module Contracts {
  import opened Calendar
  import opened Sequences

  /** One futures contract: its code and its delivery day (the last day it trades). */
  datatype Contract = Contract(code: string, delivery: Day)

  function Delivery(c: Contract): int
  {
    c.delivery
  }

  function Code(c: Contract): string
  {
    c.code
  }

  /**
    Spread contracts are the ones whose code ends in R1 or R2 (`code[-2:]`); a
    code shorter than two characters is its own `code[-2:]` and never matches.
   */
  predicate IsSpread(c: Contract)
  {
    |c.code| >= 2 && (c.code[|c.code| - 2..] == "R1" || c.code[|c.code| - 2..] == "R2")
  }

  /** The catalog without its spread contracts, in catalog order. */
  function Regular(catalog: seq<Contract>): (r: seq<Contract>)
    ensures forall c :: c in r <==> c in catalog && !IsSpread(c)
  {
    if catalog == [] then []
    else (if IsSpread(catalog[0]) then [] else [catalog[0]]) + Regular(catalog[1..])
  }

  /**
    The regular contracts sorted by delivery day; contracts with the same delivery
    day keep their catalog order, because Python's `sorted` is stable.
   */
  function Ordered(catalog: seq<Contract>): (r: seq<Contract>)
    ensures forall c :: c in r <==> c in catalog && !IsSpread(c)
    ensures SortedBy(r, Delivery)
  {
    var reg := Regular(catalog);
    SortBySorted(reg, Delivery);
    SortByMembers(reg, Delivery);
    SortBy(reg, Delivery)
  }

  /** Contract codes are unique in the catalog. */
  predicate DistinctCodes(cs: seq<Contract>)
  {
    DistinctBy(cs, Code)
  }

  lemma {:induction false} RegularDistinct(catalog: seq<Contract>)
    requires DistinctCodes(catalog)
    ensures DistinctCodes(Regular(catalog))
  {
    if catalog != [] {
      assert DistinctCodes(catalog[1..]);
      RegularDistinct(catalog[1..]);
      var rest := Regular(catalog[1..]);
      var r := Regular(catalog);
      if !IsSpread(catalog[0]) {
        forall a, b | 0 <= a < b < |r|
          ensures r[a].code != r[b].code
        {
          if a == 0 {
            assert r[b] == rest[b - 1] && r[b] in catalog[1..];
            var i :| 0 <= i < |catalog[1..]| && catalog[1..][i] == r[b];
            assert catalog[1..][i] == catalog[i + 1];
          } else {
            assert r[a] == rest[a - 1] && r[b] == rest[b - 1];
          }
        }
      }
    }
  }

  /** Distinct catalog codes stay distinct once spreads are dropped and the rest sorted. */
  lemma OrderedDistinct(catalog: seq<Contract>)
    requires DistinctCodes(catalog)
    ensures DistinctCodes(Ordered(catalog))
  {
    RegularDistinct(catalog);
    SortByDistinct(Regular(catalog), Delivery, Code);
  }

  /**
    The first contract in delivery order is a regular contract of the catalog
    whose delivery day is the earliest; among contracts delivering that day it is
    the one listed first in the catalog.
   */
  lemma {:induction false} OrderedHeadIsEarliest(catalog: seq<Contract>)
    requires Ordered(catalog) != []
    ensures var h := Ordered(catalog)[0];
      h in catalog && !IsSpread(h)
      && (forall c :: c in catalog && !IsSpread(c) ==> h.delivery <= c.delivery)
      && WithKey(Regular(catalog), Delivery, h.delivery) != []
      && h == WithKey(Regular(catalog), Delivery, h.delivery)[0]
      && exists i :: 0 <= i < |catalog| && catalog[i] == h && FirstWithDelivery(catalog, i)
  {
    var r := Ordered(catalog);
    var h := r[0];
    assert h in r;
    forall c | c in catalog && !IsSpread(c)
      ensures h.delivery <= c.delivery
    {
      assert c in r;
      var i :| 0 <= i < |r| && r[i] == c;
      assert Delivery(r[0]) <= Delivery(r[i]);
    }
    SortByStable(Regular(catalog), Delivery, h.delivery);
    var w := WithKey(r, Delivery, h.delivery);
    assert r == [h] + r[1..];
    assert w == [h] + WithKey(r[1..], Delivery, h.delivery);
    FirstRegularWithDelivery(catalog, h.delivery);
  }

  /**
    `catalog[i]` is a regular contract and no regular contract listed before it
    delivers on the same day.
   */
  predicate FirstWithDelivery(catalog: seq<Contract>, i: int)
    requires 0 <= i < |catalog|
  {
    !IsSpread(catalog[i])
    && forall j :: 0 <= j < i ==> IsSpread(catalog[j]) || catalog[j].delivery != catalog[i].delivery
  }

  /**
    The first regular contract delivering on day `k`, taken in the order the
    regular contracts keep, is the first such contract in catalog order.
   */
  lemma {:induction false} FirstRegularWithDelivery(catalog: seq<Contract>, k: int)
    requires WithKey(Regular(catalog), Delivery, k) != []
    ensures exists i ::
      0 <= i < |catalog| && catalog[i] == WithKey(Regular(catalog), Delivery, k)[0]
      && catalog[i].delivery == k && FirstWithDelivery(catalog, i)
  {
    var c := catalog[0];
    var head := if IsSpread(c) then [] else [c];
    WithKeyAppend(head, Regular(catalog[1..]), Delivery, k);
    if !IsSpread(c) && c.delivery == k {
      assert WithKey(head, Delivery, k) == [c];
      assert FirstWithDelivery(catalog, 0);
    } else {
      assert WithKey(head, Delivery, k) == [];
      FirstRegularWithDelivery(catalog[1..], k);
      var i :| 0 <= i < |catalog[1..]| && catalog[1..][i] == WithKey(Regular(catalog[1..]), Delivery, k)[0]
        && catalog[1..][i].delivery == k && FirstWithDelivery(catalog[1..], i);
      forall j | 0 <= j < i + 1
        ensures IsSpread(catalog[j]) || catalog[j].delivery != catalog[i + 1].delivery
      {
        if j > 0 {
          assert catalog[j] == catalog[1..][j - 1];
        }
      }
      assert FirstWithDelivery(catalog, i + 1);
    }
  }
}
