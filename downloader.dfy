/**
  The state of a `TXFDownloader` that the model keeps: the selected near-month
  contract (`self.contract`) and whether the Firestore client exists
  (`self.db is not None`). Its two rules are the near-month selection
  (tx_downloader.py, lines 116-130) and the 500-row commit batching of
  `save_to_firestore` (lines 410-454).
 */
module Downloader {
  import opened Results
  import opened Sequences
  import opened Contracts
  import Arith

  /** Rows per Firestore batch commit. */
  const BatchLimit := 500

  /** The near-month contract: the first regular contract in delivery order, if any. */
  function NearMonth(catalog: seq<Contract>): Option<Contract>
  {
    var cs := Ordered(catalog);
    if cs == [] then None else Some(cs[0])
  }

  /**
    There is a near-month contract exactly when the catalog holds a regular
    contract; it is then a regular catalog contract with the earliest delivery
    day, the first one listed among those delivering that day.
   */
  lemma NearMonthIsEarliest(catalog: seq<Contract>)
    ensures NearMonth(catalog).None? <==> forall c :: c in catalog ==> IsSpread(c)
    ensures NearMonth(catalog).Some? ==>
      var h := NearMonth(catalog).value;
      h in catalog && !IsSpread(h)
      && (forall c :: c in catalog && !IsSpread(c) ==> h.delivery <= c.delivery)
      && WithKey(Regular(catalog), Delivery, h.delivery) != []
      && h == WithKey(Regular(catalog), Delivery, h.delivery)[0]
      && exists i :: 0 <= i < |catalog| && catalog[i] == h && FirstWithDelivery(catalog, i)
  {
    var cs := Ordered(catalog);
    if cs != [] {
      OrderedHeadIsEarliest(catalog);
    }
  }

  class TXFDownloader {
    /** `self.contract`: None until a near-month contract is selected. */
    var contract: Option<Contract>
    /** `self.db is not None`: the Firestore client was initialised. */
    var storeReady: bool

    constructor (storeReady: bool)
      ensures contract == None && this.storeReady == storeReady
    {
      contract := None;
      this.storeReady := storeReady;
    }

    /**
      `get_near_future_contract`: selects the near-month contract. With no regular
      contract the selection is left as it was, and the `RuntimeError` is raised
      only when nothing had been selected before.
     */
    method GetNearFutureContract(catalog: seq<Contract>) returns (raised: bool)
      modifies this`contract
      ensures NearMonth(catalog).Some? ==> contract == NearMonth(catalog) && !raised
      ensures NearMonth(catalog).None? ==> contract == old(contract) && raised == old(contract).None?
    {
      var cs := Ordered(catalog);
      if cs != [] {
        contract := Some(cs[0]);
        return false;
      }
      return contract.None?;
    }

    /**
      The commit loop of `save_to_firestore`: rows are added to a batch one at a
      time, the batch is committed at every 500th row, and a last partial batch
      is committed at the end. Returns the committed batches in order. Nothing is
      written when the store is missing or there are no rows.
     */
    method SaveToFirestore<R>(rows: seq<R>) returns (commits: seq<seq<R>>)
      ensures !storeReady ==> commits == []
      ensures storeReady ==> Flatten(commits) == rows
      ensures forall j :: 0 <= j < |commits| ==> 1 <= |commits[j]| <= BatchLimit
      ensures forall j :: 0 <= j < |commits| - 1 ==> |commits[j]| == BatchLimit
      ensures storeReady ==> |commits| == (|rows| + BatchLimit - 1) / BatchLimit
    {
      commits := [];
      if !storeReady || rows == [] {
        return;
      }
      var batch: seq<R> := [];
      var count := 0;
      for i := 0 to |rows|
        invariant count == i
        invariant Flatten(commits) + batch == rows[..i]
        invariant forall j :: 0 <= j < |commits| ==> |commits[j]| == BatchLimit
        invariant |batch| == count % BatchLimit
        invariant |commits| == count / BatchLimit
      {
        CountStep(count);
        batch := batch + [rows[i]];
        count := count + 1;
        assert rows[..i + 1] == rows[..i] + [rows[i]];
        if count % BatchLimit == 0 {
          FullBatch(commits, batch);
          commits := commits + [batch];
          batch := [];
        }
      }
      BatchCount(count);
      if count % BatchLimit != 0 {
        CloseBatch(commits, batch);
        commits := commits + [batch];
      }
      assert rows[..|rows|] == rows;
    }
  }

  /** One more row: the open batch grows by one, or it fills and the batch count goes up. */
  lemma CountStep(count: nat)
    ensures count % BatchLimit < BatchLimit - 1 ==>
      (count + 1) % BatchLimit == count % BatchLimit + 1 && (count + 1) / BatchLimit == count / BatchLimit
    ensures count % BatchLimit == BatchLimit - 1 ==>
      (count + 1) % BatchLimit == 0 && (count + 1) / BatchLimit == count / BatchLimit + 1
  {
    if count % BatchLimit < BatchLimit - 1 {
      Arith.DivUnique(count + 1, BatchLimit, count / BatchLimit, count % BatchLimit + 1);
    } else {
      Arith.DivUnique(count + 1, BatchLimit, count / BatchLimit + 1, 0);
    }
  }

  /** Full batches plus one for a partial last batch is the number of rows rounded up to batches. */
  lemma BatchCount(n: nat)
    ensures (n + BatchLimit - 1) / BatchLimit == n / BatchLimit + (if n % BatchLimit != 0 then 1 else 0)
  {
    if n % BatchLimit != 0 {
      Arith.DivUnique(n + BatchLimit - 1, BatchLimit, n / BatchLimit + 1, n % BatchLimit - 1);
    } else {
      Arith.DivUnique(n + BatchLimit - 1, BatchLimit, n / BatchLimit, BatchLimit - 1);
    }
  }

  /** Committing a full batch after full ones keeps every batch full. */
  lemma FullBatch<R>(commits: seq<seq<R>>, batch: seq<R>)
    requires forall j :: 0 <= j < |commits| ==> |commits[j]| == BatchLimit
    requires |batch| == BatchLimit
    ensures forall j :: 0 <= j < |commits + [batch]| ==> |(commits + [batch])[j]| == BatchLimit
    ensures Flatten(commits + [batch]) == Flatten(commits) + batch
  {
    FlattenStep(commits, batch);
  }

  /** Committing a last partial batch after full ones keeps every batch within the limit. */
  lemma CloseBatch<R>(commits: seq<seq<R>>, batch: seq<R>)
    requires forall j :: 0 <= j < |commits| ==> |commits[j]| == BatchLimit
    requires 1 <= |batch| <= BatchLimit
    ensures var c := commits + [batch];
      (forall j :: 0 <= j < |c| ==> 1 <= |c[j]| <= BatchLimit)
      && (forall j :: 0 <= j < |c| - 1 ==> |c[j]| == BatchLimit)
      && Flatten(c) == Flatten(commits) + batch
  {
    FlattenStep(commits, batch);
  }

  lemma FlattenStep<T>(xss: seq<seq<T>>, xs: seq<T>)
    ensures Flatten(xss + [xs]) == Flatten(xss) + xs
  {
    assert (xss + [xs])[..|xss|] == xss;
  }
}
