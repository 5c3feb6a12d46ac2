// Status derivation (`Utils.autoDetermineStatus`, app.js:125-135) and the
// series completion mark (app.js:221).

module Completion {
  import opened Inventory

  /** The source's `targets.every(...)`: walks the targets and stops at the
      first one that is not collected. */
  function EveryCollected(stocks: map<string, Stock>, targets: seq<string>): bool
    decreases |targets|
  {
    if |targets| == 0 then true
    else if !Collected(StockOf(stocks, targets[0])) then false
    else EveryCollected(stocks, targets[1..])
  }

  lemma {:induction false} EveryCollectedIff(stocks: map<string, Stock>, targets: seq<string>)
    ensures EveryCollected(stocks, targets) <==>
            forall i :: 0 <= i < |targets| ==> Collected(StockOf(stocks, targets[i]))
    decreases |targets|
  {
    if |targets| > 0 {
      EveryCollectedIff(stocks, targets[1..]);
      assert forall i :: 0 < i < |targets| ==> targets[i] == targets[1..][i - 1];
    }
  }

  /** `item.targets || []`: an absent list reads as an empty one here. */
  function TargetList(item: Item): seq<string>
  {
    item.targets.GetOr([])
  }

  /** `Utils.autoDetermineStatus(item)`. */
  function AutoDetermineStatus(item: Item): Status
  {
    if item.status == Excluded then Excluded
    else
      var targets := TargetList(item);
      if |targets| == 0 then item.status
      else if EveryCollected(item.stocks, targets) then Comp
      else Incomp
  }

  /** Every target's record, absent ones read as empty, is collected. */
  predicate AllTargetsCollected(item: Item)
  {
    forall i :: 0 <= i < |TargetList(item)| ==> Collected(StockOf(item.stocks, TargetList(item)[i]))
  }

  /** "none" is sticky: an excluded item stays excluded whatever its stock. */
  lemma ExcludedIsSticky(item: Item)
    requires item.status == Excluded
    ensures AutoDetermineStatus(item) == Excluded
  {
  }

  /** With no targets (an absent list or an empty one) the status is left as it was. */
  lemma NoTargetsKeepsStatus(item: Item)
    requires item.targets == None || item.targets == Some([])
    ensures AutoDetermineStatus(item) == item.status
  {
  }

  /** With targets and no exclusion, the item is "comp" exactly when every
      target is collected, and "not" otherwise. */
  lemma CompIffAllCollected(item: Item)
    requires item.status != Excluded && |TargetList(item)| > 0
    ensures AutoDetermineStatus(item) == Comp <==> AllTargetsCollected(item)
    ensures AutoDetermineStatus(item) != Comp ==> AutoDetermineStatus(item) == Incomp
  {
    EveryCollectedIff(item.stocks, TargetList(item));
  }

  /** With targets and no exclusion, the derived status does not depend on the
      status the item had before. */
  lemma IndependentOfPriorStatus(item: Item, prior: Status)
    requires item.status != Excluded && prior != Excluded && |TargetList(item)| > 0
    ensures AutoDetermineStatus(item.(status := prior)) == AutoDetermineStatus(item)
  {
  }

  /** Storing the derived status and deriving again changes nothing. */
  lemma AutoDetermineIdempotent(item: Item)
    ensures AutoDetermineStatus(item.(status := AutoDetermineStatus(item))) == AutoDetermineStatus(item)
  {
  }

  /** Adding one more owned unit of a non-infinite character never turns a
      "comp" item back to "not". */
  lemma {:induction false} MoreStockKeepsComp(item: Item, c: string)
    requires AutoDetermineStatus(item) == Comp
    ensures AutoDetermineStatus(item.(stocks := item.stocks[c := StockOf(item.stocks, c).(own := StockOf(item.stocks, c).own + 1)])) == Comp
  {
    var after := item.(stocks := item.stocks[c := StockOf(item.stocks, c).(own := StockOf(item.stocks, c).own + 1)]);
    var targets := TargetList(item);
    if item.status != Excluded && |targets| > 0 {
      CompIffAllCollected(item);
      forall i | 0 <= i < |targets|
        ensures Collected(StockOf(after.stocks, targets[i]))
      {
        assert Collected(StockOf(item.stocks, targets[i]));
      }
      CompIffAllCollected(after);
    }
  }

  /** A target whose record is outstanding (missing or infinite) keeps a
      non-excluded item "not". */
  lemma {:induction false} OutstandingTargetMeansIncomp(item: Item, i: nat)
    requires item.status != Excluded
    requires i < |TargetList(item)|
    requires Outstanding(StockOf(item.stocks, TargetList(item)[i]))
    ensures AutoDetermineStatus(item) == Incomp
  {
    CompIffAllCollected(item);
  }

  /** The series mark ✦: at least one item, and every item "comp" or "none". */
  predicate SeriesComplete(items: seq<Item>)
  {
    |items| > 0 && forall i :: 0 <= i < |items| ==> items[i].status == Comp || items[i].status == Excluded
  }

  /** A non-empty series lacks the mark exactly when some item is "not". */
  lemma SeriesIncompleteIff(items: seq<Item>)
    requires |items| > 0
    ensures !SeriesComplete(items) <==> exists i :: 0 <= i < |items| && items[i].status == Incomp
  {
  }
}
