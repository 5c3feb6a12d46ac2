// The application state `Store` (app.js:71-87) and the `Actions` that
// change it in place: the editor's stock edits on `tempStocks`
// (app.js:587-629), the editor grid's record filling (app.js:362-366), the
// unboxing counter on a stored item (app.js:631-642), saving an edited item
// (app.js:528-553), the missing report over the store (app.js:402-431),
// the series list edits (app.js:492-519, 571-585,
// 644-663) and saving the settings panel (app.js:665-689).

module Archive {
  import opened Inventory
  import opened Text
  import opened Completion
  import opened SeriesOrder
  import opened Settings
  import Missing

  datatype SortMode = New | Date | Custom

  /** `Store.lastItem`: what the last saved item was, for the "history" banner. */
  datatype LastItem = LastItem(typeName: string, charSetName: string, targets: seq<string>)

  /** The part of the store that `Store.save` persists, plus `lastItem`. */
  datatype Saved = Saved(
    db: map<string, Series>,
    order: seq<string>,
    charSets: seq<NamedRoster>,
    templates: seq<string>,
    presets: seq<Preset>,
    tradeConfig: TradeConfig,
    sortMode: SortMode,
    lastItem: Option<LastItem>)

  /** The editing session: the open series and item, the editor's roster and
      its working copy of the stock, and the id being dragged. */
  datatype Session = Session(
    currentSeriesId: Option<string>,
    currentItemIdx: Option<nat>,
    activeCharList: seq<string>,
    tempStocks: map<string, Stock>,
    dragSrcId: Option<string>)

  // ---------------------------------------------------------------------
  // The stock edits, on values.

  function Other(f: Field): Field
  {
    match f
    case Own => Trade
    case Trade => Own
  }

  /** `Math.max(0, v + delta)`. */
  function ClampAdd(v: nat, delta: int): nat
  {
    if v + delta < 0 then 0 else v + delta
  }

  /** Stores `v` in field `f` of `c`'s record; nothing else changes. */
  function SetField(stocks: map<string, Stock>, c: string, f: Field, v: nat): (r: map<string, Stock>)
    requires c in stocks
    ensures r.Keys == stocks.Keys
    ensures forall d :: d in stocks && d != c ==> r[d] == stocks[d]
    ensures FieldOf(r[c], f) == v
    ensures FieldOf(r[c], Other(f)) == FieldOf(stocks[c], Other(f)) && r[c].infinite == stocks[c].infinite
  {
    stocks[c := WithField(stocks[c], f, v)]
  }

  /** `updateQty`: the addressed count moves by `delta` but never below 0. */
  function Adjusted(stocks: map<string, Stock>, c: string, f: Field, delta: int): map<string, Stock>
    requires c in stocks
  {
    SetField(stocks, c, f, ClampAdd(FieldOf(stocks[c], f), delta))
  }

  /** `directInputQty`: the typed text through `parseInt`; NaN and negative
      numbers store 0. */
  function InputCount(p: Parsed): nat
  {
    match p
    case NaN => 0
    case Num(n) => if n < 0 then 0 else n
  }

  function Entered(stocks: map<string, Stock>, c: string, f: Field, val: string): map<string, Stock>
    requires c in stocks
  {
    SetField(stocks, c, f, InputCount(ParseInt(val)))
  }

  /** `toggleInfinite`. */
  function Toggled(stocks: map<string, Stock>, c: string): (r: map<string, Stock>)
    requires c in stocks
    ensures r.Keys == stocks.Keys && forall d :: d in stocks && d != c ==> r[d] == stocks[d]
    ensures r[c].own == stocks[c].own && r[c].trade == stocks[c].trade && r[c].infinite != stocks[c].infinite
  {
    stocks[c := stocks[c].(infinite := !stocks[c].infinite)]
  }

  /** Editing the count shown in a box, unchanged, stores what was there. */
  lemma RetypingShownCountChangesNothing(stocks: map<string, Stock>, c: string, f: Field)
    requires c in stocks
    ensures Entered(stocks, c, f, NatToString(FieldOf(stocks[c], f))) == stocks
  {
    ParseIntOfNatString(FieldOf(stocks[c], f));
    var r := Entered(stocks, c, f, NatToString(FieldOf(stocks[c], f)));
    assert r[c] == stocks[c] by {
      match f
      case Own =>
      case Trade =>
    }
  }

  /** Typing a negative number stores 0. */
  lemma NegativeInputStoresZero(stocks: map<string, Stock>, c: string, f: Field, n: nat)
    requires c in stocks
    ensures FieldOf(Entered(stocks, c, f, "-" + NatToString(n))[c], f) == 0
  {
    ParseIntOfNegative(n);
  }

  /** "+" then "-" gives the count back; "-" then "+" does too unless the
      count was already 0, where the clamp leaves 1. */
  lemma StepUpThenDown(stocks: map<string, Stock>, c: string, f: Field)
    requires c in stocks
    ensures Adjusted(Adjusted(stocks, c, f, 1), c, f, -1) == stocks
    ensures FieldOf(stocks[c], f) > 0 ==> Adjusted(Adjusted(stocks, c, f, -1), c, f, 1) == stocks
    ensures FieldOf(stocks[c], f) == 0 ==> FieldOf(Adjusted(Adjusted(stocks, c, f, -1), c, f, 1)[c], f) == 1
  {
    var up := Adjusted(stocks, c, f, 1);
    assert Adjusted(up, c, f, -1)[c] == stocks[c] by {
      match f
      case Own =>
      case Trade =>
    }
    if FieldOf(stocks[c], f) > 0 {
      var down := Adjusted(stocks, c, f, -1);
      assert Adjusted(down, c, f, 1)[c] == stocks[c] by {
        match f
        case Own =>
        case Trade =>
      }
    }
  }

  /** Toggling twice restores the record. */
  lemma ToggleTwice(stocks: map<string, Stock>, c: string)
    requires c in stocks
    ensures Toggled(Toggled(stocks, c), c) == stocks
  {
    assert Toggled(Toggled(stocks, c), c)[c] == stocks[c];
  }

  /** `Render.editorGrid` gives every roster character without a record an
      empty one. */
  function FillRecords(stocks: map<string, Stock>, chars: seq<string>): (r: map<string, Stock>)
    ensures r.Keys == stocks.Keys + set x | x in chars
    ensures forall x :: x in r ==> r[x] == StockOf(stocks, x)
    decreases |chars|
  {
    if |chars| == 0 then stocks
    else
      var prev := FillRecords(stocks, chars[..|chars| - 1]);
      var c := chars[|chars| - 1];
      assert chars == chars[..|chars| - 1] + [c];
      if c in prev then prev else prev[c := EmptyStock]
  }

  /** Once every roster character has a record, filling changes nothing. */
  lemma FillRecordsIdle(stocks: map<string, Stock>, chars: seq<string>)
    requires forall x :: x in chars ==> x in stocks
    ensures FillRecords(stocks, chars) == stocks
  {
    var r := FillRecords(stocks, chars);
    assert r.Keys == stocks.Keys;
    assert forall x :: x in r ==> r[x] == stocks[x];
  }

  /** `bulkIncrementOwn`: every roster character, listed once or more, owns
      one more per listing, with an empty record made first where needed. */
  function IncrementOwnAll(stocks: map<string, Stock>, chars: seq<string>): map<string, Stock>
    decreases |chars|
  {
    if |chars| == 0 then stocks
    else BumpOwn(IncrementOwnAll(stocks, chars[..|chars| - 1]), chars[|chars| - 1])
  }

  /** After "+1 to all" every roster character has a record, and each
      character owns as many more as it is listed; the other records and
      the other fields are untouched. */
  lemma {:induction false} IncrementOwnAllShape(stocks: map<string, Stock>, chars: seq<string>)
    ensures IncrementOwnAll(stocks, chars).Keys == stocks.Keys + set x | x in chars
    ensures forall x :: x in IncrementOwnAll(stocks, chars) ==>
              IncrementOwnAll(stocks, chars)[x] == StockOf(stocks, x).(own := StockOf(stocks, x).own + multiset(chars)[x])
    decreases |chars|
  {
    if |chars| > 0 {
      var n := |chars| - 1;
      IncrementOwnAllShape(stocks, chars[..n]);
      assert chars == chars[..n] + [chars[n]];
    }
  }

  /** One character's "+1": an empty record first if it has none. */
  function BumpOwn(stocks: map<string, Stock>, c: string): map<string, Stock>
  {
    var s := StockOf(stocks, c);
    stocks[c := s.(own := s.own + 1)]
  }

  lemma IncrementOwnStep(stocks: map<string, Stock>, chars: seq<string>, i: nat)
    requires i < |chars|
    ensures IncrementOwnAll(stocks, chars[..i + 1]) == BumpOwn(IncrementOwnAll(stocks, chars[..i]), chars[i])
  {
    assert chars[..i + 1][..i] == chars[..i];
  }

  /** The loop of `bulkIncrementOwn`. */
  method IncrementEach(stocks: map<string, Stock>, chars: seq<string>) returns (r: map<string, Stock>)
    ensures r == IncrementOwnAll(stocks, chars)
  {
    r := stocks;
    var i := 0;
    while i < |chars|
      invariant 0 <= i <= |chars|
      invariant r == IncrementOwnAll(stocks, chars[..i])
    {
      var c := chars[i];
      IncrementOwnStep(stocks, chars, i);
      ghost var before := r;
      if c !in r {
        r := r[c := EmptyStock];
      }
      r := r[c := r[c].(own := r[c].own + 1)];
      assert r == BumpOwn(before, c);
      i := i + 1;
    }
    assert chars[..i] == chars;
  }

  /** `bulkResetCounts`: every record is emptied, none is removed. */
  function ResetAll(stocks: map<string, Stock>): map<string, Stock>
  {
    map c | c in stocks :: EmptyStock
  }

  /** After a reset, an item with targets that is not excluded derives
      "not": nothing is collected. */
  lemma ResetMakesIncomp(item: Item)
    requires item.status != Excluded && |TargetList(item)| > 0
    ensures AutoDetermineStatus(item.(stocks := ResetAll(item.stocks))) == Incomp
  {
    OutstandingTargetMeansIncomp(item.(stocks := ResetAll(item.stocks)), 0);
  }

  /** After "+1 to all", an item whose targets are all on the roster and none
      infinite derives "comp", unless it is excluded. */
  lemma IncrementAllCompletes(item: Item, chars: seq<string>)
    requires item.status != Excluded && |TargetList(item)| > 0
    requires forall i :: 0 <= i < |TargetList(item)| ==> TargetList(item)[i] in chars
    requires forall i :: 0 <= i < |TargetList(item)| ==> !StockOf(item.stocks, TargetList(item)[i]).infinite
    ensures AutoDetermineStatus(item.(stocks := IncrementOwnAll(item.stocks, chars))) == Comp
  {
    var after := item.(stocks := IncrementOwnAll(item.stocks, chars));
    var t := TargetList(item);
    IncrementOwnAllShape(item.stocks, chars);
    forall i | 0 <= i < |t| ensures Collected(StockOf(after.stocks, t[i])) {
      assert t[i] in multiset(chars);
    }
    CompIffAllCollected(after);
  }

  // ---------------------------------------------------------------------
  // The unboxing counter and the item edits, on values.

  /** An item with its status re-derived. */
  function Derived(item: Item): (r: Item)
    ensures r.status == AutoDetermineStatus(item) && r == item.(status := r.status)
    ensures AutoDetermineStatus(r) == r.status
  {
    AutoDetermineIdempotent(item);
    item.(status := AutoDetermineStatus(item))
  }

  /** `updateUnboxingCount` on the item: make the record if absent, move the
      count (not below 0), then derive the status. */
  function Unbox(item: Item, c: string, f: Field, delta: int): Item
  {
    var s := StockOf(item.stocks, c);
    Derived(item.(stocks := item.stocks[c := WithField(s, f, ClampAdd(FieldOf(s, f), delta))]))
  }

  const Completed: string := "コンプリート！"
  const Reverted: string := "未コンプに戻りました"

  /** The toast shown when the status changed. */
  function UnboxNotice(before: Status, after: Status): Option<string>
  {
    if before == after then None else Some(if after == Comp then Completed else Reverted)
  }

  /** The toast tells the truth: "complete" exactly when a not-complete item
      became complete, "back to incomplete" exactly when a complete one
      became "not", and nothing otherwise. */
  lemma UnboxNoticeAccurate(item: Item, c: string, f: Field, delta: int)
    ensures var after := Unbox(item, c, f, delta).status;
            (UnboxNotice(item.status, after) == Some(Completed) <==> item.status != Comp && after == Comp)
            && (UnboxNotice(item.status, after) == Some(Reverted) <==> item.status == Comp && after == Incomp)
            && (UnboxNotice(item.status, after) == None <==> item.status == after)
  {
    var after := Unbox(item, c, f, delta).status;
    if item.status == Excluded {
      assert after == Excluded;
    }
  }

  /** Counting one more unit never breaks a complete item. */
  lemma UnboxUpKeepsComp(item: Item, c: string, f: Field, delta: int)
    requires delta >= 0 && AutoDetermineStatus(item) == Comp
    ensures Unbox(item, c, f, delta).status == Comp
  {
    var s := StockOf(item.stocks, c);
    var bumped := item.(stocks := item.stocks[c := WithField(s, f, ClampAdd(FieldOf(s, f), delta))]);
    var t := TargetList(item);
    if item.status != Excluded && |t| > 0 {
      CompIffAllCollected(item);
      forall i | 0 <= i < |t| ensures Collected(StockOf(bumped.stocks, t[i])) {
        assert Collected(StockOf(item.stocks, t[i]));
      }
      CompIffAllCollected(bumped);
    }
  }

  /** Counting a target down to nothing makes a non-excluded item "not". */
  lemma UnboxDownToNothingReverts(item: Item, c: string, f: Field, delta: int)
    requires item.status != Excluded && c in TargetList(item)
    requires FieldOf(StockOf(item.stocks, c), Other(f)) == 0
    requires FieldOf(StockOf(item.stocks, c), f) + delta <= 0
    ensures Unbox(item, c, f, delta).status == Incomp
  {
    var s := StockOf(item.stocks, c);
    var bumped := item.(stocks := item.stocks[c := WithField(s, f, ClampAdd(FieldOf(s, f), delta))]);
    var i :| 0 <= i < |TargetList(item)| && TargetList(item)[i] == c;
    assert IsMissing(StockOf(bumped.stocks, c)) by {
      match f
      case Own =>
      case Trade =>
    }
    OutstandingTargetMeansIncomp(bumped, i);
  }

  /** `duplicateItem`'s copy: same type and targets, the roster name with
      "" read as the default, no stock, status "not". Without a target list
      `JSON.parse(undefined)` throws and there is no copy. */
  function Duplicate(base: Item): Option<Item>
  {
    match base.targets
    case None => None
    case Some(_) =>
      Some(Item(base.typeName, if base.charSetName == "" then DefaultSetName else base.charSetName,
                base.targets, map[], Incomp))
  }

  /** The copy shows the same roster and targets as the original, records
      nothing, and its stored status is the one its stock derives. */
  lemma DuplicateLikeOriginal(sets: seq<NamedRoster>, base: Item)
    requires base.targets.Some?
    ensures Duplicate(base).Some?
    ensures var copy := Duplicate(base).value;
            var roster := RosterOf(sets, base.charSetName);
            RosterOf(sets, copy.charSetName) == roster
            && ResolvedTargets(copy, roster) == ResolvedTargets(base, roster)
            && copy.typeName == base.typeName
            && (forall x :: StockOf(copy.stocks, x) == EmptyStock)
            && AutoDetermineStatus(copy) == copy.status == Incomp
  {
    var copy := Duplicate(base).value;
    if |TargetList(copy)| > 0 {
      OutstandingTargetMeansIncomp(copy, 0);
    }
  }

  /** One item of a new series made from a template name. */
  function TemplateItem(t: string): Item
  {
    Item(t, DefaultSetName, Some(DefaultChars), map[], Incomp)
  }

  function TemplateItems(templates: seq<string>): (r: seq<Item>)
    ensures |r| == |templates|
    ensures forall i :: 0 <= i < |r| ==> r[i] == TemplateItem(templates[i])
    decreases |templates|
  {
    if |templates| == 0 then []
    else TemplateItems(templates[..|templates| - 1]) + [TemplateItem(templates[|templates| - 1])]
  }

  /** A template item starts "not", as its empty stock derives, and every
      default character is wanted in its trade text. */
  lemma TemplateItemConsistent(t: string)
    ensures AutoDetermineStatus(TemplateItem(t)) == TemplateItem(t).status == Incomp
  {
    OutstandingTargetMeansIncomp(TemplateItem(t), 0);
  }

  /** `handleDrop` does nothing without a drag source (`null` or "") or when
      the source is the target. */
  predicate DropIgnored(src: Option<string>, targetId: string)
  {
    src.None? || src.value == "" || src.value == targetId
  }

  // ---------------------------------------------------------------------
  // The store.

  class Store {
    var db: map<string, Series>
    var order: seq<string>
    var charSets: seq<NamedRoster>
    var templates: seq<string>
    var presets: seq<Preset>
    var tradeConfig: TradeConfig
    var sortMode: SortMode
    var lastItem: Option<LastItem>

    var currentSeriesId: Option<string>
    var currentItemIdx: Option<nat>
    var activeCharList: seq<string>
    var tempStocks: map<string, Stock>
    /** `Actions.dragSrcId`. */
    var dragSrcId: Option<string>

    /** The order lists every stored series exactly once, and no roster name
        appears twice (they are the keys of an object). */
    predicate Valid()
      reads this
    {
      NoDup(order) && db.Keys == (set id | id in order) && DistinctNames(charSets)
    }

    /** The editor has a record for every character of its roster. */
    predicate EditorReady()
      reads this
    {
      forall c :: c in activeCharList ==> c in tempStocks
    }

    function SavedState(): Saved
      reads this
    {
      Saved(db, order, charSets, templates, presets, tradeConfig, sortMode, lastItem)
    }

    function SessionState(): Session
      reads this
    {
      Session(currentSeriesId, currentItemIdx, activeCharList, tempStocks, dragSrcId)
    }

    /** The store of a first launch: every `IDB.get(...) || default` of
        `Store.init` takes its default. */
    constructor ()
      ensures SavedState() == Saved(map[], [], DefaultCharSets, DefaultTemplates, [], DefaultTradeConfig, New, None)
      ensures SessionState() == Session(None, None, [], map[], None)
      ensures Valid()
    {
      db := map[];
      order := [];
      charSets := DefaultCharSets;
      templates := DefaultTemplates;
      presets := [];
      tradeConfig := DefaultTradeConfig;
      sortMode := New;
      lastItem := None;
      currentSeriesId := None;
      currentItemIdx := None;
      activeCharList := [];
      tempStocks := map[];
      dragSrcId := None;
    }

    /** The record filling of `Render.editorGrid`, which every editor edit
        ends with. */
    method FillEditorRecords()
      modifies this
      ensures tempStocks == FillRecords(old(tempStocks), activeCharList)
      ensures EditorReady()
      ensures SavedState() == old(SavedState())
      ensures SessionState() == old(SessionState()).(tempStocks := tempStocks)
    {
      var stocks := tempStocks;
      var i := 0;
      while i < |activeCharList|
        invariant 0 <= i <= |activeCharList|
        invariant stocks == FillRecords(tempStocks, activeCharList[..i])
      {
        var c := activeCharList[i];
        if c !in stocks {
          stocks := stocks[c := EmptyStock];
        }
        assert activeCharList[..i + 1][..i] == activeCharList[..i];
        i := i + 1;
      }
      assert activeCharList[..i] == activeCharList;
      tempStocks := stocks;
    }

    /** `Actions.updateQty`. */
    method UpdateQty(c: string, f: Field, delta: int)
      requires c in tempStocks
      modifies this
      ensures tempStocks == FillRecords(Adjusted(old(tempStocks), c, f, delta), activeCharList)
      ensures old(EditorReady()) ==> tempStocks == Adjusted(old(tempStocks), c, f, delta)
      ensures SavedState() == old(SavedState())
      ensures SessionState() == old(SessionState()).(tempStocks := tempStocks)
    {
      tempStocks := Adjusted(tempStocks, c, f, delta);
      if EditorReady() {
        FillRecordsIdle(tempStocks, activeCharList);
      }
      FillEditorRecords();
    }

    /** `Actions.directInputQty`, with the text of the number box. */
    method DirectInputQty(c: string, f: Field, val: string)
      requires c in tempStocks
      modifies this
      ensures tempStocks == FillRecords(Entered(old(tempStocks), c, f, val), activeCharList)
      ensures old(EditorReady()) ==> tempStocks == Entered(old(tempStocks), c, f, val)
      ensures SavedState() == old(SavedState())
      ensures SessionState() == old(SessionState()).(tempStocks := tempStocks)
    {
      var n := ParseInt(val);
      var v: nat := match n case NaN => 0 case Num(k) => if k < 0 then 0 else k;
      tempStocks := tempStocks[c := WithField(tempStocks[c], f, v)];
      if EditorReady() {
        FillRecordsIdle(tempStocks, activeCharList);
      }
      FillEditorRecords();
    }

    /** `Actions.toggleInfinite`. */
    method ToggleInfinite(c: string)
      requires c in tempStocks
      modifies this
      ensures tempStocks == FillRecords(Toggled(old(tempStocks), c), activeCharList)
      ensures old(EditorReady()) ==> tempStocks == Toggled(old(tempStocks), c)
      ensures SavedState() == old(SavedState())
      ensures SessionState() == old(SessionState()).(tempStocks := tempStocks)
    {
      tempStocks := tempStocks[c := tempStocks[c].(infinite := !tempStocks[c].infinite)];
      if EditorReady() {
        FillRecordsIdle(tempStocks, activeCharList);
      }
      FillEditorRecords();
    }

    /** `Actions.bulkIncrementOwn`. */
    method BulkIncrementOwn()
      modifies this
      ensures tempStocks == IncrementOwnAll(old(tempStocks), activeCharList)
      ensures EditorReady()
      ensures SavedState() == old(SavedState())
      ensures SessionState() == old(SessionState()).(tempStocks := tempStocks)
    {
      tempStocks := IncrementEach(tempStocks, activeCharList);
      IncrementOwnAllShape(old(tempStocks), activeCharList);
      FillRecordsIdle(tempStocks, activeCharList);
      FillEditorRecords();
    }

    /** `Actions.bulkResetCounts`; `confirmed` is the answer to its `confirm`. */
    method BulkResetCounts(confirmed: bool)
      modifies this
      ensures tempStocks == if confirmed then FillRecords(ResetAll(old(tempStocks)), activeCharList) else old(tempStocks)
      ensures confirmed && old(EditorReady()) ==> tempStocks == ResetAll(old(tempStocks))
      ensures SavedState() == old(SavedState())
      ensures SessionState() == old(SessionState()).(tempStocks := tempStocks)
    {
      if confirmed {
        var stocks := tempStocks;
        var keys := tempStocks.Keys;
        while keys != {}
          invariant keys <= tempStocks.Keys
          invariant stocks.Keys == tempStocks.Keys
          invariant forall c :: c in stocks ==> stocks[c] == if c in keys then tempStocks[c] else EmptyStock
          decreases keys
        {
          var c :| c in keys;
          stocks := stocks[c := Stock(0, 0, false)];
          keys := keys - {c};
        }
        assert stocks == ResetAll(tempStocks);
        if EditorReady() {
          FillRecordsIdle(stocks, activeCharList);
        }
        tempStocks := stocks;
        FillEditorRecords();
      }
    }

    /** `Actions.saveItem`: `targets` are the checked characters and
        `status` and `charSetName` the editor's choices. */
    method SaveItem(rawType: string, targets: seq<string>, status: Status, charSetName: string) returns (saved: bool)
      requires currentSeriesId.Some? && currentSeriesId.value in db
      requires currentItemIdx.Some? ==> currentItemIdx.value < |db[currentSeriesId.value].items|
      modifies this
      ensures saved == (Trim(rawType) != "")
      ensures var sid := old(currentSeriesId).value;
              var items := old(db)[sid].items;
              var data := Derived(Item(Trim(rawType), charSetName, Some(targets), old(tempStocks), status));
              saved ==>
                db == old(db)[sid := old(db)[sid].(items :=
                  if old(currentItemIdx).None? then items + [data] else items[old(currentItemIdx).value := data])]
                && lastItem == Some(LastItem(Trim(rawType), charSetName, targets))
      ensures !saved ==> SavedState() == old(SavedState())
      ensures SavedState() == old(SavedState()).(db := db, lastItem := lastItem)
      ensures SessionState() == old(SessionState())
      ensures old(Valid()) ==> Valid()
    {
      var t := Trim(rawType);
      if t == "" {
        return false;
      }
      var data := Item(t, charSetName, Some(targets), tempStocks, status);
      data := data.(status := AutoDetermineStatus(data));
      lastItem := Some(LastItem(t, charSetName, targets));
      var sid := currentSeriesId.value;
      var items := db[sid].items;
      if currentItemIdx.None? {
        items := items + [data];
      } else {
        items := items[currentItemIdx.value := data];
      }
      db := db[sid := db[sid].(items := items)];
      saved := true;
    }

    /** `Actions.updateUnboxingCount` on the open item; `notice` is the toast. */
    method UpdateUnboxingCount(c: string, f: Field, delta: int) returns (notice: Option<string>)
      requires currentSeriesId.Some? && currentSeriesId.value in db
      requires currentItemIdx.Some? && currentItemIdx.value < |db[currentSeriesId.value].items|
      modifies this
      ensures var sid, idx := old(currentSeriesId).value, old(currentItemIdx).value;
              var before := old(db)[sid].items[idx];
              db == old(db)[sid := old(db)[sid].(items := old(db)[sid].items[idx := Unbox(before, c, f, delta)])]
              && notice == UnboxNotice(before.status, Unbox(before, c, f, delta).status)
      ensures SavedState() == old(SavedState()).(db := db)
      ensures SessionState() == old(SessionState())
      ensures old(Valid()) ==> Valid()
    {
      var sid, idx := currentSeriesId.value, currentItemIdx.value;
      var item := db[sid].items[idx];
      ghost var before := item;
      if c !in item.stocks {
        item := item.(stocks := item.stocks[c := Stock(0, 0, false)]);
      }
      var s := item.stocks[c];
      item := item.(stocks := item.stocks[c := WithField(s, f, ClampAdd(FieldOf(s, f), delta))]);
      var oldStatus := item.status;
      item := item.(status := AutoDetermineStatus(item));
      assert item.stocks == Unbox(before, c, f, delta).stocks;
      assert item == Unbox(before, c, f, delta);
      notice := None;
      if oldStatus != item.status {
        notice := Some(if item.status == Comp then Completed else Reverted);
      }
      db := db[sid := db[sid].(items := db[sid].items[idx := item])];
    }

    /** `Actions.saveSeriesModal`: `id` is the `"s" + Date.now()` of the call. */
    method SaveSeriesModal(rawTitle: string, id: string, date: string, tags: string, useTemplate: bool)
      returns (created: bool)
      modifies this
      ensures created == (Trim(rawTitle) != "")
      ensures created ==>
                db == old(db)[id := Series(Trim(rawTitle), date, tags,
                                           if useTemplate then TemplateItems(old(templates)) else [], false)]
                && order == [id] + old(order)
                && currentSeriesId == Some(id)
      ensures SavedState() == old(SavedState()).(db := db, order := order)
      ensures SessionState() == old(SessionState()).(currentSeriesId := currentSeriesId)
      ensures !created ==> SavedState() == old(SavedState()) && SessionState() == old(SessionState())
      ensures old(Valid()) && id !in old(db) ==> Valid()
    {
      var title := Trim(rawTitle);
      if title == "" {
        return false;
      }
      var items := [];
      if useTemplate {
        var i := 0;
        while i < |templates|
          invariant 0 <= i <= |templates|
          invariant items == TemplateItems(templates[..i])
        {
          items := items + [TemplateItem(templates[i])];
          assert templates[..i + 1][..i] == templates[..i];
          i := i + 1;
        }
        assert templates[..i] == templates;
      }
      db := db[id := Series(title, date, tags, items, false)];
      order := [id] + order;
      currentSeriesId := Some(id);
      created := true;
      if NoDup(order[1..]) && id !in order[1..] {
        NoDupPrepend(order[1..], id);
      }
    }

    /** `Actions.deleteSeries`; `confirmed` is the answer to its `confirm`. */
    method DeleteSeries(id: string, confirmed: bool)
      modifies this
      ensures confirmed ==> db == old(db) - {id} && order == Without(old(order), id)
      ensures !confirmed ==> db == old(db) && order == old(order)
      ensures SavedState() == old(SavedState()).(db := db, order := order)
      ensures SessionState() == old(SessionState())
      ensures old(Valid()) ==> Valid()
    {
      if confirmed {
        DeleteFromOrder(order, id);
        db := db - {id};
        order := Without(order, id);
      }
    }

    /** `Actions.duplicateItem`; `ok` is false when it throws. */
    method DuplicateItem(idx: nat) returns (ok: bool)
      requires currentSeriesId.Some? && currentSeriesId.value in db
      requires idx < |db[currentSeriesId.value].items|
      modifies this
      ensures var sid := old(currentSeriesId).value;
              var copy := Duplicate(old(db)[sid].items[idx]);
              ok == copy.Some?
              && db == if ok then old(db)[sid := old(db)[sid].(items := old(db)[sid].items + [copy.value])] else old(db)
      ensures SavedState() == old(SavedState()).(db := db)
      ensures SessionState() == old(SessionState())
      ensures old(Valid()) ==> Valid()
    {
      var sid := currentSeriesId.value;
      var base := db[sid].items[idx];
      if base.targets.None? {
        return false;
      }
      var newItem := Item(base.typeName, if base.charSetName == "" then DefaultSetName else base.charSetName,
                          Some(base.targets.value), map[], Incomp);
      db := db[sid := db[sid].(items := db[sid].items + [newItem])];
      ok := true;
    }

    /** `Actions.handleDragStart`. */
    method HandleDragStart(id: string)
      modifies this
      ensures dragSrcId == if sortMode == Custom then Some(id) else old(dragSrcId)
      ensures SavedState() == old(SavedState())
      ensures SessionState() == old(SessionState()).(dragSrcId := dragSrcId)
    {
      if sortMode == Custom {
        dragSrcId := Some(id);
      }
    }

    /** `Actions.handleDrop` on the row of `targetId`. The drag source is
        not cleared afterwards. */
    method HandleDrop(targetId: string)
      modifies this
      ensures order == if DropIgnored(old(dragSrcId), targetId) then old(order)
                       else Reorder(old(order), old(dragSrcId).value, targetId)
      ensures SavedState() == old(SavedState()).(order := order)
      ensures SessionState() == old(SessionState())
      ensures old(Valid()) && (old(dragSrcId).None? || old(dragSrcId).value in old(order)) ==> Valid()
    {
      if dragSrcId.None? || dragSrcId.value == "" || dragSrcId.value == targetId {
        return;
      }
      var src := dragSrcId.value;
      var newOrder := order;
      var srcIdx := IndexOf(newOrder, src);
      var targetIdx := IndexOf(newOrder, targetId);
      newOrder := SpliceRemove(newOrder, srcIdx);
      newOrder := SpliceInsert(newOrder, targetIdx, src);
      if src in order {
        ReorderPermutes(order, src, targetId);
      }
      order := newOrder;
    }

    /** `Render.missingList` over the store's rosters, series and order;
        `found` says whether any character has a group. In a valid store
        every listed id is stored, and each group's list runs in the
        order's series order and, within a series, in item order. */
    method MissingList() returns (report: seq<Missing.MissingGroup>, found: bool)
      requires Valid()
      ensures Missing.InDb(db, order) && report == Missing.MissingReport(charSets, db, order)
      ensures found <==> |report| > 0
      ensures forall g :: g in report ==>
                forall i, j :: 0 <= i < j < |g.entries| ==> Missing.Precedes(order, g.entries[i], g.entries[j])
    {
      report, found := Missing.MissingList(charSets, db, order);
      Missing.ReportShape(charSets, db, order);
      forall g | g in report
        ensures forall i, j :: 0 <= i < j < |g.entries| ==> Missing.Precedes(order, g.entries[i], g.entries[j])
      {
        Missing.SeriesEntriesOrdered(charSets, db, order, g.name);
      }
    }

    /** `Actions.saveSettings`, up to `Store.save()`, with the texts of the
        three boxes and the trade options. */
    method SaveSettings(charText: string, tempText: string, presetText: string, prefix: string, suffix: string, showInf: bool)
      modifies this
      ensures charSets == CharSetsFromText(charText)
      ensures templates == TemplatesFromText(tempText)
      ensures presets == PresetLines(Split(presetText, '\n'))
      ensures tradeConfig == TradeConfig(prefix, suffix, showInf)
      ensures SavedState() == old(SavedState()).(charSets := charSets, templates := templates, presets := presets, tradeConfig := tradeConfig)
      ensures SessionState() == old(SessionState())
      ensures old(Valid()) ==> Valid()
    {
      var sets := ParseCharSets(charText);
      var temps := NonEmpty(TrimAll(Split(tempText, '\n')));
      var ps := ParsePresets(presetText);
      assert DistinctNames(sets) by {
        RosterLinesShape(Split(charText, '\n'));
      }
      charSets, templates, presets, tradeConfig := sets, temps, ps, TradeConfig(prefix, suffix, showInf);
    }
  }
}
