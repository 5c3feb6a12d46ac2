// The collection archive's data: stock records, items, series, rosters of
// characters and the trade-text configuration, with the lookups that every
// derivation shares (app.js:53-67, 71-78, 295, 413).

module Inventory {

  datatype Option<T> = None | Some(value: T) {
    function GetOr(default: T): T
    {
      match this
      case Some(v) => v
      case None => default
    }
  }

  /** One character's stock inside one item: owned and tradeable counts and
      the "infinite" flag. */
  datatype Stock = Stock(own: nat, trade: nat, infinite: bool)

  /** What an absent record reads as: `{ own: 0, trade: 0, infinite: false }`. */
  const EmptyStock := Stock(0, 0, false)

  /** The two counters an edit can address (`key` / `type` in the source). */
  datatype Field = Own | Trade

  function FieldOf(s: Stock, f: Field): nat
  {
    match f
    case Own => s.own
    case Trade => s.trade
  }

  function WithField(s: Stock, f: Field, v: nat): Stock
  {
    match f
    case Own => s.(own := v)
    case Trade => s.(trade := v)
  }

  /** An item's status: "comp" is `Comp`, "not" is `Incomp` and "none"
      (the user's exclusion override) is `Excluded`. */
  datatype Status = Comp | Incomp | Excluded

  /** A product type inside a series. `charSetName` is "" when the item
      names no roster (the source's `item.charSetName || "デフォルト"` treats
      an absent and an empty name alike); `targets` is `None` when the item
      has no target list at all, which is not the same as an empty one. */
  datatype Item = Item(
    typeName: string,
    charSetName: string,
    targets: Option<seq<string>>,
    stocks: map<string, Stock>,
    status: Status)

  datatype Series = Series(title: string, date: string, tags: string, items: seq<Item>, fav: bool)

  datatype TradeConfig = TradeConfig(prefix: string, suffix: string, showInf: bool)

  /** One entry of `Store.charSets`; the list keeps the object's key order. */
  datatype NamedRoster = NamedRoster(name: string, chars: seq<string>)

  datatype Preset = Preset(name: string, charSet: string, targets: seq<string>)

  const DefaultSetName: string := "デフォルト"

  const DefaultChars: seq<string> :=
    ["北門", "是国", "金城", "阿修", "愛染", "増長", "音済", "王茶利", "野目", "釈村", "唯月", "遙日", "不動", "殿"]

  const DefaultTemplates: seq<string> := ["缶バッジ", "アクスタ", "ブロマイド"]

  const DefaultTradeConfig := TradeConfig("", "", true)

  /** The charSets an empty store starts with. */
  const DefaultCharSets: seq<NamedRoster> := [NamedRoster(DefaultSetName, DefaultChars)]

  /** `item.stocks[c] || { own: 0, trade: 0, infinite: false }`. */
  function StockOf(stocks: map<string, Stock>, c: string): Stock
  {
    if c in stocks then stocks[c] else EmptyStock
  }

  /** `Store.charSets[name]`: the first roster with that name, if any. */
  function Lookup(sets: seq<NamedRoster>, name: string): (r: Option<seq<string>>)
    ensures r.Some? <==> exists i :: 0 <= i < |sets| && sets[i].name == name
    ensures r.Some? ==> exists i :: 0 <= i < |sets| && sets[i].name == name && sets[i].chars == r.value
                                    && forall j :: 0 <= j < i ==> sets[j].name != name
    decreases |sets|
  {
    if |sets| == 0 then None
    else if sets[0].name == name then Some(sets[0].chars)
    else
      var r := Lookup(sets[1..], name);
      assert forall i :: 0 < i < |sets| ==> sets[i] == sets[1..][i - 1];
      if r.Some? then
        var i :| 0 <= i < |sets[1..]| && sets[1..][i].name == name && sets[1..][i].chars == r.value
                 && forall j :: 0 <= j < i ==> sets[1..][j].name != name;
        assert forall j :: 0 <= j < i + 1 ==> sets[j].name != name;
        r
      else r
  }

  /** `Store.charSets[item.charSetName || "デフォルト"] || CONSTANTS.DEFAULT_CHARS`. */
  function RosterOf(sets: seq<NamedRoster>, charSetName: string): seq<string>
  {
    var key := if charSetName == "" then DefaultSetName else charSetName;
    Lookup(sets, key).GetOr(DefaultChars)
  }

  /** `item.targets || list`: the explicit target list, even an empty one, or
      the whole roster when the item has none. */
  function ResolvedTargets(item: Item, roster: seq<string>): seq<string>
  {
    item.targets.GetOr(roster)
  }

  /** A record with nothing owned and nothing to trade. */
  predicate IsMissing(s: Stock)
  {
    s.own == 0 && s.trade == 0
  }

  /** A target counts as collected only when it is not infinite and at least
      one unit is owned or tradeable. */
  predicate Collected(s: Stock)
  {
    !s.infinite && s.own + s.trade >= 1
  }

  /** Whether a character still shows as wanted: missing, or marked infinite. */
  predicate Outstanding(s: Stock)
  {
    IsMissing(s) || s.infinite
  }

  /** Outstanding is exactly "not collected". */
  lemma OutstandingIffNotCollected(s: Stock)
    ensures Outstanding(s) <==> !Collected(s)
  {
  }
}
