// The per-item derivations of `Render.itemList` (app.js:272-331): one pass
// over the item's roster that collects the owned chips, the trade lines, the
// offered and wanted names, the infinite chips and the two totals; the
// missing chips; and the trade-offer text (`copyStr`, app.js:320-322).

module Trade {
  import opened Inventory
  import opened Text

  /** An offered entry: the name, then the count only when more than one. */
  function TradeName(c: string, s: Stock): string
  {
    c + (if s.trade > 1 then NatToString(s.trade) else "")
  }

  /** A wanted entry: the name, then "(∞)" when infinite and the marker is on. */
  function WantedName(c: string, s: Stock, showInf: bool): string
  {
    c + (if s.infinite && showInf then "(∞)" else "")
  }

  // Each list below is what the pass has collected after the characters of
  // `roster`, in roster order; the recursion peels the last character so that
  // a loop over the roster extends it one step at a time.

  /** `tradeNamesArr`: characters with something to trade. */
  function OfferedNames(roster: seq<string>, stocks: map<string, Stock>): seq<string>
    decreases |roster|
  {
    if |roster| == 0 then []
    else
      var c := roster[|roster| - 1];
      var s := StockOf(stocks, c);
      OfferedNames(roster[..|roster| - 1], stocks) + (if s.trade > 0 then [TradeName(c, s)] else [])
  }

  /** `targetNamesArr`: targets that are missing or infinite. */
  function WantedNames(roster: seq<string>, targets: seq<string>, stocks: map<string, Stock>, showInf: bool): seq<string>
    decreases |roster|
  {
    if |roster| == 0 then []
    else
      var c := roster[|roster| - 1];
      var s := StockOf(stocks, c);
      WantedNames(roster[..|roster| - 1], targets, stocks, showInf)
        + (if c in targets && Outstanding(s) then [WantedName(c, s, showInf)] else [])
  }

  /** `ownChips`: characters with at least one owned unit. */
  function OwnNames(roster: seq<string>, stocks: map<string, Stock>): seq<string>
    decreases |roster|
  {
    if |roster| == 0 then []
    else
      var c := roster[|roster| - 1];
      OwnNames(roster[..|roster| - 1], stocks) + (if StockOf(stocks, c).own > 0 then [c] else [])
  }

  /** `tradeTextArr`: the name followed by the trade count, always written out. */
  function TradeLines(roster: seq<string>, stocks: map<string, Stock>): seq<string>
    decreases |roster|
  {
    if |roster| == 0 then []
    else
      var c := roster[|roster| - 1];
      var s := StockOf(stocks, c);
      TradeLines(roster[..|roster| - 1], stocks) + (if s.trade > 0 then [c + NatToString(s.trade)] else [])
  }

  /** `infiniteStatusChips`: each infinite character with its owned count. */
  function InfiniteChips(roster: seq<string>, stocks: map<string, Stock>): seq<(string, nat)>
    decreases |roster|
  {
    if |roster| == 0 then []
    else
      var c := roster[|roster| - 1];
      var s := StockOf(stocks, c);
      InfiniteChips(roster[..|roster| - 1], stocks) + (if s.infinite then [(c, s.own)] else [])
  }

  /** `totalOwn`. */
  function TotalOwn(roster: seq<string>, stocks: map<string, Stock>): nat
    decreases |roster|
  {
    if |roster| == 0 then 0
    else TotalOwn(roster[..|roster| - 1], stocks) + StockOf(stocks, roster[|roster| - 1]).own
  }

  /** `totalTrade`. */
  function TotalTrade(roster: seq<string>, stocks: map<string, Stock>): nat
    decreases |roster|
  {
    if |roster| == 0 then 0
    else TotalTrade(roster[..|roster| - 1], stocks) + StockOf(stocks, roster[|roster| - 1]).trade
  }

  /** What one pass over an item's roster collects. */
  datatype ItemCard = ItemCard(
    ownNames: seq<string>,
    tradeLines: seq<string>,
    offered: seq<string>,
    wanted: seq<string>,
    infinite: seq<(string, nat)>,
    totalOwn: nat,
    totalTrade: nat)

  /** The `list.forEach` pass of `Render.itemList` over the item's roster. */
  method ScanItem(roster: seq<string>, item: Item, showInf: bool) returns (card: ItemCard)
    ensures card.ownNames == OwnNames(roster, item.stocks)
    ensures card.tradeLines == TradeLines(roster, item.stocks)
    ensures card.offered == OfferedNames(roster, item.stocks)
    ensures card.wanted == WantedNames(roster, ResolvedTargets(item, roster), item.stocks, showInf)
    ensures card.infinite == InfiniteChips(roster, item.stocks)
    ensures card.totalOwn == TotalOwn(roster, item.stocks)
    ensures card.totalTrade == TotalTrade(roster, item.stocks)
  {
    var targets := ResolvedTargets(item, roster);
    var ownChips, tradeTextArr, tradeNamesArr, targetNamesArr := [], [], [], [];
    var infiniteStatusChips := [];
    var totalOwn, totalTrade := 0, 0;
    var i := 0;
    while i < |roster|
      invariant 0 <= i <= |roster|
      invariant ownChips == OwnNames(roster[..i], item.stocks)
      invariant tradeTextArr == TradeLines(roster[..i], item.stocks)
      invariant tradeNamesArr == OfferedNames(roster[..i], item.stocks)
      invariant targetNamesArr == WantedNames(roster[..i], targets, item.stocks, showInf)
      invariant infiniteStatusChips == InfiniteChips(roster[..i], item.stocks)
      invariant totalOwn == TotalOwn(roster[..i], item.stocks)
      invariant totalTrade == TotalTrade(roster[..i], item.stocks)
    {
      var c := roster[i];
      var s := StockOf(item.stocks, c);
      var isTarget := c in targets;
      totalOwn := totalOwn + s.own;
      totalTrade := totalTrade + s.trade;
      if s.own > 0 {
        ownChips := ownChips + [c];
      }
      if s.trade > 0 {
        tradeTextArr := tradeTextArr + [c + NatToString(s.trade)];
        tradeNamesArr := tradeNamesArr + [TradeName(c, s)];
      }
      if s.infinite {
        infiniteStatusChips := infiniteStatusChips + [(c, s.own)];
      }
      if isTarget {
        var isMissing := s.own == 0 && s.trade == 0;
        if isMissing || s.infinite {
          targetNamesArr := targetNamesArr + [WantedName(c, s, showInf)];
        }
      }
      assert roster[..i + 1][..i] == roster[..i];
      i := i + 1;
    }
    assert roster[..i] == roster;
    card := ItemCard(ownChips, tradeTextArr, tradeNamesArr, targetNamesArr, infiniteStatusChips, totalOwn, totalTrade);
  }

  /** A chip of the "不足" box; `isMissing` is false when the character is only
      there because it is infinite (drawn dimmed). */
  datatype MissingChip = MissingChip(name: string, isMissing: bool)

  /** The `list.filter(...).map(...)` that builds the missing chips. */
  function MissingChips(roster: seq<string>, targets: seq<string>, stocks: map<string, Stock>): seq<MissingChip>
    decreases |roster|
  {
    if |roster| == 0 then []
    else
      var c := roster[|roster| - 1];
      var s := StockOf(stocks, c);
      MissingChips(roster[..|roster| - 1], targets, stocks)
        + (if c in targets && Outstanding(s) then [MissingChip(c, IsMissing(s))] else [])
  }

  /** `x || placeholder` on a string: the placeholder replaces an empty string. */
  function OrElse(s: string, placeholder: string): string
  {
    if s == "" then placeholder else s
  }

  const Delimiter: string := "、"
  const NothingOffered: string := "なし"
  const NothingWanted: string := "完遂"

  /** The text after "譲：". */
  function OfferedField(roster: seq<string>, stocks: map<string, Stock>): string
  {
    OrElse(Join(OfferedNames(roster, stocks), Delimiter), NothingOffered)
  }

  /** The text after "求：". */
  function WantedField(roster: seq<string>, targets: seq<string>, stocks: map<string, Stock>, showInf: bool): string
  {
    OrElse(Join(WantedNames(roster, targets, stocks, showInf), Delimiter), NothingWanted)
  }

  const OfferedLabel: string := "譲："
  const WantedLabel: string := "求："

  /** `prefix`: the prefix and a line break, or nothing when the prefix is empty. */
  function PrefixPart(cfg: TradeConfig): string
  {
    if cfg.prefix != "" then cfg.prefix + "\n" else ""
  }

  /** `suffix`: a line break and the suffix, or nothing when the suffix is empty. */
  function SuffixPart(cfg: TradeConfig): string
  {
    if cfg.suffix != "" then "\n" + cfg.suffix else ""
  }

  /** The optional prefix line, the header, the two list lines and the
      optional suffix line, each joined to the next by a line break. */
  function Layout(cfg: TradeConfig, header: string, offered: string, wanted: string): string
  {
    PrefixPart(cfg) + (header + "\n" + (OfferedLabel + offered) + "\n" + (WantedLabel + wanted)) + SuffixPart(cfg)
  }

  /** `copyStr` for one item of a series titled `seriesTitle`. */
  function TradeText(roster: seq<string>, item: Item, cfg: TradeConfig, seriesTitle: string): string
  {
    Layout(cfg, seriesTitle + " " + item.typeName,
           OfferedField(roster, item.stocks),
           WantedField(roster, ResolvedTargets(item, roster), item.stocks, cfg.showInf))
  }

  /** The lines the trade text is made of. */
  function TradeLinesOf(cfg: TradeConfig, header: string, offered: string, wanted: string): seq<string>
  {
    (if cfg.prefix != "" then [cfg.prefix] else [])
    + [header, OfferedLabel + offered, WantedLabel + wanted]
    + (if cfg.suffix != "" then [cfg.suffix] else [])
  }

  lemma JoinThree(x: string, y: string, z: string, sep: string)
    ensures Join([x, y, z], sep) == x + sep + y + sep + z
  {
    assert [x, y, z][1..] == [y, z];
    assert [y, z][1..] == [z];
    assert Join([z], sep) == z;
    assert Join([y, z], sep) == y + sep + z;
    assert Join([x, y, z], sep) == x + sep + (y + sep + z);
  }

  lemma LayoutIsJoin(cfg: TradeConfig, header: string, offered: string, wanted: string)
    ensures Layout(cfg, header, offered, wanted) == Join(TradeLinesOf(cfg, header, offered, wanted), "\n")
  {
    var core := [header, OfferedLabel + offered, WantedLabel + wanted];
    var body := header + "\n" + (OfferedLabel + offered) + "\n" + (WantedLabel + wanted);
    JoinThree(header, OfferedLabel + offered, WantedLabel + wanted, "\n");
    var pre: seq<string> := if cfg.prefix != "" then [cfg.prefix] else [];
    var mid := pre + core;
    assert Join(mid, "\n") == PrefixPart(cfg) + body by {
      if cfg.prefix != "" {
        JoinAppend(pre, core, "\n");
      } else {
        assert mid == core;
      }
    }
    if cfg.suffix != "" {
      JoinAppend(mid, [cfg.suffix], "\n");
      assert TradeLinesOf(cfg, header, offered, wanted) == mid + [cfg.suffix];
      var m := Join(mid, "\n");
      assert m + "\n" + cfg.suffix == m + ("\n" + cfg.suffix);
    } else {
      assert TradeLinesOf(cfg, header, offered, wanted) == mid;
      assert Layout(cfg, header, offered, wanted) == PrefixPart(cfg) + body;
    }
  }

  predicate NoLineBreak(s: string)
  {
    '\n' !in s
  }

  lemma {:induction false} OfferedNamesNoLineBreak(roster: seq<string>, stocks: map<string, Stock>)
    requires forall i :: 0 <= i < |roster| ==> NoLineBreak(roster[i])
    ensures forall j :: 0 <= j < |OfferedNames(roster, stocks)| ==> NoLineBreak(OfferedNames(roster, stocks)[j])
    decreases |roster|
  {
    if |roster| > 0 {
      OfferedNamesNoLineBreak(roster[..|roster| - 1], stocks);
    }
  }

  lemma {:induction false} WantedNamesNoLineBreak(roster: seq<string>, targets: seq<string>, stocks: map<string, Stock>, showInf: bool)
    requires forall i :: 0 <= i < |roster| ==> NoLineBreak(roster[i])
    ensures forall j :: 0 <= j < |WantedNames(roster, targets, stocks, showInf)| ==>
              NoLineBreak(WantedNames(roster, targets, stocks, showInf)[j])
    decreases |roster|
  {
    if |roster| > 0 {
      WantedNamesNoLineBreak(roster[..|roster| - 1], targets, stocks, showInf);
    }
  }

  /** When the prefix, suffix, series title, item type and roster names hold
      no line break, the trade text splits into exactly its lines: the prefix
      line only when the prefix is non-empty, the header "title type", the
      "譲：" line, the "求：" line, and the suffix line only when the suffix is
      non-empty. */
  lemma TradeTextLineStructure(roster: seq<string>, item: Item, cfg: TradeConfig, seriesTitle: string)
    requires NoLineBreak(cfg.prefix) && NoLineBreak(cfg.suffix)
    requires NoLineBreak(seriesTitle) && NoLineBreak(item.typeName)
    requires forall i :: 0 <= i < |roster| ==> NoLineBreak(roster[i])
    ensures Split(TradeText(roster, item, cfg, seriesTitle), '\n') ==
            (if cfg.prefix != "" then [cfg.prefix] else [])
            + [seriesTitle + " " + item.typeName,
               OfferedLabel + OfferedField(roster, item.stocks),
               WantedLabel + WantedField(roster, ResolvedTargets(item, roster), item.stocks, cfg.showInf)]
            + (if cfg.suffix != "" then [cfg.suffix] else [])
  {
    var header := seriesTitle + " " + item.typeName;
    var targets := ResolvedTargets(item, roster);
    var offered := OfferedField(roster, item.stocks);
    var wanted := WantedField(roster, targets, item.stocks, cfg.showInf);
    OfferedNamesNoLineBreak(roster, item.stocks);
    JoinAvoids(OfferedNames(roster, item.stocks), Delimiter, '\n');
    WantedNamesNoLineBreak(roster, targets, item.stocks, cfg.showInf);
    JoinAvoids(WantedNames(roster, targets, item.stocks, cfg.showInf), Delimiter, '\n');
    var lines := TradeLinesOf(cfg, header, offered, wanted);
    LayoutIsJoin(cfg, header, offered, wanted);
    assert forall i :: 0 <= i < |lines| ==> '\n' !in lines[i];
    SplitJoin(lines, '\n');
  }

  /** The offered list holds, in roster order, exactly the offered entries of
      the roster characters that have something to trade. */
  lemma {:induction false} OfferedNamesExact(roster: seq<string>, stocks: map<string, Stock>, x: string)
    ensures x in OfferedNames(roster, stocks) <==>
            exists i :: 0 <= i < |roster| && StockOf(stocks, roster[i]).trade > 0
                        && x == TradeName(roster[i], StockOf(stocks, roster[i]))
    decreases |roster|
  {
    if |roster| > 0 {
      var n := |roster| - 1;
      OfferedNamesExact(roster[..n], stocks, x);
      assert forall i :: 0 <= i < n ==> roster[..n][i] == roster[i];
    }
  }

  /** The wanted list holds exactly the wanted entries of the roster
      characters that are targets and are missing or infinite. */
  lemma {:induction false} WantedNamesExact(roster: seq<string>, targets: seq<string>, stocks: map<string, Stock>, showInf: bool, x: string)
    ensures x in WantedNames(roster, targets, stocks, showInf) <==>
            exists i :: 0 <= i < |roster| && roster[i] in targets && Outstanding(StockOf(stocks, roster[i]))
                        && x == WantedName(roster[i], StockOf(stocks, roster[i]), showInf)
    decreases |roster|
  {
    if |roster| > 0 {
      var n := |roster| - 1;
      WantedNamesExact(roster[..n], targets, stocks, showInf, x);
      assert forall i :: 0 <= i < n ==> roster[..n][i] == roster[i];
    }
  }

  lemma {:induction false} OfferedNamesEmptyIff(roster: seq<string>, stocks: map<string, Stock>)
    ensures OfferedNames(roster, stocks) == [] <==>
            forall i :: 0 <= i < |roster| ==> StockOf(stocks, roster[i]).trade == 0
    decreases |roster|
  {
    if |roster| > 0 {
      var n := |roster| - 1;
      OfferedNamesEmptyIff(roster[..n], stocks);
      assert forall i :: 0 <= i < n ==> roster[..n][i] == roster[i];
    }
  }

  lemma {:induction false} WantedNamesEmptyIff(roster: seq<string>, targets: seq<string>, stocks: map<string, Stock>, showInf: bool)
    ensures WantedNames(roster, targets, stocks, showInf) == [] <==>
            forall i :: 0 <= i < |roster| && roster[i] in targets ==> !Outstanding(StockOf(stocks, roster[i]))
    decreases |roster|
  {
    if |roster| > 0 {
      var n := |roster| - 1;
      WantedNamesEmptyIff(roster[..n], targets, stocks, showInf);
      assert forall i :: 0 <= i < n ==> roster[..n][i] == roster[i];
    }
  }

  /** "なし" appears when no roster character has anything to trade; with
      non-empty names, otherwise the line is the joined offered entries. */
  lemma OfferedPlaceholder(roster: seq<string>, stocks: map<string, Stock>)
    requires forall i :: 0 <= i < |roster| ==> roster[i] != ""
    ensures (forall i :: 0 <= i < |roster| ==> StockOf(stocks, roster[i]).trade == 0) ==>
              OfferedField(roster, stocks) == NothingOffered
    ensures (exists i :: 0 <= i < |roster| && StockOf(stocks, roster[i]).trade > 0) ==>
              OfferedNames(roster, stocks) != [] &&
              OfferedField(roster, stocks) == Join(OfferedNames(roster, stocks), Delimiter)
  {
    var names := OfferedNames(roster, stocks);
    OfferedNamesEmptyIff(roster, stocks);
    if names != [] {
      OfferedNamesExact(roster, stocks, names[0]);
      JoinStartsWithFirst(names, Delimiter);
    }
  }

  /** "完遂" appears when no target is missing or infinite; with non-empty
      names, otherwise the line is the joined wanted entries. */
  lemma WantedPlaceholder(roster: seq<string>, targets: seq<string>, stocks: map<string, Stock>, showInf: bool)
    requires forall i :: 0 <= i < |roster| ==> roster[i] != ""
    ensures (forall i :: 0 <= i < |roster| && roster[i] in targets ==> !Outstanding(StockOf(stocks, roster[i]))) ==>
              WantedField(roster, targets, stocks, showInf) == NothingWanted
    ensures (exists i :: 0 <= i < |roster| && roster[i] in targets && Outstanding(StockOf(stocks, roster[i]))) ==>
              WantedNames(roster, targets, stocks, showInf) != [] &&
              WantedField(roster, targets, stocks, showInf) == Join(WantedNames(roster, targets, stocks, showInf), Delimiter)
  {
    var names := WantedNames(roster, targets, stocks, showInf);
    WantedNamesEmptyIff(roster, targets, stocks, showInf);
    if names != [] {
      WantedNamesExact(roster, targets, stocks, showInf, names[0]);
      JoinStartsWithFirst(names, Delimiter);
    }
  }

  /** The wanted names are the missing chips, each with the "(∞)" marker
      added when the character is infinite and the marker is on. */
  lemma {:induction false} WantedMatchesMissingChips(roster: seq<string>, targets: seq<string>, stocks: map<string, Stock>, showInf: bool)
    ensures |WantedNames(roster, targets, stocks, showInf)| == |MissingChips(roster, targets, stocks)|
    ensures forall j :: 0 <= j < |MissingChips(roster, targets, stocks)| ==>
              WantedNames(roster, targets, stocks, showInf)[j] ==
              WantedName(MissingChips(roster, targets, stocks)[j].name,
                         StockOf(stocks, MissingChips(roster, targets, stocks)[j].name), showInf)
    decreases |roster|
  {
    if |roster| > 0 {
      WantedMatchesMissingChips(roster[..|roster| - 1], targets, stocks, showInf);
    }
  }

  /** With nothing recorded (no records, or only the empty ones the editor
      grid makes), everything on the roster is wanted, plainly. */
  lemma {:induction false} NothingRecordedAllWanted(roster: seq<string>, targets: seq<string>, stocks: map<string, Stock>, showInf: bool)
    requires forall i :: 0 <= i < |roster| ==> roster[i] in targets
    requires forall c :: c in stocks ==> stocks[c] == EmptyStock
    ensures WantedNames(roster, targets, stocks, showInf) == roster
    ensures OfferedNames(roster, stocks) == []
    decreases |roster|
  {
    if |roster| > 0 {
      var n := |roster| - 1;
      NothingRecordedAllWanted(roster[..n], targets, stocks, showInf);
      assert StockOf(stocks, roster[n]) == EmptyStock;
      assert roster[n] + "" == roster[n];
      assert roster[..n] + [roster[n]] == roster;
    }
  }

  /** An item with no stock recorded and no target list offers nothing
      ("なし") and wants its whole roster. */
  lemma FreshItemTradeFields(roster: seq<string>, item: Item, showInf: bool)
    requires forall c :: c in item.stocks ==> item.stocks[c] == EmptyStock
    requires item.targets == None
    ensures OfferedField(roster, item.stocks) == NothingOffered
    ensures WantedNames(roster, ResolvedTargets(item, roster), item.stocks, showInf) == roster
  {
    NothingRecordedAllWanted(roster, roster, item.stocks, showInf);
  }

  /** A with two to trade and B with nothing: "A2" is offered and B is wanted. */
  lemma {:induction false} ExampleFields()
    ensures OfferedField(["A", "B"], map["A" := Stock(0, 2, false)]) == "A2"
    ensures WantedField(["A", "B"], ["A", "B"], map["A" := Stock(0, 2, false)], true) == "B"
  {
    var stocks := map["A" := Stock(0, 2, false)];
    assert ["A", "B"][..1] == ["A"];
    assert ["A"][..0] == [];
    assert NatToString(2) == "2";
    assert StockOf(stocks, "A") == Stock(0, 2, false);
    assert TradeName("A", Stock(0, 2, false)) == "A" + "2" == "A2";
    assert OfferedNames(["A"], stocks) == ["A2"];
    assert OfferedNames(["A", "B"], stocks) == ["A2"];
    assert WantedNames(["A"], ["A", "B"], stocks, true) == [];
    assert "B" + "" == "B";
    assert WantedNames(["A", "B"], ["A", "B"], stocks, true) == ["B"];
  }

  /** Prefix "Hi", suffix "Bye", series "Show", item "Badge", A with two to
      trade and B with nothing. */
  lemma ExampleTradeText()
    ensures TradeText(["A", "B"],
                      Item("Badge", "", None, map["A" := Stock(0, 2, false)], Incomp),
                      TradeConfig("Hi", "Bye", true), "Show")
            == "Hi\nShow Badge\n譲：A2\n求：B\nBye"
  {
    var item := Item("Badge", "", None, map["A" := Stock(0, 2, false)], Incomp);
    ExampleFields();
    assert ResolvedTargets(item, ["A", "B"]) == ["A", "B"];
    assert "Show" + " " + "Badge" == "Show Badge";
    ExampleLayout();
  }

  lemma ExampleLayout()
    ensures Layout(TradeConfig("Hi", "Bye", true), "Show Badge", "A2", "B") == "Hi\nShow Badge\n譲：A2\n求：B\nBye"
  {
    var cfg := TradeConfig("Hi", "Bye", true);
    var body := "Show Badge" + "\n" + (OfferedLabel + "A2") + "\n" + (WantedLabel + "B");
    assert body == "Show Badge\n譲：A2\n求：B" by {
      assert OfferedLabel + "A2" == "譲：A2";
      assert WantedLabel + "B" == "求：B";
      assert "Show Badge" + "\n" == "Show Badge\n";
      assert "Show Badge\n" + "譲：A2" == "Show Badge\n譲：A2";
      assert "Show Badge\n譲：A2" + "\n" == "Show Badge\n譲：A2\n";
      assert "Show Badge\n譲：A2\n" + "求：B" == "Show Badge\n譲：A2\n求：B";
    }
    assert PrefixPart(cfg) == "Hi\n" && SuffixPart(cfg) == "\nBye";
    assert "Hi\n" + "Show Badge\n譲：A2\n求：B" == "Hi\nShow Badge\n譲：A2\n求：B";
    assert "Hi\nShow Badge\n譲：A2\n求：B" + "\nBye" == "Hi\nShow Badge\n譲：A2\n求：B\nBye";
  }

}
