// The "不足" (missing) report of `Render.missingList` (app.js:402-431): for
// each character of the union of all rosters, the (series, item) pairs,
// walked in `Store.order` and then in item order, whose "not" item still
// wants that character.

module Missing {
  import opened Inventory
  import opened SeriesOrder

  /** One line of a character's group: the series title and id, the item's
      type and position, and whether the record is infinite or holds stock. */
  datatype MissingEntry = MissingEntry(
    series: string,
    seriesId: string,
    typeName: string,
    itemIdx: nat,
    isInf: bool,
    isOwn: bool)

  /** A character together with the entries listed under it. */
  datatype MissingGroup = MissingGroup(name: string, entries: seq<MissingEntry>)

  // ---------------------------------------------------------------------
  // The union of all rosters, in first-seen order (`allChars`, a `Set`).

  /** Adds the characters of `list` that are not there yet, in list order. */
  function AddAll(acc: seq<string>, list: seq<string>): seq<string>
    decreases |list|
  {
    if |list| == 0 then acc
    else
      var prev := AddAll(acc, list[..|list| - 1]);
      var c := list[|list| - 1];
      if c in prev then prev else prev + [c]
  }

  /** `Object.values(Store.charSets).forEach(list => list.forEach(c => allChars.add(c)))`. */
  function CharUnion(sets: seq<NamedRoster>): seq<string>
    decreases |sets|
  {
    if |sets| == 0 then []
    else AddAll(CharUnion(sets[..|sets| - 1]), sets[|sets| - 1].chars)
  }

  lemma {:induction false} AddAllMembers(acc: seq<string>, list: seq<string>, x: string)
    ensures x in AddAll(acc, list) <==> x in acc || x in list
    decreases |list|
  {
    if |list| > 0 {
      var n := |list| - 1;
      AddAllMembers(acc, list[..n], x);
      assert list == list[..n] + [list[n]];
    }
  }

  lemma {:induction false} AddAllNoDup(acc: seq<string>, list: seq<string>)
    requires NoDup(acc)
    ensures NoDup(AddAll(acc, list))
    decreases |list|
  {
    if |list| > 0 {
      var n := |list| - 1;
      AddAllNoDup(acc, list[..n]);
      var prev := AddAll(acc, list[..n]);
      var c := list[n];
      if c !in prev {
        assert forall i :: 0 <= i < |prev| ==> (prev + [c])[i] == prev[i];
      }
    }
  }

  /** What was there already keeps its place: the set only grows at the end. */
  lemma {:induction false} AddAllExtends(acc: seq<string>, list: seq<string>)
    ensures |acc| <= |AddAll(acc, list)| && AddAll(acc, list)[..|acc|] == acc
    decreases |list|
  {
    if |list| > 0 {
      var n := |list| - 1;
      AddAllExtends(acc, list[..n]);
      var prev := AddAll(acc, list[..n]);
      assert (prev + [list[n]])[..|acc|] == prev[..|acc|];
    }
  }

  /** The union holds each roster character once, and nothing else. */
  lemma {:induction false} CharUnionShape(sets: seq<NamedRoster>)
    ensures NoDup(CharUnion(sets))
    ensures forall x :: x in CharUnion(sets) <==> exists i :: 0 <= i < |sets| && x in sets[i].chars
    decreases |sets|
  {
    if |sets| > 0 {
      var n := |sets| - 1;
      CharUnionShape(sets[..n]);
      AddAllNoDup(CharUnion(sets[..n]), sets[n].chars);
      forall x
        ensures x in CharUnion(sets) <==> exists i :: 0 <= i < |sets| && x in sets[i].chars
      {
        AddAllMembers(CharUnion(sets[..n]), sets[n].chars, x);
        if x in CharUnion(sets[..n]) {
          var i :| 0 <= i < n && x in sets[..n][i].chars;
          assert x in sets[i].chars;
        }
        if exists i :: 0 <= i < |sets| && x in sets[i].chars {
          var i :| 0 <= i < |sets| && x in sets[i].chars;
          if i < n {
            assert x in sets[..n][i].chars;
          }
        }
      }
    }
  }

  /** The two nested `forEach` loops that fill `allChars`. */
  method AllChars(sets: seq<NamedRoster>) returns (allChars: seq<string>)
    ensures allChars == CharUnion(sets)
  {
    allChars := [];
    var i := 0;
    while i < |sets|
      invariant 0 <= i <= |sets|
      invariant allChars == CharUnion(sets[..i])
    {
      var list := sets[i].chars;
      var before := allChars;
      var j := 0;
      while j < |list|
        invariant 0 <= j <= |list|
        invariant allChars == AddAll(before, list[..j])
      {
        if list[j] !in allChars {
          allChars := allChars + [list[j]];
        }
        assert list[..j + 1][..j] == list[..j];
        j := j + 1;
      }
      assert list[..j] == list;
      assert sets[..i + 1][..i] == sets[..i];
      i := i + 1;
    }
    assert sets[..i] == sets;
  }

  // ---------------------------------------------------------------------
  // The entries listed under one character.

  /** Whether `item` is listed under `c`: `c` is in the item's roster and in
      its targets (the roster when it has none), the item is "not", and the
      record is missing or infinite. */
  predicate Qualifies(sets: seq<NamedRoster>, item: Item, c: string)
  {
    var roster := RosterOf(sets, item.charSetName);
    c in roster && c in ResolvedTargets(item, roster)
    && item.status == Incomp && Outstanding(StockOf(item.stocks, c))
  }

  function EntryOf(title: string, sId: string, item: Item, idx: nat, c: string): MissingEntry
  {
    var s := StockOf(item.stocks, c);
    MissingEntry(title, sId, item.typeName, idx, s.infinite, !IsMissing(s))
  }

  /** The entries one series contributes, over its items in order. */
  function ItemEntries(sets: seq<NamedRoster>, title: string, sId: string, items: seq<Item>, c: string): seq<MissingEntry>
    decreases |items|
  {
    if |items| == 0 then []
    else
      var n := |items| - 1;
      ItemEntries(sets, title, sId, items[..n], c)
        + (if Qualifies(sets, items[n], c) then [EntryOf(title, sId, items[n], n, c)] else [])
  }

  /** Every id of the order names a stored series (the source reads
      `Store.db[sId].items` unguarded). */
  predicate InDb(db: map<string, Series>, order: seq<string>)
  {
    forall k :: 0 <= k < |order| ==> order[k] in db
  }

  /** The entries of `list` for character `c`, over the series of `order`. */
  function SeriesEntries(sets: seq<NamedRoster>, db: map<string, Series>, order: seq<string>, c: string): seq<MissingEntry>
    requires InDb(db, order)
    decreases |order|
  {
    if |order| == 0 then []
    else
      var n := |order| - 1;
      var sId := order[n];
      SeriesEntries(sets, db, order[..n], c) + ItemEntries(sets, db[sId].title, sId, db[sId].items, c)
  }

  /** The groups for the characters of `chars`, skipping the empty ones. */
  function Groups(sets: seq<NamedRoster>, db: map<string, Series>, order: seq<string>, chars: seq<string>): seq<MissingGroup>
    requires InDb(db, order)
    decreases |chars|
  {
    if |chars| == 0 then []
    else
      var n := |chars| - 1;
      var es := SeriesEntries(sets, db, order, chars[n]);
      Groups(sets, db, order, chars[..n]) + (if |es| > 0 then [MissingGroup(chars[n], es)] else [])
  }

  /** The whole report, one group per character that has entries. */
  function MissingReport(sets: seq<NamedRoster>, db: map<string, Series>, order: seq<string>): seq<MissingGroup>
    requires InDb(db, order)
  {
    Groups(sets, db, order, CharUnion(sets))
  }

  /** The inner `items.forEach` for one series and one character. */
  method CollectInSeries(sets: seq<NamedRoster>, title: string, sId: string, items: seq<Item>, ch: string)
    returns (list: seq<MissingEntry>)
    ensures list == ItemEntries(sets, title, sId, items, ch)
  {
    list := [];
    var itemIdx := 0;
    while itemIdx < |items|
      invariant 0 <= itemIdx <= |items|
      invariant list == ItemEntries(sets, title, sId, items[..itemIdx], ch)
    {
      var item := items[itemIdx];
      var charList := RosterOf(sets, item.charSetName);
      if ch in charList && ch in ResolvedTargets(item, charList) {
        var s := StockOf(item.stocks, ch);
        var isMissing := s.own == 0 && s.trade == 0;
        if item.status == Incomp && (isMissing || s.infinite) {
          list := list + [MissingEntry(title, sId, item.typeName, itemIdx, s.infinite, !isMissing)];
        }
      }
      assert items[..itemIdx + 1][..itemIdx] == items[..itemIdx];
      itemIdx := itemIdx + 1;
    }
    assert items[..itemIdx] == items;
  }

  /** The `Store.order.forEach` walk for one character. */
  method CollectFor(sets: seq<NamedRoster>, db: map<string, Series>, order: seq<string>, ch: string)
    returns (list: seq<MissingEntry>)
    requires InDb(db, order)
    ensures list == SeriesEntries(sets, db, order, ch)
  {
    list := [];
    var k := 0;
    while k < |order|
      invariant 0 <= k <= |order|
      invariant list == SeriesEntries(sets, db, order[..k], ch)
    {
      var sId := order[k];
      var entries := CollectInSeries(sets, db[sId].title, sId, db[sId].items, ch);
      list := list + entries;
      assert order[..k + 1][..k] == order[..k];
      k := k + 1;
    }
    assert order[..k] == order;
  }

  /** `Render.missingList`: the groups, and `found`, which picks between
      the groups and the "不足はありません。" notice. */
  method MissingList(sets: seq<NamedRoster>, db: map<string, Series>, order: seq<string>)
    returns (report: seq<MissingGroup>, found: bool)
    requires InDb(db, order)
    ensures report == MissingReport(sets, db, order)
    ensures found <==> |report| > 0
  {
    var allChars := AllChars(sets);
    report := [];
    found := false;
    var i := 0;
    while i < |allChars|
      invariant 0 <= i <= |allChars|
      invariant report == Groups(sets, db, order, allChars[..i])
      invariant found <==> |report| > 0
    {
      var ch := allChars[i];
      var list := CollectFor(sets, db, order, ch);
      if |list| > 0 {
        found := true;
        report := report + [MissingGroup(ch, list)];
      }
      assert allChars[..i + 1][..i] == allChars[..i];
      i := i + 1;
    }
    assert allChars[..i] == allChars;
  }

  // ---------------------------------------------------------------------
  // What the report lists.

  /** The item at position `idx` of the series `order[k]` is listed under `c`
      with entry `e`. */
  predicate ListedAt(sets: seq<NamedRoster>, db: map<string, Series>, order: seq<string>, c: string, k: int, idx: int, e: MissingEntry)
    requires InDb(db, order)
  {
    0 <= k < |order| && 0 <= idx < |db[order[k]].items|
    && Qualifies(sets, db[order[k]].items[idx], c)
    && e == EntryOf(db[order[k]].title, order[k], db[order[k]].items[idx], idx, c)
  }

  lemma {:induction false} ItemEntriesIff(sets: seq<NamedRoster>, title: string, sId: string, items: seq<Item>, c: string, e: MissingEntry)
    ensures e in ItemEntries(sets, title, sId, items, c) <==>
            exists idx :: 0 <= idx < |items| && Qualifies(sets, items[idx], c) && e == EntryOf(title, sId, items[idx], idx, c)
    decreases |items|
  {
    if |items| > 0 {
      var n := |items| - 1;
      var prefix := items[..n];
      ItemEntriesIff(sets, title, sId, prefix, c, e);
      var last := if Qualifies(sets, items[n], c) then [EntryOf(title, sId, items[n], n, c)] else [];
      assert ItemEntries(sets, title, sId, items, c) == ItemEntries(sets, title, sId, prefix, c) + last;
      if e in ItemEntries(sets, title, sId, prefix, c) {
        var idx :| 0 <= idx < |prefix| && Qualifies(sets, prefix[idx], c) && e == EntryOf(title, sId, prefix[idx], idx, c);
        assert prefix[idx] == items[idx];
      } else if e in last {
        assert Qualifies(sets, items[n], c) && e == EntryOf(title, sId, items[n], n, c);
      }
      if exists idx :: 0 <= idx < |items| && Qualifies(sets, items[idx], c) && e == EntryOf(title, sId, items[idx], idx, c) {
        var idx :| 0 <= idx < |items| && Qualifies(sets, items[idx], c) && e == EntryOf(title, sId, items[idx], idx, c);
        if idx < n {
          assert prefix[idx] == items[idx];
          assert e in ItemEntries(sets, title, sId, prefix, c);
        } else {
          assert e in last;
        }
      }
    }
  }

  /** Listing inside a prefix of the order is listing inside the order. */
  lemma ListedAtPrefix(sets: seq<NamedRoster>, db: map<string, Series>, order: seq<string>, n: nat, c: string, k: int, idx: int, e: MissingEntry)
    requires InDb(db, order) && n <= |order| && k < n
    ensures ListedAt(sets, db, order[..n], c, k, idx, e) <==> ListedAt(sets, db, order, c, k, idx, e)
  {
    if 0 <= k {
      assert order[..n][k] == order[k];
    }
  }

  /** Soundness and completeness of one character's list: an entry is there
      exactly when it describes a qualifying item of a series in the order. */
  lemma {:induction false} SeriesEntriesIff(sets: seq<NamedRoster>, db: map<string, Series>, order: seq<string>, c: string, e: MissingEntry)
    requires InDb(db, order)
    ensures e in SeriesEntries(sets, db, order, c) <==> exists k, idx :: ListedAt(sets, db, order, c, k, idx, e)
    decreases |order|
  {
    if |order| > 0 {
      var n := |order| - 1;
      var sId := order[n];
      var pre := order[..n];
      var left := SeriesEntries(sets, db, pre, c);
      var right := ItemEntries(sets, db[sId].title, sId, db[sId].items, c);
      assert SeriesEntries(sets, db, order, c) == left + right;
      SeriesEntriesIff(sets, db, pre, c, e);
      ItemEntriesIff(sets, db[sId].title, sId, db[sId].items, c, e);
      if e in left {
        var k, idx :| ListedAt(sets, db, pre, c, k, idx, e);
        ListedAtPrefix(sets, db, order, n, c, k, idx, e);
      } else if e in right {
        var idx :| 0 <= idx < |db[sId].items| && Qualifies(sets, db[sId].items[idx], c)
                   && e == EntryOf(db[sId].title, sId, db[sId].items[idx], idx, c);
        assert ListedAt(sets, db, order, c, n, idx, e);
      }
      if exists k, idx :: ListedAt(sets, db, order, c, k, idx, e) {
        var k, idx :| ListedAt(sets, db, order, c, k, idx, e);
        if k < n {
          ListedAtPrefix(sets, db, order, n, c, k, idx, e);
          assert e in left;
        } else {
          assert e in right;
        }
      }
    }
  }

  /** `a` comes before `b` in the report: an earlier series of the order, or
      the same series and an earlier item. */
  predicate Precedes(order: seq<string>, a: MissingEntry, b: MissingEntry)
  {
    IndexOf(order, a.seriesId) < IndexOf(order, b.seriesId)
    || (a.seriesId == b.seriesId && a.itemIdx < b.itemIdx)
  }

  lemma {:induction false} ItemEntriesFacts(sets: seq<NamedRoster>, title: string, sId: string, items: seq<Item>, c: string)
    ensures forall j :: 0 <= j < |ItemEntries(sets, title, sId, items, c)| ==>
              ItemEntries(sets, title, sId, items, c)[j].seriesId == sId
              && ItemEntries(sets, title, sId, items, c)[j].itemIdx < |items|
    ensures forall i, j :: 0 <= i < j < |ItemEntries(sets, title, sId, items, c)| ==>
              ItemEntries(sets, title, sId, items, c)[i].itemIdx < ItemEntries(sets, title, sId, items, c)[j].itemIdx
    decreases |items|
  {
    if |items| > 0 {
      ItemEntriesFacts(sets, title, sId, items[..|items| - 1], c);
    }
  }

  lemma {:induction false} SeriesEntriesOrderedPrefix(sets: seq<NamedRoster>, db: map<string, Series>, order: seq<string>, n: nat, c: string)
    requires InDb(db, order) && NoDup(order) && n <= |order|
    ensures forall j :: 0 <= j < |SeriesEntries(sets, db, order[..n], c)| ==>
              0 <= IndexOf(order, SeriesEntries(sets, db, order[..n], c)[j].seriesId) < n
    ensures forall i, j :: 0 <= i < j < |SeriesEntries(sets, db, order[..n], c)| ==>
              Precedes(order, SeriesEntries(sets, db, order[..n], c)[i], SeriesEntries(sets, db, order[..n], c)[j])
    decreases n
  {
    if n > 0 {
      var m := n - 1;
      SeriesEntriesOrderedPrefix(sets, db, order, m, c);
      var sId := order[m];
      assert order[..n][..m] == order[..m];
      var left := SeriesEntries(sets, db, order[..m], c);
      var right := ItemEntries(sets, db[sId].title, sId, db[sId].items, c);
      assert SeriesEntries(sets, db, order[..n], c) == left + right;
      ItemEntriesFacts(sets, db[sId].title, sId, db[sId].items, c);
      IndexOfNoDup(order, m);
      var all := left + right;
      forall j | 0 <= j < |all|
        ensures 0 <= IndexOf(order, all[j].seriesId) < n
      {
        if j >= |left| {
          assert all[j] == right[j - |left|];
        }
      }
      forall i, j | 0 <= i < j < |all|
        ensures Precedes(order, all[i], all[j])
      {
        if j < |left| {
          assert all[i] == left[i] && all[j] == left[j];
        } else if i < |left| {
          assert all[i] == left[i] && all[j] == right[j - |left|];
        } else {
          assert all[i] == right[i - |left|] && all[j] == right[j - |left|];
        }
      }
    }
  }

  /** With no repeated ids in the order, a character's list runs in the
      order's series order and, inside one series, in item order. */
  lemma SeriesEntriesOrdered(sets: seq<NamedRoster>, db: map<string, Series>, order: seq<string>, c: string)
    requires InDb(db, order) && NoDup(order)
    ensures forall i, j :: 0 <= i < j < |SeriesEntries(sets, db, order, c)| ==>
              Precedes(order, SeriesEntries(sets, db, order, c)[i], SeriesEntries(sets, db, order, c)[j])
  {
    SeriesEntriesOrderedPrefix(sets, db, order, |order|, c);
    assert order[..|order|] == order;
  }

  lemma {:induction false} GroupsShape(sets: seq<NamedRoster>, db: map<string, Series>, order: seq<string>, chars: seq<string>)
    requires InDb(db, order)
    ensures forall g :: g in Groups(sets, db, order, chars) ==>
              g.name in chars && |g.entries| > 0 && g.entries == SeriesEntries(sets, db, order, g.name)
    ensures forall x :: x in chars && |SeriesEntries(sets, db, order, x)| > 0 ==>
              exists g :: g in Groups(sets, db, order, chars) && g.name == x
    ensures NoDup(chars) ==> forall i, j :: 0 <= i < j < |Groups(sets, db, order, chars)| ==>
              Groups(sets, db, order, chars)[i].name != Groups(sets, db, order, chars)[j].name
    decreases |chars|
  {
    if |chars| > 0 {
      var n := |chars| - 1;
      var pre := chars[..n];
      GroupsShape(sets, db, order, pre);
      var es := SeriesEntries(sets, db, order, chars[n]);
      var gs := Groups(sets, db, order, pre);
      assert chars == pre + [chars[n]];
      forall x | x in chars && |SeriesEntries(sets, db, order, x)| > 0
        ensures exists g :: g in Groups(sets, db, order, chars) && g.name == x
      {
        if x in pre {
          var g :| g in gs && g.name == x;
          assert g in Groups(sets, db, order, chars);
        } else {
          assert x == chars[n];
          assert MissingGroup(x, es) in Groups(sets, db, order, chars);
        }
      }
      if NoDup(chars) && |es| > 0 {
        assert NoDup(pre);
        assert chars[n] !in pre;
        var all := gs + [MissingGroup(chars[n], es)];
        forall i, j | 0 <= i < j < |all| ensures all[i].name != all[j].name {
          if j == |gs| {
            assert all[i] in gs;
          }
        }
      }
    }
  }

  /** The report, group by group: each group is a union character with a
      non-empty list, every union character with a non-empty list has a
      group, no character has two, and `found` is set exactly when some
      character does. */
  lemma ReportShape(sets: seq<NamedRoster>, db: map<string, Series>, order: seq<string>)
    requires InDb(db, order)
    ensures forall g :: g in MissingReport(sets, db, order) ==>
              (exists i :: 0 <= i < |sets| && g.name in sets[i].chars)
              && |g.entries| > 0 && g.entries == SeriesEntries(sets, db, order, g.name)
    ensures forall x :: (exists i :: 0 <= i < |sets| && x in sets[i].chars) && |SeriesEntries(sets, db, order, x)| > 0 ==>
              exists g :: g in MissingReport(sets, db, order) && g.name == x
    ensures forall i, j :: 0 <= i < j < |MissingReport(sets, db, order)| ==>
              MissingReport(sets, db, order)[i].name != MissingReport(sets, db, order)[j].name
  {
    CharUnionShape(sets);
    GroupsShape(sets, db, order, CharUnion(sets));
  }

  /** The report lists `e` under `c` exactly when `c` belongs to some roster
      and `e` describes a qualifying item. A character that only the
      fallback roster `DefaultChars` holds is never reported. */
  lemma ReportListsExactly(sets: seq<NamedRoster>, db: map<string, Series>, order: seq<string>, c: string, e: MissingEntry)
    requires InDb(db, order)
    ensures (exists g :: g in MissingReport(sets, db, order) && g.name == c && e in g.entries) <==>
            (exists i :: 0 <= i < |sets| && c in sets[i].chars) && (exists k, idx :: ListedAt(sets, db, order, c, k, idx, e))
  {
    ReportShape(sets, db, order);
    SeriesEntriesIff(sets, db, order, c, e);
  }
}
