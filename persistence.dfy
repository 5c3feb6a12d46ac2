// What `Store.save` (app.js:102-109), `Store.saveLastItem` (app.js:111-113)
// and `Store.init` (app.js:89-100) do with the stored keys, with IndexedDB
// as a record of optional values. `saveSettings` (app.js:665-688) saves and
// then reloads the page, so what it set survives only if a save wrote it
// and the next `init` reads it back.

module Persistence {
  import opened Inventory
  import opened Archive

  /** The value stored under each key; `None` is a key never written. */
  datatype Disk = Disk(
    db: Option<map<string, Series>>,
    order: Option<seq<string>>,
    sets: Option<seq<NamedRoster>>,
    templates: Option<seq<string>>,
    presets: Option<seq<Preset>>,
    trade: Option<TradeConfig>,
    sort: Option<SortMode>,
    lastItem: Option<Option<LastItem>>)

  const Blank: Disk := Disk(None, None, None, None, None, None, None, None)

  /** `Store.init`: every key read with `|| default`. A stored object, array
      or sort mode is never falsy, so only a missing key takes the default;
      a stored `null` last item stays `null`. */
  function Load(d: Disk): (s: Saved)
    ensures d.db.Some? ==> s.db == d.db.value
    ensures d.db.None? ==> s.db == map[]
    ensures d.order.Some? ==> s.order == d.order.value
    ensures d.order.None? ==> s.order == []
    ensures d.sets.Some? ==> s.charSets == d.sets.value
    ensures d.sets.None? ==> s.charSets == DefaultCharSets
    ensures d.templates.Some? ==> s.templates == d.templates.value
    ensures d.templates.None? ==> s.templates == DefaultTemplates
    ensures d.presets.Some? ==> s.presets == d.presets.value
    ensures d.presets.None? ==> s.presets == []
    ensures d.trade.Some? ==> s.tradeConfig == d.trade.value
    ensures d.trade.None? ==> s.tradeConfig == DefaultTradeConfig
    ensures d.sort.Some? ==> s.sortMode == d.sort.value
    ensures d.sort.None? ==> s.sortMode == New
    ensures d.lastItem.Some? ==> s.lastItem == d.lastItem.value
    ensures d.lastItem.None? ==> s.lastItem == None
    ensures d == Blank ==> s == Saved(map[], [], DefaultCharSets, DefaultTemplates, [], DefaultTradeConfig, New, None)
  {
    Saved(d.db.GetOr(map[]), d.order.GetOr([]), d.sets.GetOr(DefaultCharSets),
          d.templates.GetOr(DefaultTemplates), d.presets.GetOr([]),
          d.trade.GetOr(DefaultTradeConfig), d.sort.GetOr(New), d.lastItem.GetOr(None))
  }

  /** `Store.save` as written: six keys, and not the templates' key. */
  function SaveAsWritten(s: Saved, d: Disk): (r: Disk)
    ensures Load(r) == s.(templates := Load(d).templates, lastItem := Load(d).lastItem)
  {
    d.(db := Some(s.db), order := Some(s.order), sets := Some(s.charSets),
       trade := Some(s.tradeConfig), sort := Some(s.sortMode), presets := Some(s.presets))
  }

  /** `Store.save` writing the templates' key too, which `init` reads and
      `exportBackup` (app.js:690-704) includes. */
  function Save(s: Saved, d: Disk): (r: Disk)
    ensures Load(r) == s.(lastItem := Load(d).lastItem)
    ensures Load(SaveLastItem(s, r)) == s
  {
    SaveAsWritten(s, d).(templates := Some(s.templates))
  }

  /** `Store.saveLastItem`. */
  function SaveLastItem(s: Saved, d: Disk): Disk
  {
    d.(lastItem := Some(s.lastItem))
  }

  /** The settings panel on a first launch: the template list is changed to
      one name, saved, and the reload brings back the three defaults. */
  lemma TemplateEditLostOnReload()
    ensures var edited := Load(Blank).(templates := ["缶バッジ"]);
            Load(SaveAsWritten(edited, Blank)).templates == DefaultTemplates
            && Load(SaveAsWritten(edited, Blank)) != edited
  {
    var edited := Load(Blank).(templates := ["缶バッジ"]);
    assert Load(SaveAsWritten(edited, Blank)).templates == DefaultTemplates;
    assert |DefaultTemplates| == 3;
  }

  /** After `saveSettings` (corrected save, then reload) the settings the
      user entered are the ones in force, and the collection is kept. */
  lemma SettingsSurviveReload(s: Saved, d: Disk, charSets: seq<NamedRoster>, templates: seq<string>,
                              presets: seq<Preset>, tc: TradeConfig)
    ensures var after := Load(Save(s.(charSets := charSets, templates := templates, presets := presets, tradeConfig := tc), d));
            after.charSets == charSets && after.templates == templates && after.presets == presets
            && after.tradeConfig == tc && after.db == s.db && after.order == s.order
  {
  }
}
