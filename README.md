# Collectible inventory tracker: a verified model of its core

The program is a single-page app (app.js) for tracking collectible goods.
The user keeps **series** of **items**, such as badges or acrylic stands. Each
item has:

- a **roster** of characters, chosen by name (`charSetName`) from the
  user's rosters (`Store.charSets`);
- an optional list of **targets**, the characters the user wants;
- a **stock** map from character to `{own, trade, infinite}`;
- a **status**: `"comp"`, `"not"` or `"none"` (excluded).

This project models the logic of that app in Dafny and proves what it
promises:

- **`Completion`**: how an item's status is derived from its stock, and the
  series completion mark.
- **`Trade`**: the per-item scan of `Render.itemList`, and the trade-offer
  text built from it (offered list `譲`, wanted list `求`, placeholders
  `なし`/`完遂`, optional prefix and suffix lines). It also covers the
  "missing" chips.
- **`Missing`**: the missing-character report of `Render.missingList`.
  It takes the union of all rosters, then for each character lists every
  `"not"` item that wants it and lacks it, in series order and then item
  order.
- **`SeriesOrder`**: the drag-and-drop reordering of the series list, using
  JavaScript's `indexOf` and `splice` with their negative-index behaviour,
  and the removal of a series id.
- **`Settings`**: the settings panel parsers (rosters `name:a,b,c`,
  templates, presets `name,set,t1|t2`), and the formatters that fill the
  panel. Round trips between the two are proved.
- **`Archive`**: the `Store` object as a class. Its `Actions` change it in
  place: the editor's stock edits, the unboxing counter, saving an item,
  creating, deleting and duplicating, the drop handler, and saving the
  settings.
- **`Persistence`**: which keys `Store.save` writes and `Store.init` reads.
- **`Text`** and **`Inventory`**: helpers. `Text` holds JavaScript's
  `split`, `join`, `trim`, `parseInt` and decimal rendering. `Inventory`
  holds the data model.

JavaScript truthiness is modelled case by case:

- `item.targets || list` falls back to the roster only when `targets` is
  absent, because `[]` is truthy. So targets are `Option<seq<string>>`.
- `autoDetermineStatus` reads `targets || []`. It treats absent and empty
  targets alike, as "no targets", and keeps the stored status.
- `charSetName || "デフォルト"`: an empty name selects the default roster.
  A roster name that is not found falls back to the built-in default list.

An item whose target list is empty keeps its stored status
(app.js:127-128); it is not derived against the whole roster.

## Model

| member | source | states |
|---|---|---|
| `Completion.ExcludedIsSticky` | app.js:126 | an excluded (`"none"`) item stays excluded whatever its stock |
| `Completion.NoTargetsKeepsStatus` | app.js:127-128 | with absent or empty targets the stored status is returned unchanged |
| `Completion.EveryCollectedIff` | app.js:129-133 | the `every` over targets holds iff each target's record (absent read as `{0,0,false}`) is finite with own+trade ≥ 1 |
| `Completion.CompIffAllCollected` | app.js:129-134 | for a non-excluded item with targets, the result is `"comp"` iff every target is collected, and `"not"` otherwise |
| `Completion.IndependentOfPriorStatus` | app.js:129-134 | with targets, the derived status does not depend on the stored one (unless it is `"none"`) |
| `Completion.AutoDetermineIdempotent` | app.js:125-135 | storing the derived status and deriving again gives the same status |
| `Completion.MoreStockKeepsComp` | app.js:129-134 | one more owned unit never breaks a complete item |
| `Completion.OutstandingTargetMeansIncomp` | app.js:129-134 | a single target that is missing or infinite makes a non-excluded item `"not"` |
| `Completion.SeriesIncompleteIff` | app.js:221 | a non-empty series lacks the completion mark iff some item is `"not"` |
| `Inventory.OutstandingIffNotCollected` | app.js:312-313 | the "wanted" test (missing or infinite) is exactly the negation of the "collected" test of app.js:130-132 |
| `Inventory.Lookup` | app.js:295 | a roster name is found iff some roster carries it, and the first one's characters are returned |
| `Trade.ScanItem` | app.js:293-318 | the roster loop computes the own chips, trade lines, offered names, wanted names, infinite chips and both totals as their list definitions give them |
| `Trade.OfferedNamesExact` | app.js:304-307 | a name is offered iff some roster character has trade > 0, rendered as the name plus the count only when it exceeds 1 |
| `Trade.WantedNamesExact` | app.js:311-317 | a name is wanted iff some roster character is a target and is missing or infinite, with `(∞)` iff infinite and the option is on |
| `Trade.OfferedNamesEmptyIff` | app.js:304-307 | nothing is offered iff every roster character has trade 0 |
| `Trade.WantedNamesEmptyIff` | app.js:311-317 | nothing is wanted iff every roster target is collected |
| `Trade.OfferedPlaceholder` | app.js:322 | the offered field is `なし` when nothing is offered, else the names joined with `、` |
| `Trade.WantedPlaceholder` | app.js:322 | the wanted field is `完遂` when nothing is wanted, else the names joined with `、` |
| `Trade.WantedMatchesMissingChips` | app.js:324-331 | the missing chips are the wanted names, one for one and in the same order |
| `Trade.LayoutIsJoin` | app.js:320-322 | the text is its lines joined with newlines: prefix only if non-empty, header, `譲：`, `求：`, suffix only if non-empty |
| `Trade.TradeTextLineStructure` | app.js:320-322 | for line-free inputs, splitting the text at newlines gives exactly those lines back |
| `Trade.NothingRecordedAllWanted` | app.js:297-318 | when every record is absent or `{0,0,false}` (as the editor grid leaves them), every targeted roster character is wanted in roster order and nothing is offered |
| `Trade.FreshItemTradeFields` | app.js:295-322 | an item with only empty records and no target list offers `なし` and wants its whole roster |
| `Trade.ExampleFields` | app.js:304-322 | a concrete item: offered `A2`, wanted `B` |
| `Trade.ExampleTradeText` | app.js:320-322 | a concrete item's full text `Hi\nShow Badge\n譲：A2\n求：B\nBye` |
| `SeriesOrder.IndexOf` | app.js:656-657 | `indexOf` gives -1 iff the id is absent, else the first position holding it |
| `SeriesOrder.IndexOfNoDup` | app.js:656 | in an order without repeats, `indexOf` finds the position of each id |
| `SeriesOrder.SpliceStartValue` | app.js:658-659 | `splice` starts at the index itself when it is within bounds, at the length past the end, at length plus the index for a negative index, and at 0 when that is still negative |
| `SeriesOrder.ReorderShape` | app.js:655-659 | a move cuts the source at its position and reinserts it at the target's old position |
| `SeriesOrder.ReorderMovesSource` | app.js:654-660 | a drop of one listed id onto another gives a permutation with the source where the target stood and every other id in its old relative order |
| `SeriesOrder.ReorderPermutes` | app.js:655-660 | any drop of a listed source, even onto an unlisted target, keeps the same ids and no repeats |
| `SeriesOrder.ReorderStaleSource` | app.js:656-658 | a source id not in the order makes `splice(-1, 1)` cut the last id, which leaves the order |
| `SeriesOrder.WithoutMembers` | app.js:515 | `filter` keeps exactly the other ids |
| `SeriesOrder.WithoutKeepsNoDup` | app.js:515 | `filter` keeps an order free of repeats |
| `SeriesOrder.DeleteFromOrder` | app.js:515 | deleting removes every copy of the id, keeps all others, keeps no-repeats, and changes nothing for an absent id |
| `SeriesOrder.NoDupPrepend` | app.js:506 | `unshift` of a new id keeps the order free of repeats |
| `Missing.CharUnionShape` | app.js:406-407 | the character set has no repeats and holds exactly the characters of some roster |
| `Missing.AddAllExtends` | app.js:407 | adding a roster to the `Set` keeps the earlier characters first, in their order |
| `Missing.AllChars` | app.js:406-407 | the nested `forEach` builds that union |
| `Missing.CollectInSeries` | app.js:412-429 | the item loop collects the entries of one series as specified |
| `Missing.CollectFor` | app.js:410-430 | the series loop collects one character's entries over the whole order |
| `Missing.MissingList` | app.js:402-433 | the report is the union characters with a non-empty list, and `found` says whether there is any |
| `Missing.ItemEntriesIff` | app.js:412-428 | an entry is listed for a series iff some item qualifies, with its series, index, `isInf` and `isOwn` |
| `Missing.SeriesEntriesIff` | app.js:411-430 | an entry is listed for a character iff it is listed at some order position and item index |
| `Missing.ItemEntriesFacts` | app.js:412-429 | within a series, entries carry that series id and strictly rising item indices |
| `Missing.SeriesEntriesOrdered` | app.js:411-430 | entries follow `Store.order`, then the item index |
| `Missing.GroupsShape` | app.js:409-433 | a group exists for exactly the characters with entries, and its entries are theirs |
| `Missing.ReportShape` | app.js:406-433 | every group is a roster character with its non-empty entry list, every such character has a group, and no name repeats |
| `Missing.ReportListsExactly` | app.js:406-430 | `(series, item)` is listed under `c` iff `c` is in some roster and the item qualifies (in its roster, targeted, `"not"`, missing or infinite) |
| `Settings.TrimAllClean` | app.js:670 | `map(c => c.trim())` keeps the length; each result is its part with only leading and trailing whitespace removed, and starts and ends with no whitespace |
| `Settings.NonEmptyMembers` | app.js:673 | `filter(n => n)` keeps exactly the non-empty entries |
| `Settings.PutLookup` | app.js:670 | after `newSets[name] = chars`, `name` finds `chars` and every other name finds what it found before |
| `Settings.PutKeepsDistinct` | app.js:670 | object keys stay distinct |
| `Settings.PutAbsent` | app.js:670 | a new key is appended in insertion order |
| `Settings.ParseCharSets` | app.js:666-672 | the line loop builds the rosters as specified, with the default roster when none parses |
| `Settings.RosterLinesShape` | app.js:666-671 | parsed roster names are distinct and their characters non-empty and trimmed |
| `Settings.RosterCharsClean` | app.js:670 | one roster's characters are non-empty and trimmed |
| `Settings.LastLineWins` | app.js:668-671 | a later line with the same name replaces the earlier roster |
| `Settings.LineWithoutColonIgnored` | app.js:669-670 | a line without `:` adds nothing |
| `Settings.ParsePresets` | app.js:674-680 | the preset loop keeps lines with at least three fields, trimmed, with the targets split at vertical bars |
| `Settings.RosterLineParses` | app.js:866 | a formatted roster line parses back to its name and characters |
| `Settings.RosterLinesOfFormatted` | app.js:866 | the formatted roster lines parse back to the rosters |
| `Settings.CharSetsRoundTrip` | app.js:666-672 | the roster text shown in the panel parses back to the same rosters when names and characters are clean |
| `Settings.TemplatesRoundTrip` | app.js:673 | the template text shown in the panel parses back to the same list |
| `Settings.PresetLineParses` | app.js:871 | a formatted preset line parses back to its preset |
| `Settings.PresetLinesOfFormatted` | app.js:871 | the formatted preset lines parse back to the presets |
| `Settings.PresetsRoundTrip` | app.js:674-680 | the preset text shown in the panel parses back to the same presets when the fields are clean and the targets non-empty |
| `Settings.EmptyTargetsComeBackBlank` | app.js:677-678 | a preset with no targets comes back with one blank target, because splitting an empty string gives one empty part |
| `Text.JoinSplit` | app.js:666 | joining the parts of `split` with the separator gives the text back |
| `Text.SplitJoin` | app.js:866 | splitting a join of separator-free parts gives the parts back |
| `Text.TrimShape` | app.js:670 | `trim` strips only leading and trailing whitespace and leaves none at either end |
| `Text.TrimIdempotent` | app.js:493 | trimming twice is trimming once |
| `Text.NatToStringRoundTrip` | app.js:306 | a count is rendered as decimal digits that read back as the count |
| `Text.DigitPrefix` | app.js:593 | `parseInt` reads the longest run of digits and stops at the first non-digit |
| `Text.ParseIntOfNatString` | app.js:593 | `parseInt` of a rendered count gives the count back |
| `Text.ParseIntOfNegative` | app.js:593-594 | `parseInt` of `-n` gives the negative number |
| `Text.ParseIntOfEmpty` | app.js:593-594 | `parseInt` of an empty box is NaN |
| `Archive.SetField` | app.js:588 | a stock edit changes only the addressed field of the addressed character |
| `Archive.Toggled` | app.js:600 | a toggle flips only `infinite` of the addressed character |
| `Archive.StepUpThenDown` | app.js:588 | `+` then `-` restores the count; `-` then `+` does too unless the clamp at 0 was hit |
| `Archive.RetypingShownCountChangesNothing` | app.js:592-595 | entering the displayed count again leaves the stock unchanged |
| `Archive.NegativeInputStoresZero` | app.js:593-595 | a negative entry stores 0 |
| `Archive.ToggleTwice` | app.js:600 | toggling twice restores the record |
| `Archive.FillRecords` | app.js:365-366 | the grid gives each roster character without a record an empty one and leaves the others alone |
| `Archive.FillRecordsIdle` | app.js:365-366 | once every roster character has a record, rendering the grid changes nothing |
| `Archive.IncrementOwnAllShape` | app.js:615-618 | "+1 to all" creates the missing records and adds to each character's `own` the number of times it is listed, leaving everything else |
| `Archive.IncrementEach` | app.js:615-618 | the `forEach` computes "+1 to all" |
| `Archive.IncrementAllCompletes` | app.js:615-618 | after "+1 to all", an item whose finite targets are all on the roster derives `"comp"` |
| `Archive.ResetMakesIncomp` | app.js:625 | after a reset, a non-excluded item with targets derives `"not"` |
| `Archive.Derived` | app.js:539 | the stored status is the derived one, and deriving again changes nothing |
| `Archive.UnboxNoticeAccurate` | app.js:635-637 | the toast says "complete" iff the item became complete, "back to incomplete" iff a complete item became `"not"`, and nothing iff the status stayed |
| `Archive.UnboxUpKeepsComp` | app.js:633-636 | counting up never breaks a complete item |
| `Archive.UnboxDownToNothingReverts` | app.js:633-636 | counting a target down to nothing makes the item `"not"` |
| `Archive.DuplicateLikeOriginal` | app.js:573-580 | the copy resolves to the same roster and targets, has no stock, and its `"not"` is the status its stock derives |
| `Archive.TemplateItems` | app.js:498 | a new series gets one item per template, in template order |
| `Archive.TemplateItemConsistent` | app.js:498 | a template item's `"not"` is the status its empty stock derives |
| `Archive.Store.constructor` | app.js:90-99 | a first launch starts from the defaults, and the store is valid |
| `Archive.Store.FillEditorRecords` | app.js:362-366 | the grid's record filling, after which every roster character has a record |
| `Archive.Store.UpdateQty` | app.js:587-590 | the count becomes max(0, old + delta), then the grid fills records; nothing else changes |
| `Archive.Store.DirectInputQty` | app.js:592-597 | the count becomes `parseInt` of the text, with 0 for NaN or negative, then the grid fills records |
| `Archive.Store.ToggleInfinite` | app.js:599-602 | `infinite` flips, then the grid fills records |
| `Archive.Store.BulkIncrementOwn` | app.js:614-621 | every roster character owns one more, records created first |
| `Archive.Store.BulkResetCounts` | app.js:623-629 | on confirmation every record becomes `{0,0,false}` and none is removed, otherwise nothing changes |
| `Archive.Store.SaveItem` | app.js:528-553 | a non-blank type stores the item with its derived status, appended or in place, and records it as the last item; a blank type changes nothing |
| `Archive.Store.UpdateUnboxingCount` | app.js:631-642 | the open item gets the clamped count and its derived status, and the notice reports the change |
| `Archive.Store.SaveSeriesModal` | app.js:492-510 | a non-blank title adds the series with its template items, prepends its id and opens it; a fresh id keeps the store valid |
| `Archive.Store.DeleteSeries` | app.js:512-519 | on confirmation the id leaves both the map and the order, otherwise nothing changes; validity is kept |
| `Archive.Store.DuplicateItem` | app.js:571-585 | the copy is appended when the item has a target list; otherwise the call fails and nothing changes |
| `Archive.Store.HandleDragStart` | app.js:644-648 | the drag source is recorded only in custom sort mode |
| `Archive.Store.HandleDrop` | app.js:652-663 | with no source, or a drop on itself, nothing changes; otherwise the order is the move, and stays valid when the source is listed |
| `Archive.Store.MissingList` | app.js:402-433 | in a valid store every listed id is stored, the result is the report over the store's rosters, series and order, and each character's list runs in series order and then item order |
| `Archive.Store.SaveSettings` | app.js:665-686 | the rosters, templates, presets and trade options become what the panel's text parses to, and the store stays valid |
| `Persistence.Load` | app.js:89-100 | each of the eight keys gives its stored value when one is stored, and its default (empty collection, default rosters, default templates, default trade options, newest-first sort, no last item) otherwise |
| `Persistence.SaveAsWritten` | app.js:102-109 | as written, what a reload finds is the saved store except the templates (and the last item), which are whatever was stored before |
| `Persistence.Save` | app.js:102-109 | with the templates' key written, a reload finds the saved store, and after `saveLastItem` exactly it |
| `Persistence.TemplateEditLostOnReload` | app.js:673 | a template edit on a first launch is gone after the reload |
| `Persistence.SettingsSurviveReload` | app.js:665-687 | with that save, the settings entered are the ones in force after the reload, and the collection is kept |

## Left out

- IndexedDB and its asynchrony (app.js:8-49) are not modelled. Persistence
  appears only as the key-to-field mapping in `Persistence`; each `Action`'s
  `await Store.save()` is not modelled.
- sw.js (service-worker caching) is not part of this model.
- DOM building, swipe gestures, long-press timers, toasts, `history`
  handling and `location.reload` are not modelled. Only their logic is
  kept, for example the toast text of the unboxing counter.
- `getSelectedTargets` reads checkboxes. It is a parameter of `SaveItem`.
  The target list passed to `editorGrid` only styles rows, so it is not
  modelled.
- `confirm` answers, `Date.now()` ids and form field values are parameters.
- Backup export and import (app.js:690-723), the clipboard (app.js:725-727),
  and search, filtering and sorting of the series list (app.js:193-217) are
  not modelled. They rely on files, `JSON`, `localeCompare` and the order of
  JavaScript's sort.
- `toggleFavorite`, `deleteItem` and `deleteAllItems` are not modelled.
  Opening the editor from an item, the last item or a preset is not
  modelled either. All of these are UI wiring around the modelled edits.
- `Archive.Store.SaveItem`: stores the editor's map as a value. In the
  source the item and `Store.tempStocks` share one object afterwards; that
  aliasing is not modelled.
- `Inventory.StockOf`, `Inventory.Lookup`, `Inventory.RosterOf`: a
  character or roster name that coincides with an `Object.prototype`
  member (`constructor`, `toString`, ...) is modelled as an absent key.
  In the source such a lookup finds the inherited function. The trade text
  then does not list the character as wanted and the totals become NaN
  (app.js:298-316). The missing chip is still shown (app.js:326-329), so
  `Trade.WantedMatchesMissingChips` does not hold for such a name. The
  editor makes no zero record for it (app.js:366), the status counts it
  as not collected (app.js:130-132) while the missing report does not
  list it (app.js:416-418). An item whose `charSetName` is such a name,
  with no stored roster of that name, gets the inherited function as its
  list, and `list.forEach` throws (app.js:295-297). A settings line named
  `__proto__` (app.js:670) replaces the object's prototype instead of
  adding a roster; the model adds a roster named `__proto__`.
- `Text.ParseInt`: does not model the `0x` prefix. Without a radix,
  `parseInt` reads `0x1A` as 26 where the model gives 0.
- `Archive.Store.DirectInputQty`: counts are unbounded naturals. JavaScript
  numbers lose integer precision above 2^53.
- `Settings.ParseCharSets`: rosters are kept in insertion order.
  JavaScript enumerates integer-like object keys (such as `"1"`) first.
- `Archive.Store.HandleDrop`: validity is promised only when the drag
  source is in the order. A stale source cuts the last id (see
  `SeriesOrder.ReorderStaleSource`) and inserts an id with no stored
  series. The series list skips that id (app.js:204-205), so the series
  that was cut disappears from view, and `Render.missingList` then throws
  reading the missing series (app.js:412). `Archive.Store.MissingList`
  requires a valid store, so it does not describe that state.
- `Trade.TradeText`: models `copyStr` as built (app.js:320-322). The copy
  button pastes it unescaped into a template literal inside an `onclick`
  attribute (app.js:339), so a `"`, a backtick, a `\`, a `${` or an HTML
  character reference in a title, type, roster name, prefix or suffix
  changes or breaks the text that reaches the clipboard. That
  HTML-and-script round trip is not modelled.
- `Archive.Store.SaveSeriesModal`: validity is promised only for an id that
  is not stored yet. Two series created in the same millisecond share an id.
- `Archive.Store.DuplicateItem`: the source throws on an item without a
  target list (`JSON.parse(undefined)`). This is modelled as a failed call
  that changes nothing.

## Findings

| source | as written | input that shows it | evidently intended | confidence | as-written member | corrected member |
|---|---|---|---|---|---|---|
| app.js:102-109 | `Store.save` writes six keys but never the templates' key, which `Store.init` reads (app.js:94). `saveSettings` (app.js:673, 686-687) saves and then reloads, so edited templates are lost. | First launch; change the template list to `缶バッジ` and save: after the reload the three default templates are back | `Store.save` also writes the templates' key, as `exportBackup` does | not executed | `Persistence.SaveAsWritten` | `Persistence.Save` |
