# PySol menubar bookkeeping, modelled in Dafny

This project models the menu bookkeeping inside PySolFC's Tk menubar
(`pysollib/tk/menubar.py`). A Tk menu becomes a list of entries, each with a
kind, a label, an underline, an enable state, a column-break flag, a radio
value and the submenu it leads to. Four modules model it:

- `Labels` (labels.dfy) covers `MfxMenubar.labeltoname`. A raw label such as
  `&Open...` becomes a path component (`open`), the label shown (`Open...`)
  and the index of the underlined mnemonic (0). The regular expression
  `^(.*)&([^&].*)$` is modelled with Python's `re.search` semantics.
- `Games` (games.dfy) covers the game lists behind the menus, all as values:
  - `filter` and `_getNumGames`;
  - the plan of submenus and separators that `_addSelectGameSubMenu` follows;
  - the Mahjongg grouping by initial, with its greedy coalescing loop;
  - the "All games by name" pages;
  - the recent and favourite game lookups;
  - adding and removing a favourite;
  - sorting by name;
  - the table-tile cycle.
- `TkMenubar` (menubar.dfy) covers the stateful part:
  - class `Menu` is `MfxMenubar`/`MfxMenu`. It holds the entry counter `n` and
    the entries, and reports labelled entries to the registry.
  - class `PysolMenubar` holds the path registry `__menupath`, the block size
    `__cb_max`, the favourites list and the table-tile option. Its methods
    build the game submenus and update the enable states of the registered
    entries.
- `Wrappers` (wrappers.dfy) holds the `Option` type.

The registry can hand out the same menu object under several paths. So every
state update is described as a list of `entryconfig` calls (`Change`s), and
`Apply` gives the entries of any menu after them. The methods' contracts say
that every registered menu ends up as `Apply` of its old entries. Separate
lemmas then state what each entry ends up as.

Where the source raises an exception (an unregistered path, a missing
submenu, a Mahjongg game whose short name is blank), the model returns
`ok == false` or `None`. In each case the state is whatever the source had
reached before the exception.

For a label such as `R&&D`, a natural reading is that a doubled ampersand
means no mnemonic. The code does otherwise: its greedy first group splits at
the last `&` that is followed by something other than `&`. So `R&&D` is shown
as `R&D` with the `D` (index 2) underlined. The model follows the code
(`Labels.DoubledMarkerExample`).

## Model

| member | source | states |
|---|---|---|
| Labels.PathName | pysollib/tk/menubar.py:147 | The name is never longer than the label and holds only `[0-9a-z]`. |
| Labels.ToLower | pysollib/tk/menubar.py:147 | `.lower()` moves `A-Z` up by 32 to `a-z` and keeps every other character. |
| Labels.PathNameSingle | pysollib/tk/menubar.py:147 | A single character becomes itself lower-cased when it is in `[0-9a-zA-Z]`, and nothing otherwise. With `PathNameAppend` this fixes the name of every label. |
| Labels.PathNameOfAlnum | pysollib/tk/menubar.py:147 | A label made only of `[0-9a-zA-Z]` keeps every character, in order, lower-cased. |
| Labels.PathNameAppend | pysollib/tk/menubar.py:147 | The path name of a concatenation is the concatenation of the path names. |
| Labels.PathNameIdempotent | pysollib/tk/menubar.py:147 | Deriving a path name from a path name changes nothing. |
| Labels.UnescapeEscape | pysollib/tk/menubar.py:153-154 | Collapsing `&&` undoes doubling every `&`. |
| Labels.FindSplit | pysollib/tk/menubar.py:150 | The split found is a match position of the pattern with none after it; None means the pattern does not match. |
| Labels.LabelToName | pysollib/tk/menubar.py:145-157 | The name returned is `PathName` of the raw label: non-alphanumerics removed and the rest lower-cased, as `PathNameSingle` and `PathNameAppend` state. |
| Labels.LabelWithoutMnemonic | pysollib/tk/menubar.py:149-157 | Without a match the label is returned unchanged with underline -1. |
| Labels.LabelWithMnemonic | pysollib/tk/menubar.py:150-156 | With a match, the split is at the last matching `&`. The label shown is both halves with `&&` collapsed. The underline is the length of the collapsed prefix and falls on the character after the marker. |
| Labels.UnderlineInRange | pysollib/tk/menubar.py:149-156 | The underline is -1 or the index of a non-`&` character of the label shown. |
| Labels.PlainLabel | pysollib/tk/menubar.py:149-157 | A label without `&` is shown unchanged with underline -1. |
| Labels.LeadingMarker | pysollib/tk/menubar.py:150-156 | A one-line label whose only `&` leads it loses the `&`, and its first character is underlined. |
| Labels.OpenExample | pysollib/tk/menubar.py:145-157 | `&Open...` gives name `open`, label `Open...` and underline 0. |
| Labels.DoubledMarkerExample | pysollib/tk/menubar.py:150-156 | `R&&D` gives name `rd`, label `R&D` and underline 2. |
| Games.Filter | pysollib/tk/menubar.py:658 | `filter` keeps exactly the games that pass the test, and none extra. |
| Games.NumGames | pysollib/tk/menubar.py:667-671 | `_getNumGames` is 0 exactly when no selector picks any game. |
| Games.SpecialMenuShownIff | pysollib/tk/menubar.py:737-743 | With the intended test, "Special games" appears exactly when some special selector picks a game. |
| Games.SpecialMenuCounterexample | pysollib/tk/menubar.py:738 | As written, a list with one special game and no oriental game gets no "Special games" submenu. |
| Games.SelectPlanSubmenus | pysollib/tk/menubar.py:650-665 | The submenus added are exactly the titled selectors that pick some game, in table order, each with the games it picks. |
| Games.SelectPlanSeparators | pysollib/tk/menubar.py:653-665 | No submenu added is empty. Every separator is followed at once by a submenu, so none is last and no two are adjacent. |
| Games.SelectPlanAt | pysollib/tk/menubar.py:653-665 | Around the submenu of each picking selector come the items of the selectors before it, then a separator exactly when a None entry precedes it with no picking selector in between (or one was owed on entry and none picked), then the items of the selectors after it. |
| Games.PendingIff | pysollib/tk/menubar.py:653-663 | After the loop has gone through some selectors, `need_sep` is set exactly when a separator is owed in that sense. |
| Games.SelectPlanAppend | pysollib/tk/menubar.py:653-665 | The items for a table in two parts are those of the first part followed by those of the second, started with the first part's `need_sep`. |
| Games.SelectPlanEmpty | pysollib/tk/menubar.py:653-665 | When no selector picks a game nothing is added, so a trailing None entry adds no separator. |
| Games.Initial | pysollib/tk/menubar.py:694 | `strip()[0]` is the first non-space character; None exactly when the name is blank, where the source raises. |
| Games.SortedItems | pysollib/tk/menubar.py:699-700 | `sorted(d.items())` lists each key once with its list, keys strictly increasing. |
| Games.GroupByInitial | pysollib/tk/menubar.py:692-700 | The result is None exactly when some short name is blank. Otherwise each initial gets one group with its games in input order, initials increasing, and every game is filed. |
| Games.GroupingKeepsGames | pysollib/tk/menubar.py:692-700 | The groups hold exactly the games grouped. |
| Games.CoalesceShape | pysollib/tk/menubar.py:700-711 | The blocks cover the groups in order without splitting one. A block of two or more groups has fewer than `cb_max` games. Every block but the last was closed because the next group would have reached `cb_max`. |
| Games.CoalesceGroups | pysollib/tk/menubar.py:700-711 | The greedy loop with `g0`/`c0`/`c1` emits exactly the blocks of that coalescing, labelled `c0 - c1` or `c0`, with empty blocks dropped. |
| Games.MahjonggBlocksCover | pysollib/tk/menubar.py:681-711 | The Mahjongg submenus list every grouped game once, in group order, and none is empty. |
| Games.PaginateShape | pysollib/tk/menubar.py:745-762 | Every page holds `d` games except the last, which holds 1 to `d`. It is titled by the first three letters of its first and last names. Page k breaks the column exactly when k > 0 and k mod d = 0. |
| Games.PaginateCover | pysollib/tk/menubar.py:747-760 | The pages list every game once, in order, and there are ceil(N/d) of them. |
| Games.KnownGames | pysollib/tk/menubar.py:841-845 | The games looked up are exactly those of the ids the database knows. |
| Games.KnownGamesAllKnown | pysollib/tk/menubar.py:841-845 | When every id is known, the lookup gives one game per id, in order. |
| Games.LookupGames | pysollib/tk/menubar.py:841-845 | The lookup loop computes `KnownGames`. |
| Games.AddFavorite | pysollib/tk/menubar.py:954-955 | After adding, the id is a favourite and the list holds the old ids and it. A new id goes at the end, with the old list unchanged before it. |
| Games.AddFavoriteNoDup | pysollib/tk/menubar.py:954-955 | Adding keeps the list free of duplicates, and adding a present id changes nothing. |
| Games.RemoveFavoriteSpec | pysollib/tk/menubar.py:960-961 | Removing cuts out the first occurrence of the id, the favourites before and after it keeping their order. It drops exactly that one occurrence, leaves the id absent and keeps the list free of duplicates. An id that is not a favourite changes nothing. |
| Games.RemoveFirstSplit | pysollib/tk/menubar.py:961 | `list.remove` removes the first occurrence of the id and keeps the rest of the list in order. |
| Games.RemoveAfterAdd | pysollib/tk/menubar.py:952-962 | Removing a favourite that was just added restores the list. |
| Games.SortByNameSorted | pysollib/tk/menubar.py:847 | Sorting by name orders the games by name. |
| Games.SortByNamePermutes | pysollib/tk/menubar.py:847 | Sorting by name keeps every game as often as it occurs. |
| Games.SortByNameStable | pysollib/tk/menubar.py:847 | The sort is stable, as Python's `list.sort` is: the games of any one name come out in their input order. |
| Games.InsertByNameStable | pysollib/tk/menubar.py:847 | One insertion step places the new game after every game already there under the same name. |
| Games.NextTile | pysollib/tk/menubar.py:1165 | `(cur + 1) % n` is the next tile, wrapping from the last to 0. |
| Games.AfterChangesWrap | pysollib/tk/menubar.py:1165 | After k ≤ n changes the tile is cur + k, less n once that passes the end. |
| Games.TileCycle | pysollib/tk/menubar.py:1161-1167 | n changes come back to the start, and every tile is shown on the way. |
| TkMenubar.EnabledState | pysollib/tk/menubar.py:333-336 | The state is "normal" exactly when enabled and "disabled" exactly when not. |
| TkMenubar.EntryName | pysollib/tk/menubar.py:160-172 | An entry is registered exactly when it has a label and its name is non-empty, the name being the given one or else the one `labeltoname` derives. A given name is used as it is. A label with no name and a non-empty derived name is always registered under `PathName` of the label. |
| TkMenubar.NamedEntry | pysollib/tk/menubar.py:160-170 | A supplied name, or a missing label, suppresses `labeltoname`: the entry keeps the given label and underline. |
| TkMenubar.PlainLabelEntry | pysollib/tk/menubar.py:160-170 | An entry whose label has no `&` shows the label unchanged, with the caller's underline or else -1. |
| TkMenubar.MnemonicEntry | pysollib/tk/menubar.py:167-170 | An explicit underline wins. Otherwise the entry underlines the character that followed the marker. |
| TkMenubar.Register | pysollib/tk/menubar.py:328-331 | A path is stored only when absent. Existing paths and their triples are never changed. |
| TkMenubar.RegisterFirstWins | pysollib/tk/menubar.py:328-331 | Registering a path a second time leaves the first triple. |
| TkMenubar.Menu.Toplevel | pysollib/tk/menubar.py:139-143 | A new menubar starts with no entries, none added yet, and its counter at the tear-off offset. |
| TkMenubar.Menu.Sub | pysollib/tk/menubar.py:178-189 | `MfxMenu` adds one cascade entry to its master, named after its label unless a name is given, with the derived underline unless one is given. |
| TkMenubar.Menu.Add | pysollib/tk/menubar.py:159-175 | `add` appends the entry and advances `n` by exactly 1 for every item type. A labelled entry whose name (given, or derived from the label) is non-empty is registered under `widgetpath.name` with the old `n` as its index, when the menu's widget path is known (see "## Left out"). A newly registered index is the tear-off offset plus the number of entries added before it. While no entry has been deleted, it is also the position of the new entry. |
| TkMenubar.Menu.DeleteAll | pysollib/tk/menubar.py:839 | `delete(0, "last")` leaves no entries. |
| TkMenubar.RadioEntriesShape | pysollib/tk/menubar.py:769-778 | There is one radio button per game, in input order, valued by the game's id. A label without `&` is shown as it is. A column break falls exactly at i > 0 with i mod cb = 0. |
| TkMenubar.MenuStateEffect | pysollib/tk/menubar.py:924-930 | `setMenuState` succeeds exactly when `.menubar.path` is registered. That entry gets the asked state, and every other entry is unchanged. |
| TkMenubar.BookmarkUnregistered | pysollib/tk/menubar.py:883-887 | With any of the three bookmark paths unregistered, nothing changes. |
| TkMenubar.BookmarkSetEntry | pysollib/tk/menubar.py:890-892 | Each of the nine "Set bookmark" entries is enabled exactly when x holds. |
| TkMenubar.BookmarkSetCascade | pysollib/tk/menubar.py:893 | The "Set bookmark" cascade is enabled exactly when x holds. |
| TkMenubar.BookmarkGotoEntry | pysollib/tk/menubar.py:895-899 | "Goto bookmark" entry i is enabled exactly when bookmark i exists and x holds. |
| TkMenubar.BookmarkGotoAndClear | pysollib/tk/menubar.py:896-904 | The "Goto bookmark" cascade and "Clear bookmarks" are enabled exactly when some bookmark 0..8 exists and x holds. |
| TkMenubar.BookmarkElsewhere | pysollib/tk/menubar.py:881-904 | A menu holding none of the bookmark entries is left unchanged. |
| TkMenubar.FavoriteStates | pysollib/tk/menubar.py:855-860 | "Add to favorites" ends up enabled exactly when the game is not a favourite, and "Remove from favorites" exactly when it is. |
| TkMenubar.PysolMenubar.constructor | pysollib/tk/menubar.py:204 | `__cb_max` is the screen height divided by 23, and the registry starts empty. |
| TkMenubar.PysolMenubar.AddPath | pysollib/tk/menubar.py:328-331 | `_addPath` updates the registry as `Register` does: first registration wins. |
| TkMenubar.PysolMenubar.AddSelectGameSubSubMenu | pysollib/tk/menubar.py:764-778 | The menu gains exactly the radio buttons for the games, a column every `cb_max`, and its counter advances by their number. |
| TkMenubar.PysolMenubar.AddSelectGameSubMenu | pysollib/tk/menubar.py:650-665 | The menu gains exactly the plan's separators and submenus, each submenu filled with its games. The entries already there are kept. |
| TkMenubar.PysolMenubar.AddSelectMahjonggGameSubMenu | pysollib/tk/menubar.py:673-711 | With no Mahjongg game nothing is added. Otherwise one "Mahjongg games" cascade is added. It holds one submenu per coalesced block of the grouping, listing short names, and it stays empty where a blank short name raises. |
| TkMenubar.PysolMenubar.AddSelectAllGameSubMenu | pysollib/tk/menubar.py:745-762 | One "All games by name" cascade is added. It holds one submenu per page of `cb_max` games, with the page titles and column breaks of the pagination. |
| TkMenubar.PysolMenubar.AddPages | pysollib/tk/menubar.py:747-762 | The loop with counters `n` and `i` lists exactly the pages of the pagination. |
| TkMenubar.PysolMenubar.SetMenuState | pysollib/tk/menubar.py:924-930 | Every registered menu ends up as the one `entryconfig` of `setMenuState` leaves it; `ok` is false exactly where the lookup fails. |
| TkMenubar.PysolMenubar.ApplyChanges | pysollib/tk/menubar.py:890-904 | A sequence of `entryconfig` calls leaves every registered menu as `Apply` says, with counters untouched. |
| TkMenubar.PysolMenubar.UpdateBookmarkMenuState | pysollib/tk/menubar.py:881-904 | Every registered menu ends up as the bookmark update leaves it, with x = option ∧ canSetBookmark. |
| TkMenubar.PysolMenubar.UpdateRecentGamesMenu | pysollib/tk/menubar.py:863-879 | The "Recent games" submenu is refilled with one radio button per known id, in order, unknown ids skipped. The column length is 25, or `cb_max` past 100 ids. No other menu changes, and nothing changes when the path or submenu is missing. |
| TkMenubar.PysolMenubar.FillRecentGames | pysollib/tk/menubar.py:868-879 | The loop adds a radio button for each known id; `i` counts only known ids. |
| TkMenubar.PysolMenubar.RebuildFavorites | pysollib/tk/menubar.py:838-854 | The favourites submenu is emptied and refilled. Past 4·`cb_max` known games it gets one "All games by name" cascade whose pages list the games sorted by name; otherwise one radio button per game. |
| TkMenubar.PysolMenubar.UpdateFavoriteGamesMenu | pysollib/tk/menubar.py:835-860 | The favourites submenu is rebuilt, then "Add to favorites" and "Remove from favorites" get their states. No other menu changes; nothing changes without the submenu. |
| TkMenubar.PysolMenubar.MAddFavor | pysollib/tk/menubar.py:952-956 | The id is appended only when absent, and the menu is updated exactly then. |
| TkMenubar.PysolMenubar.MDelFavor | pysollib/tk/menubar.py:958-962 | The id is removed only when present, and the menu is updated exactly then. |
| TkMenubar.PysolMenubar.MOptChangeTableTile | pysollib/tk/menubar.py:1161-1167 | With at least two tiles and no drag being cancelled, the next tile `(cur + 1) % n` is asked for. The option changes to it exactly when `setTile` accepts it. |

## Left out

- Tk itself is not modelled: the widgets, their drawing, how column breaks are
  rendered, and `top.config`. A menu is only its list of entries, and the
  tear-off line is only an index offset.
- Line 762 calls `entryconfigure(i, ...)` with `i` already one past the cascade
  just added. Tk treats a numeric index past the end as the last entry, so the
  model sets the column break on that cascade. Tk's general index rules are
  not modelled.
- Names are modelled as sequences of characters. The source is Python 2, and
  `strip()[0]` (line 694) and `[:3]` (line 756) act on whatever `_` returns
  (line 64 binds `gettext = _`, and `_` is installed outside this file). If
  `_` yields byte strings, the initial or page-title prefix of a non-ASCII
  name can be a partial character. If it yields unicode strings, the slices
  act on code points, as the model does. The byte-string case is not
  modelled.
- Translation (`gettext`) is the identity. The screen height is a parameter of
  the constructor.
- `PysolMenubar.constructor`: requires a screen at least 23 pixels high. On a
  smaller screen `__cb_max` is 0, and every `i % cb` of the builders raises
  ZeroDivisionError.
- Path registration while the menubar is being created is left out (the hook
  is set at line 347 and cleared at line 518). The model runs every game-menu
  builder with the hook cleared. In the source, that holds only for the
  favourites and recent-games rebuilds after startup. The Select menu is built
  at line 387 with the hook set, and the registrations it makes then belong to
  the startup registration left out here. `Menu.Add` models the registration
  itself.
- `TkMenubar.Menu.Add`: entries of a menu whose widget name Tk picks are not
  registered. That covers `name=None` at lines 688 and 757, and a label with
  no letter or digit, whose derived name is empty. The model gives such a
  menu no path (`ChildPath` returns None). The source registers those entries
  under a `repr(id(...))` component. That key depends on the object's
  address, so no lookup in the source can name it.
- Only the calls that touch the model are kept. Command callbacks, the
  `variable` of radio buttons, and progress-bar updates are not
  modelled.
- `app.getGameInfo` is the map `db`. `game.canSetBookmark()`, the bookmarks
  option, the bookmark slots in use and the current game id are parameters.
  `_cancelDrag` is the flag `busy`, and `app.setTile` is the test `accepts`.
- `TkMenubar.PysolMenubar.UpdateFavoriteGamesMenu`: its contract carries only
  the entries of the favourites submenu itself into the final state
  (`FavoritesTop`). The pages under the "All games by name" cascade are stated
  at the rebuild, by `TkMenubar.PysolMenubar.RebuildFavorites`.
- `TkMenubar.PysolMenubar.MAddFavor` and `TkMenubar.PysolMenubar.MDelFavor`
  use the same contract, so they are weaker in the same way.
- `TkMenubar.PysolMenubar.AddSelectGameSubMenu` and its helpers require that
  the menu is not one of its own submenus. Tk cannot create such a menu, and
  the model needs the fact to keep the listing's submenus apart from the menu
  being extended.
- The per-entry bookmark lemmas (`TkMenubar.BookmarkSetEntry`,
  `TkMenubar.BookmarkSetCascade`, `TkMenubar.BookmarkGotoEntry`,
  `TkMenubar.BookmarkGotoAndClear`) assume the Edit menu's layout
  (`BookmarkLayout`): two distinct submenus and three distinct entries. Under
  any other aliasing, the outcome is still given by `Apply` in
  `UpdateBookmarkMenuState`'s contract.
- `TkMenubar.FavoriteStates` likewise assumes the two favourites entries are
  distinct.
- The wrappers `_addSelectPopularGameSubMenu`, `_addSelectFrenchGameSubMenu`,
  `_addSelectOrientalGameSubMenu` and `_addSelectSpecialGameSubMenu` are not
  modelled as members of their own. They only compose modelled operations
  with selector tables from the game database, which is not part of this
  model:
  - `_addSelectPopularGameSubMenu` (lines 713-720) returns when `filter` finds
    no popular game. Otherwise it calls `_addSelectGameSubMenu` straight on
    `menu` with a one-row table ("&Popular games" and the popular test).
  - The French, Oriental and Special wrappers (lines 722-744) return when
    `_getNumGames` of a table is 0. Otherwise they first create a titled
    `MfxMenu` cascade ("&French games", "&Oriental games", "&Special games")
    and call `_addSelectGameSubMenu` on it with their table. The Special
    wrapper tests the wrong table; see the finding below.
  - The pieces are modelled as `Filter`, `NumGames`, `Menu.Sub` and
    `PysolMenubar.AddSelectGameSubMenu`.
- Left out as foreign or I/O code:
  - `updateBackgroundImagesMenu` (floating-point square root);
  - the file, cardset, tile, sound and game-selection dialogs;
  - toolbar styles read from disk;
  - key bindings through `tkutil.bind` (dead code under `if 0`);
  - the one-line `mOpt*` handlers that call into game and application code.

## Findings

| source | as written | input that shows it | evidently intended | confidence | as-written member | corrected member |
|---|---|---|---|---|---|---|
| pysollib/tk/menubar.py:738 | `_addSelectSpecialGameSubMenu` tests `_getNumGames(games, GI.SELECT_ORIENTAL_GAME_BY_TYPE)` | One special game and no oriental game: no "Special games" submenu is built, although it would not be empty | Test `GI.SELECT_SPECIAL_GAME_BY_TYPE`, the table the submenu is built from at line 742 | not executed | Games.SpecialMenuCounterexample | Games.SpecialMenuShownIff |
