/**
 * The menus of the PySol menubar, with a Tk menu reduced to its list of
 * entries. `Menu` is `MfxMenubar`/`MfxMenu`: it counts the entries added to
 * it (`n`, the Tk index of the next entry) and reports every labelled entry
 * to the menubar's path registry. `PysolMenubar` holds that registry
 * (`__menupath`), builds the game submenus and keeps the enable states of
 * the registered entries up to date.
 *
 * A registry lookup can hand back the same menu object for several paths,
 * so the state updates are stated as a list of `Change`s applied to every
 * menu in turn (`Apply`): that covers every way the menus may alias.
 */
module TkMenubar {
  import opened Wrappers
  import opened Labels
  import opened Games

  // ---------------------------------------------------------------------
  // Entries
  // ---------------------------------------------------------------------

  /** The Tk `state` option of an entry: "normal" or "disabled". */
  datatype State = Normal | Disabled

  /** `_getEnabledState`. */
  function EnabledState(enabled: bool): (s: State)
    ensures s == Normal <==> enabled
    ensures s == Disabled <==> !enabled
  {
    if enabled then Normal else Disabled
  }

  /** The Tk item types the menubar adds. */
  datatype ItemType = Command | Checkbutton | Radiobutton | Separator | Cascade

  /**
   * The options of an `add` call that the bookkeeping looks at: `label`,
   * `name` (not a Tk option: `add` takes it out), `underline`, the cascade's
   * `menu`, `columnbreak` and a radio button's `value`.
   */
  datatype Config = Config(text: Option<string>, name: Option<string>, underline: Option<int>,
                           menu: Option<Menu>, columnbreak: bool, value: Option<int>)

  /** The options of `add_separator()`: none. */
  const NoOptions := Config(None, None, None, None, false, None)

  /** One entry of a Tk menu, as the menubar configured it. */
  datatype Entry = Entry(kind: ItemType, text: Option<string>, underline: Option<int>,
                         state: State, columnbreak: bool, value: Option<int>, submenu: Option<Menu>)

  /** Python truth of an optional string: present and not empty. */
  predicate Truthy(s: Option<string>) {
    s.Some? && s.value != ""
  }

  /** `add` runs the label through `labeltoname` when it has a label but no name. */
  predicate Derives(cnf: Config) {
    Truthy(cnf.text) && !Truthy(cnf.name)
  }

  /** The entry Tk records for `add(kind, cnf)`: the label and underline after `labeltoname`. */
  function EntryOf(kind: ItemType, cnf: Config): Entry {
    if Derives(cnf) then
      var l := LabelToName(cnf.text.value);
      Entry(kind, Some(l.display), Some(cnf.underline.GetOr(l.underline)), Normal, cnf.columnbreak, cnf.value, cnf.menu)
    else
      Entry(kind, cnf.text, cnf.underline, Normal, cnf.columnbreak, cnf.value, cnf.menu)
  }

  /**
   * The path component `add` registers an entry under: the given name, or
   * else the one derived from the label; an entry without a label, or whose
   * name comes out empty, is not registered.
   */
  function EntryName(cnf: Config): (r: Option<string>)
    ensures r.Some? ==> Truthy(cnf.text) && r.value != ""
    ensures Truthy(cnf.text) && Truthy(cnf.name) ==> r == cnf.name
    ensures Derives(cnf) && r.Some? ==> r.value == PathName(cnf.text.value)
    ensures r.Some? <==> Truthy(cnf.text) && (Truthy(cnf.name) || PathName(cnf.text.value) != "")
    ensures Derives(cnf) && PathName(cnf.text.value) != "" ==> r == Some(PathName(cnf.text.value))
  {
    if !Truthy(cnf.text) then None
    else
      var name := if Truthy(cnf.name) then cnf.name.value else LabelToName(cnf.text.value).name;
      if name == "" then None else Some(name)
  }

  /** A given name (or a missing label) suppresses `labeltoname`: label and underline are kept as given. */
  lemma NamedEntry(kind: ItemType, cnf: Config)
    requires Truthy(cnf.name) || !Truthy(cnf.text)
    ensures EntryOf(kind, cnf).text == cnf.text && EntryOf(kind, cnf).underline == cnf.underline
    ensures EntryOf(kind, cnf).kind == kind && EntryOf(kind, cnf).submenu == cnf.menu
  {
  }

  /** A label without `&` is shown as it is, underlined only where the caller says so. */
  lemma PlainLabelEntry(kind: ItemType, cnf: Config)
    requires Truthy(cnf.text) && '&' !in cnf.text.value
    ensures EntryOf(kind, cnf).text == cnf.text
    ensures !Truthy(cnf.name) ==> EntryOf(kind, cnf).underline == Some(cnf.underline.GetOr(-1))
  {
    PlainLabel(cnf.text.value);
  }

  /**
   * A label with a mnemonic and no name: the entry shows the label without
   * its marker, and, unless the caller gives an underline, underlines the
   * character that followed the marker. A given underline always wins.
   */
  lemma MnemonicEntry(kind: ItemType, cnf: Config, p: nat)
    requires Derives(cnf)
    requires SplitsAt(cnf.text.value, p) && forall q :: p < q ==> !SplitsAt(cnf.text.value, q)
    ensures var e := EntryOf(kind, cnf);
      && e.text.Some? && e.underline.Some?
      && (cnf.underline.Some? ==> e.underline == cnf.underline)
      && (cnf.underline.None? ==> 0 <= e.underline.value < |e.text.value|
                                  && e.text.value[e.underline.value] == cnf.text.value[p + 1])
  {
    LabelWithMnemonic(cnf.text.value, p);
  }

  // ---------------------------------------------------------------------
  // The path registry
  // ---------------------------------------------------------------------

  /** What `_addPath` stores for a path: the menu, the entry's Tk index and its submenu. */
  datatype Slot = Slot(menu: Menu, index: int, submenu: Option<Menu>)

  /** `_addPath`: the first registration of a path wins. */
  function Register(mp: map<string, Slot>, path: string, slot: Slot): (r: map<string, Slot>)
    ensures path in r && r[path] == (if path in mp then mp[path] else slot)
    ensures forall p :: p != path ==> (p in r <==> p in mp)
    ensures forall p :: p in mp ==> p in r && r[p] == mp[p]
  {
    if path in mp then mp else mp[path := slot]
  }

  /** Registering a path twice is registering it once. */
  lemma RegisterFirstWins(mp: map<string, Slot>, path: string, first: Slot, second: Slot)
    ensures Register(Register(mp, path, first), path, second) == Register(mp, path, first)
  {
  }

  /** Every menu a registry can hand out: the menus entries were added to, and their submenus. */
  function Targets(mp: map<string, Slot>): set<Menu> {
    (set p | p in mp :: mp[p].menu) + (set p | p in mp && mp[p].submenu.Some? :: mp[p].submenu.value)
  }

  /** The registry after `menu.add(kind, cnf)` with the hook set, the entry getting Tk index `index`. */
  function Registered(mp: map<string, Slot>, menu: Menu, index: int, cnf: Config): map<string, Slot> {
    match EntryName(cnf)
    case None => mp
    case Some(name) =>
      if menu.path.Some? then Register(mp, menu.path.value + "." + name, Slot(menu, index, cnf.menu)) else mp
  }

  /** The Tk path of a child widget; None when Tk picks the name. */
  function ChildPath(parent: Option<string>, name: Option<string>): Option<string> {
    if parent.Some? && Truthy(name) then Some(parent.value + "." + name.value) else None
  }

  /** How an `MfxMenu` is named: from its label, or by the `name` keyword (which may be None). */
  datatype MenuName = FromLabel | Named(name: Option<string>)

  /** The widget name an `MfxMenu` asks for. */
  function SubName(title: string, naming: MenuName): Option<string> {
    match naming
    case FromLabel => Some(LabelToName(title).name)
    case Named(name) => name
  }

  /** The options of the `add_cascade` call with which an `MfxMenu` hooks itself into its master. */
  function SubConfig(title: string, naming: MenuName, underline: Option<int>, menu: Menu): Config {
    match naming
    case FromLabel =>
      var l := LabelToName(title);
      Config(Some(l.display), Some(l.name), Some(underline.GetOr(l.underline)), Some(menu), false, None)
    case Named(name) =>
      Config(Some(title), name, Some(underline.GetOr(-1)), Some(menu), false, None)
  }

  // ---------------------------------------------------------------------
  // Enable-state changes
  // ---------------------------------------------------------------------

  /** One `menu.entryconfig(index, state=state)`. */
  datatype Change = Change(menu: Menu, index: int, state: State)

  /** The state of the entry at position `pos` set to `s`; a position outside the menu changes nothing. */
  function SetStateAt(entries: seq<Entry>, pos: int, s: State): seq<Entry> {
    if 0 <= pos < |entries| then entries[pos := entries[pos].(state := s)] else entries
  }

  /**
   * The entries of menu `m`, `base` before, after the changes `cs` in order:
   * only those addressed to `m` apply, at Tk index minus the tear-off line.
   * Nothing but enable states changes.
   */
  function Apply(m: Menu, base: seq<Entry>, cs: seq<Change>): (r: seq<Entry>)
    ensures |r| == |base|
    ensures forall k :: 0 <= k < |r| ==> r[k] == base[k].(state := r[k].state)
    decreases |cs|
  {
    if cs == [] then base
    else
      var prev := Apply(m, base, cs[..|cs| - 1]);
      var c := cs[|cs| - 1];
      if c.menu == m then SetStateAt(prev, c.index - m.Offset(), c.state) else prev
  }

  lemma ApplySnoc(m: Menu, base: seq<Entry>, cs: seq<Change>, k: nat)
    requires k < |cs|
    ensures Apply(m, base, cs[..k + 1])
         == if cs[k].menu == m then SetStateAt(Apply(m, base, cs[..k]), cs[k].index - m.Offset(), cs[k].state)
            else Apply(m, base, cs[..k])
  {
    assert cs[..k + 1][..k] == cs[..k];
  }

  /** The last change addressed to an entry decides its state. */
  lemma {:induction false} ApplyLast(m: Menu, base: seq<Entry>, cs: seq<Change>, j: nat)
    requires j < |cs| && cs[j].menu == m && 0 <= cs[j].index - m.Offset() < |base|
    requires forall l :: j < l < |cs| && cs[l].menu == m ==> cs[l].index != cs[j].index
    ensures Apply(m, base, cs)[cs[j].index - m.Offset()].state == cs[j].state
    decreases |cs|
  {
    var last := |cs| - 1;
    if j < last {
      ApplyLast(m, base, cs[..last], j);
    }
  }

  /** An entry no change is addressed to keeps its state. */
  lemma {:induction false} ApplyUntouched(m: Menu, base: seq<Entry>, cs: seq<Change>, pos: nat)
    requires pos < |base|
    requires forall l :: 0 <= l < |cs| && cs[l].menu == m ==> cs[l].index - m.Offset() != pos
    ensures Apply(m, base, cs)[pos] == base[pos]
    decreases |cs|
  {
    if cs != [] {
      ApplyUntouched(m, base, cs[..|cs| - 1], pos);
    }
  }

  // ---------------------------------------------------------------------
  // MfxMenubar / MfxMenu
  // ---------------------------------------------------------------------

  class Menu {
    /** The Tk widget path; None when Tk chose the widget's name itself. */
    const path: Option<string>
    /** Whether the menu starts with a tear-off line (Tk index 0). */
    const tearoff: bool
    /** `self.n`: the Tk index `add` records for the next entry. */
    var n: int
    /** The entries below the tear-off line, in order. */
    var entries: seq<Entry>
    /** How many entries were ever added, deleted ones included. */
    ghost var added: nat

    /** The counter is the tear-off offset plus the number of entries added so far. */
    ghost predicate Counted()
      reads this
    {
      n == Offset() + added
    }

    /** No entry was deleted: the counter is also the Tk index past the last entry. */
    ghost predicate Indexed()
      reads this
    {
      n == Offset() + |entries|
    }

    /** The Tk index of the first entry. */
    function Offset(): nat {
      if tearoff then 1 else 0
    }

    /** `MfxMenubar(top, name=name, tearoff=tearoff)`, a child of the Tk root window. */
    constructor Toplevel(name: string, tearoff: bool)
      ensures path == Some("." + name) && this.tearoff == tearoff
      ensures n == Offset() && entries == [] && added == 0
    {
      path := Some("." + name);
      this.tearoff := tearoff;
      n := if tearoff then 1 else 0;
      entries := [];
      added := 0;
    }

    /**
     * `MfxMenu(master, label, underline, name=..., tearoff=...)`: a new empty
     * menu, hooked into `master` by a cascade entry. `hook` is
     * `MfxMenubar.addPath` (null when cleared).
     */
    constructor Sub(master: Menu, title: string, naming: MenuName, underline: Option<int>, tearoff: bool,
                    hook: PysolMenubar?)
      modifies master, hook
      ensures path == ChildPath(master.path, SubName(title, naming)) && this.tearoff == tearoff
      ensures n == Offset() && entries == [] && added == 0
      ensures master.entries == old(master.entries) + [EntryOf(Cascade, SubConfig(title, naming, underline, this))]
      ensures master.n == old(master.n) + 1 && master.added == old(master.added) + 1
      ensures hook != null ==> hook.menupath == Registered(old(hook.menupath), master, old(master.n),
                                                           SubConfig(title, naming, underline, this))
      ensures hook != null ==> hook.favorites == old(hook.favorites) && hook.tableTile == old(hook.tableTile)
    {
      path := ChildPath(master.path, SubName(title, naming));
      this.tearoff := tearoff;
      n := if tearoff then 1 else 0;
      entries := [];
      added := 0;
      new;
      master.Add(Cascade, SubConfig(title, naming, underline, this), hook);
    }

    /**
     * `MfxMenubar.add`: the entry is recorded and the counter moves on, for
     * every item type; a labelled entry with a non-empty name is reported to
     * the hook under `path.name` with the counter's value as its index. That
     * index is the tear-off offset plus the number of entries added before,
     * and, while no entry was deleted, the position of the new entry.
     */
    method Add(kind: ItemType, cnf: Config, hook: PysolMenubar?)
      modifies this, hook
      ensures n == old(n) + 1 && added == old(added) + 1
      ensures entries == old(entries) + [EntryOf(kind, cnf)]
      ensures hook != null ==> hook.menupath == Registered(old(hook.menupath), this, old(n), cnf)
      ensures hook != null ==> hook.favorites == old(hook.favorites) && hook.tableTile == old(hook.tableTile)
      ensures old(Counted()) ==> Counted()
      ensures old(Indexed()) ==> Indexed() && entries[old(n) - Offset()] == EntryOf(kind, cnf)
      ensures hook != null && EntryName(cnf).Some? && path.Some?
              && path.value + "." + EntryName(cnf).value !in old(hook.menupath) ==>
                var slot := hook.menupath[path.value + "." + EntryName(cnf).value];
                && slot == Slot(this, old(n), cnf.menu)
                && (old(Counted()) ==> slot.index == Offset() + old(added))
                && (old(Indexed()) ==> entries[slot.index - Offset()] == EntryOf(kind, cnf))
    {
      var name := EntryName(cnf);
      if name.Some? && hook != null && path.Some? {
        hook.AddPath(path.value + "." + name.value, this, n, cnf.menu);
      }
      entries := entries + [EntryOf(kind, cnf)];
      n := n + 1;
      added := added + 1;
    }

    /** `entryconfig(index, state=s)`. */
    method SetState(index: int, s: State)
      modifies this`entries
      ensures entries == SetStateAt(old(entries), index - Offset(), s)
    {
      entries := SetStateAt(entries, index - Offset(), s);
    }

    /** `delete(0, "last")`: every entry goes (the tear-off line cannot be deleted); `n` is left as it was. */
    method DeleteAll()
      modifies this`entries
      ensures entries == []
    {
      entries := [];
    }

    /** `entryconfigure(..., columnbreak=True)` on the entry just added. */
    method BreakLast()
      requires entries != []
      modifies this`entries
      ensures entries == old(entries)[..|old(entries)| - 1] + [old(entries)[|old(entries)| - 1].(columnbreak := true)]
    {
      entries := entries[..|entries| - 1] + [entries[|entries| - 1].(columnbreak := true)];
    }
  }

  // ---------------------------------------------------------------------
  // What the game-menu builders put in a menu
  // ---------------------------------------------------------------------

  /** The radio button `_addSelectGameSubSubMenu` adds for a game: labelled by its short or full name, valued by its id. */
  function RadioEntry(g: GameInfo, shortName: bool, columnbreak: bool): Entry {
    EntryOf(Radiobutton, Config(Some(if shortName then g.shortName else g.name), None, None, None, columnbreak, Some(g.id)))
  }

  /** The radio buttons for `games`, in order, a new column every `cb` entries. */
  function RadioEntries(games: seq<GameInfo>, shortName: bool, cb: nat): seq<Entry>
    requires cb > 0
  {
    seq(|games|, i requires 0 <= i < |games| => RadioEntry(games[i], shortName, ColumnBreak(i, cb)))
  }

  /**
   * One radio button per game, in input order, valued by the game's id; a
   * name without `&` is shown as it is; a column starts exactly at the
   * non-zero multiples of `cb`.
   */
  lemma RadioEntriesShape(games: seq<GameInfo>, shortName: bool, cb: nat, i: nat)
    requires cb > 0 && i < |games|
    ensures |RadioEntries(games, shortName, cb)| == |games|
    ensures var e := RadioEntries(games, shortName, cb)[i];
      var name := if shortName then games[i].shortName else games[i].name;
      && e.kind == Radiobutton && e.value == Some(games[i].id) && e.state == Normal && e.submenu == None
      && (e.columnbreak <==> i > 0 && i % cb == 0)
      && ('&' !in name ==> e.text == Some(name))
  {
    var name := if shortName then games[i].shortName else games[i].name;
    if name != "" && '&' !in name {
      PlainLabelEntry(Radiobutton, Config(Some(name), None, None, None, ColumnBreak(i, cb), Some(games[i].id)));
    }
  }

  /** One item a game-menu builder adds: a separator, or a cascade to a submenu of game radio buttons. */
  datatype Item =
    | SeparatorLine
    | GamesSubmenu(title: string, naming: MenuName, columnbreak: bool, games: seq<GameInfo>, shortName: bool)

  /** The menus the entries lead to. */
  function SubmenusOf(es: seq<Entry>): set<Menu> {
    set i | 0 <= i < |es| && es[i].submenu.Some? :: es[i].submenu.value
  }

  /** Adding an entry adds its submenu, if any, to the submenus listed. */
  lemma SubmenusOfSnoc(es: seq<Entry>, e: Entry)
    ensures SubmenusOf(es + [e]) == SubmenusOf(es) + (if e.submenu.Some? then {e.submenu.value} else {})
  {
    var r := es + [e];
    forall m | m in SubmenusOf(r)
      ensures m in SubmenusOf(es) || (e.submenu.Some? && m == e.submenu.value)
    {
      var i :| 0 <= i < |r| && r[i].submenu.Some? && r[i].submenu.value == m;
      if i < |es| {
        assert es[i] == r[i];
      }
    }
    forall m | m in SubmenusOf(es)
      ensures m in SubmenusOf(r)
    {
      var i :| 0 <= i < |es| && es[i].submenu.Some? && es[i].submenu.value == m;
      assert r[i] == es[i];
    }
    if e.submenu.Some? {
      assert r[|es|] == e;
    }
  }

  /** Entry `e` is what adding `item` produced, and its submenu holds the item's radio buttons. */
  predicate Shows(e: Entry, item: Item, cb: nat)
    requires cb > 0
    reads if e.submenu.Some? then {e.submenu.value} else {}
  {
    match item
    case SeparatorLine => e == EntryOf(Separator, NoOptions)
    case GamesSubmenu(title, naming, columnbreak, games, shortName) =>
      && e.submenu.Some?
      && e == EntryOf(Cascade, SubConfig(title, naming, None, e.submenu.value)).(columnbreak := columnbreak)
      && e.submenu.value.entries == RadioEntries(games, shortName, cb)
  }

  /** The entries of `menu` from position `start` on are exactly `items`. */
  predicate Lists(menu: Menu, start: nat, items: seq<Item>, cb: nat)
    requires cb > 0
    reads menu, SubmenusOf(menu.entries)
  {
    && |menu.entries| == start + |items|
    && forall k :: 0 <= k < |items| ==> Shows(menu.entries[start + k], items[k], cb)
  }

  /** The submenus for `blocks`, named by Tk; `shortName` picks the label of the radio buttons. */
  function BlockItems(blocks: seq<Block>, shortName: bool): seq<Item> {
    seq(|blocks|, k requires 0 <= k < |blocks| =>
      GamesSubmenu(blocks[k].title, Named(None), blocks[k].columnbreak, blocks[k].games, shortName))
  }

  lemma BlockItemsSnoc(blocks: seq<Block>, b: Block, shortName: bool)
    ensures BlockItems(blocks + [b], shortName)
         == BlockItems(blocks, shortName) + [GamesSubmenu(b.title, Named(None), b.columnbreak, b.games, shortName)]
  {
  }

  /** The items of a `_addSelectGameSubMenu` plan; the submenus are named after their labels. */
  function PlanItems(plan: seq<PlanItem>): seq<Item> {
    seq(|plan|, k requires 0 <= k < |plan| =>
      match plan[k]
      case SeparatorItem => SeparatorLine
      case SubmenuItem(title, games) => GamesSubmenu(title, FromLabel, false, games, false))
  }

  /** The test of `_addSelectMahjonggGameSubMenu`'s `select_func`. */
  predicate IsMahjonggGame(g: GameInfo) {
    g.isMahjongg
  }

  const AllGamesTitle := "&All games by name"
  const MahjonggTitle := "&Mahjongg games"

  // ---------------------------------------------------------------------
  // The registered paths the updates look up, and the changes they make
  // ---------------------------------------------------------------------

  const FavoriteGamesPath := ".menubar.file.favoritegames"
  const AddToFavoritesPath := ".menubar.file.addtofavorites"
  const RemoveFromFavoritesPath := ".menubar.file.removefromfavorites"
  const RecentGamesPath := ".menubar.file.recentgames"
  const SetBookmarkPath := ".menubar.edit.setbookmark"
  const GotoBookmarkPath := ".menubar.edit.gotobookmark"
  const ClearBookmarksPath := ".menubar.edit.clearbookmarks"

  /**
   * The `entryconfig` calls an update makes, in order, and whether it gets
   * through without raising: a missing key or a missing submenu makes the
   * source raise after the calls made so far.
   */
  datatype Update = Update(changes: seq<Change>, ok: bool)

  /** `setMenuState(state, path)`: unpacking the lookup of an unregistered path raises. */
  function MenuStateUpdate(mp: map<string, Slot>, path: string, enabled: bool): Update {
    var full := ".menubar." + path;
    if full in mp then Update([Change(mp[full].menu, mp[full].index, EnabledState(enabled))], true)
    else Update([], false)
  }

  /**
   * After `setMenuState`, the registered entry is enabled exactly when asked
   * to be; every other entry of every menu is as it was.
   */
  lemma MenuStateEffect(mp: map<string, Slot>, path: string, enabled: bool, m: Menu, base: seq<Entry>, pos: nat)
    requires pos < |base|
    ensures var full, u := ".menubar." + path, MenuStateUpdate(mp, path, enabled);
      && (u.ok <==> full in mp)
      && (full in mp && m == mp[full].menu && pos == mp[full].index - m.Offset() ==>
            Apply(m, base, u.changes)[pos].state == EnabledState(enabled))
      && (!(full in mp && m == mp[full].menu && pos == mp[full].index - m.Offset()) ==>
            Apply(m, base, u.changes)[pos] == base[pos])
  {
    var u := MenuStateUpdate(mp, path, enabled);
    var full := ".menubar." + path;
    if full in mp && m == mp[full].menu && pos == mp[full].index - m.Offset() {
      ApplyLast(m, base, u.changes, 0);
    } else {
      ApplyUntouched(m, base, u.changes, pos);
    }
  }

  /** Python truth of `any(bookmarks.get(i) is not None for i in range(9))`. */
  predicate AnyBookmark(marks: set<int>) {
    exists i :: 0 <= i < 9 && i in marks
  }

  /** `submenu.entryconfig(i, state=...)` for i in range(9), entry i enabled when `on(i)`. */
  function NineChanges(sub: Menu, x: bool, marks: Option<set<int>>): (cs: seq<Change>)
    ensures |cs| == 9
  {
    seq(9, i requires 0 <= i < 9 =>
      Change(sub, i, EnabledState((marks.None? || i in marks.value) && x)))
  }

  /**
   * `updateBookmarkMenuState`, with `x` the bookmarks option anded with
   * `game.canSetBookmark()` and `marks` the slots that hold a bookmark: all
   * nine "Set bookmark" entries and their cascade follow `x`; a "Goto
   * bookmark" entry also needs its bookmark, and the "Goto bookmark"
   * cascade and "Clear bookmarks" need some bookmark. Nothing happens while
   * one of the three paths is unregistered.
   */
  function BookmarkUpdate(mp: map<string, Slot>, x: bool, marks: set<int>): Update {
    if SetBookmarkPath !in mp || GotoBookmarkPath !in mp || ClearBookmarksPath !in mp then Update([], true)
    else
      var s1, s2, s3 := mp[SetBookmarkPath], mp[GotoBookmarkPath], mp[ClearBookmarksPath];
      if s1.submenu.None? then Update([], false)
      else
        var first := NineChanges(s1.submenu.value, x, None) + [Change(s1.menu, s1.index, EnabledState(x))];
        if s2.submenu.None? then Update(first, false)
        else
          var ms := AnyBookmark(marks);
          Update(first + NineChanges(s2.submenu.value, x, Some(marks))
                   + [Change(s2.menu, s2.index, EnabledState(ms && x)), Change(s3.menu, s3.index, EnabledState(ms && x))],
                 true)
  }

  /** A registered path with a submenu. */
  predicate HasSubmenu(mp: map<string, Slot>, path: string) {
    path in mp && mp[path].submenu.Some?
  }

  /**
   * The bookmark entries are laid out as the Edit menu lays them out: the two
   * submenus are distinct and are not where the three registered entries
   * live, and those three entries are distinct.
   */
  predicate BookmarkLayout(mp: map<string, Slot>) {
    && HasSubmenu(mp, SetBookmarkPath) && HasSubmenu(mp, GotoBookmarkPath) && ClearBookmarksPath in mp
    && var s1, s2, s3 := mp[SetBookmarkPath], mp[GotoBookmarkPath], mp[ClearBookmarksPath];
       var sub1, sub2 := s1.submenu.value, s2.submenu.value;
       && sub1 != sub2
       && sub1 != s1.menu && sub1 != s2.menu && sub1 != s3.menu
       && sub2 != s1.menu && sub2 != s2.menu && sub2 != s3.menu
       && (s1.menu, s1.index) != (s2.menu, s2.index)
       && (s1.menu, s1.index) != (s3.menu, s3.index)
       && (s2.menu, s2.index) != (s3.menu, s3.index)
  }

  /** With one of the three paths unregistered, `updateBookmarkMenuState` changes nothing. */
  lemma BookmarkUnregistered(mp: map<string, Slot>, x: bool, marks: set<int>, m: Menu, base: seq<Entry>)
    requires SetBookmarkPath !in mp || GotoBookmarkPath !in mp || ClearBookmarksPath !in mp
    ensures BookmarkUpdate(mp, x, marks).ok
    ensures Apply(m, base, BookmarkUpdate(mp, x, marks).changes) == base
  {
  }

  /** Of nine changes to a submenu, the `i`-th decides entry `i` when no later change is addressed to that submenu. */
  lemma {:induction false} NineChangesDecide(m: Menu, base: seq<Entry>, first: seq<Change>, x: bool, marks: Option<set<int>>,
                                             last: seq<Change>, i: nat)
    requires i < 9 && 0 <= i - m.Offset() < |base|
    requires forall l :: 0 <= l < |last| ==> last[l].menu != m
    ensures Apply(m, base, first + NineChanges(m, x, marks) + last)[i - m.Offset()].state
         == EnabledState((marks.None? || i in marks.value) && x)
  {
    var mid := NineChanges(m, x, marks);
    var cs := first + mid + last;
    var j := |first| + i;
    assert cs[j] == mid[i];
    forall l | j < l < |cs|
      ensures cs[l].menu == m ==> cs[l].index != cs[j].index
    {
      if l < |first| + 9 {
        assert cs[l] == mid[l - |first|];
      } else {
        assert cs[l] == last[l - |first| - 9];
      }
    }
    ApplyLast(m, base, cs, j);
  }

  /** The changes of `updateBookmarkMenuState` once all three paths are registered with their submenus. */
  lemma BookmarkChangesFull(mp: map<string, Slot>, x: bool, marks: set<int>)
    requires HasSubmenu(mp, SetBookmarkPath) && HasSubmenu(mp, GotoBookmarkPath) && ClearBookmarksPath in mp
    ensures var s1, s2, s3 := mp[SetBookmarkPath], mp[GotoBookmarkPath], mp[ClearBookmarksPath];
      var u := BookmarkUpdate(mp, x, marks);
      && u.ok
      && u.changes == NineChanges(s1.submenu.value, x, None)
                      + ([Change(s1.menu, s1.index, EnabledState(x))] + NineChanges(s2.submenu.value, x, Some(marks))
                         + [Change(s2.menu, s2.index, EnabledState(AnyBookmark(marks) && x)),
                            Change(s3.menu, s3.index, EnabledState(AnyBookmark(marks) && x))])
      && u.changes == (NineChanges(s1.submenu.value, x, None) + [Change(s1.menu, s1.index, EnabledState(x))])
                      + NineChanges(s2.submenu.value, x, Some(marks))
                      + [Change(s2.menu, s2.index, EnabledState(AnyBookmark(marks) && x)),
                         Change(s3.menu, s3.index, EnabledState(AnyBookmark(marks) && x))]
  {
  }

  /** Every change `updateBookmarkMenuState` makes is to a menu of the registry. */
  lemma BookmarkTargets(mp: map<string, Slot>, x: bool, marks: set<int>)
    ensures forall k :: 0 <= k < |BookmarkUpdate(mp, x, marks).changes| ==> BookmarkUpdate(mp, x, marks).changes[k].menu in Targets(mp)
  {
    var cs := BookmarkUpdate(mp, x, marks).changes;
    if HasSubmenu(mp, SetBookmarkPath) && GotoBookmarkPath in mp && ClearBookmarksPath in mp {
      var s1, s2, s3 := mp[SetBookmarkPath], mp[GotoBookmarkPath], mp[ClearBookmarksPath];
      assert s1.menu in Targets(mp) && s1.submenu.value in Targets(mp);
      assert s2.menu in Targets(mp) && s3.menu in Targets(mp);
      if s2.submenu.Some? {
        assert s2.submenu.value in Targets(mp);
        BookmarkChangesFull(mp, x, marks);
      }
    }
  }

  /** Entry `i` of a "Set bookmark" submenu is enabled exactly when `x` holds. */
  lemma BookmarkSetEntry(mp: map<string, Slot>, x: bool, marks: set<int>, base: seq<Entry>, i: nat)
    requires BookmarkLayout(mp) && i < 9
    requires var sub := mp[SetBookmarkPath].submenu.value; 0 <= i - sub.Offset() < |base|
    ensures BookmarkUpdate(mp, x, marks).ok
    ensures Apply(mp[SetBookmarkPath].submenu.value, base, BookmarkUpdate(mp, x, marks).changes)
              [i - mp[SetBookmarkPath].submenu.value.Offset()].state == EnabledState(x)
  {
    AfterSetEntriesElsewhere(mp, x, marks);
    BookmarkSetSplit(mp, x, marks);
    NineChangesDecide(mp[SetBookmarkPath].submenu.value, base, [], x, None, AfterSetEntries(mp, x, marks), i);
  }

  /** The changes of `updateBookmarkMenuState`: the nine "Set bookmark" entries first, then the rest. */
  lemma BookmarkSetSplit(mp: map<string, Slot>, x: bool, marks: set<int>)
    requires HasSubmenu(mp, SetBookmarkPath) && HasSubmenu(mp, GotoBookmarkPath) && ClearBookmarksPath in mp
    ensures BookmarkUpdate(mp, x, marks).ok
    ensures BookmarkUpdate(mp, x, marks).changes
         == [] + NineChanges(mp[SetBookmarkPath].submenu.value, x, None) + AfterSetEntries(mp, x, marks)
  {
    BookmarkChangesFull(mp, x, marks);
  }

  /** The changes `updateBookmarkMenuState` makes after the nine "Set bookmark" entries. */
  function AfterSetEntries(mp: map<string, Slot>, x: bool, marks: set<int>): seq<Change>
    requires HasSubmenu(mp, SetBookmarkPath) && HasSubmenu(mp, GotoBookmarkPath) && ClearBookmarksPath in mp
  {
    var s1, s2, s3 := mp[SetBookmarkPath], mp[GotoBookmarkPath], mp[ClearBookmarksPath];
    [Change(s1.menu, s1.index, EnabledState(x))] + NineChanges(s2.submenu.value, x, Some(marks))
      + [Change(s2.menu, s2.index, EnabledState(AnyBookmark(marks) && x)),
         Change(s3.menu, s3.index, EnabledState(AnyBookmark(marks) && x))]
  }

  /** None of those later changes is addressed to the "Set bookmark" submenu. */
  lemma AfterSetEntriesElsewhere(mp: map<string, Slot>, x: bool, marks: set<int>)
    requires BookmarkLayout(mp)
    ensures forall l :: 0 <= l < |AfterSetEntries(mp, x, marks)| ==>
              AfterSetEntries(mp, x, marks)[l].menu != mp[SetBookmarkPath].submenu.value
  {
    var last := AfterSetEntries(mp, x, marks);
    var nine := NineChanges(mp[GotoBookmarkPath].submenu.value, x, Some(marks));
    forall l | 0 <= l < |last|
      ensures last[l].menu != mp[SetBookmarkPath].submenu.value
    {
      if 1 <= l < 10 {
        assert last[l] == nine[l - 1];
      }
    }
  }

  /** Entry `i` of a "Goto bookmark" submenu is enabled exactly when bookmark `i` exists and `x` holds. */
  lemma BookmarkGotoEntry(mp: map<string, Slot>, x: bool, marks: set<int>, base: seq<Entry>, i: nat)
    requires BookmarkLayout(mp) && i < 9
    requires var sub := mp[GotoBookmarkPath].submenu.value; 0 <= i - sub.Offset() < |base|
    ensures var sub := mp[GotoBookmarkPath].submenu.value;
      Apply(sub, base, BookmarkUpdate(mp, x, marks).changes)[i - sub.Offset()].state == EnabledState(i in marks && x)
  {
    var s1, s2, s3 := mp[SetBookmarkPath], mp[GotoBookmarkPath], mp[ClearBookmarksPath];
    var sub := s2.submenu.value;
    var first := NineChanges(s1.submenu.value, x, None) + [Change(s1.menu, s1.index, EnabledState(x))];
    var last := [Change(s2.menu, s2.index, EnabledState(AnyBookmark(marks) && x)),
                 Change(s3.menu, s3.index, EnabledState(AnyBookmark(marks) && x))];
    BookmarkChangesFull(mp, x, marks);
    NineChangesDecide(sub, base, first, x, Some(marks), last, i);
  }

  /** The "Set bookmark" cascade is enabled exactly when `x` holds. */
  lemma BookmarkSetCascade(mp: map<string, Slot>, x: bool, marks: set<int>, base: seq<Entry>)
    requires BookmarkLayout(mp)
    requires var s := mp[SetBookmarkPath]; 0 <= s.index - s.menu.Offset() < |base|
    ensures var s := mp[SetBookmarkPath];
      Apply(s.menu, base, BookmarkUpdate(mp, x, marks).changes)[s.index - s.menu.Offset()].state == EnabledState(x)
  {
    var s1, s2, s3 := mp[SetBookmarkPath], mp[GotoBookmarkPath], mp[ClearBookmarksPath];
    var c := Change(s1.menu, s1.index, EnabledState(x));
    var back := NineChanges(s2.submenu.value, x, Some(marks))
                + [Change(s2.menu, s2.index, EnabledState(AnyBookmark(marks) && x)),
                   Change(s3.menu, s3.index, EnabledState(AnyBookmark(marks) && x))];
    BookmarkChangesFull(mp, x, marks);
    forall l | 0 <= l < |back|
      ensures back[l].menu == s1.menu ==> back[l].index != c.index
    {
      if l < 9 {
        assert back[l].menu == s2.submenu.value;
      }
    }
    var front := NineChanges(s1.submenu.value, x, None);
    assert BookmarkUpdate(mp, x, marks).changes == front + [c] + back;
    ApplyDecidedBy(s1.menu, base, front, c, back);
  }

  /** A change followed by none to the same entry decides that entry. */
  lemma {:induction false} ApplyDecidedBy(m: Menu, base: seq<Entry>, front: seq<Change>, c: Change, back: seq<Change>)
    requires c.menu == m && 0 <= c.index - m.Offset() < |base|
    requires forall l :: 0 <= l < |back| && back[l].menu == m ==> back[l].index != c.index
    ensures Apply(m, base, front + [c] + back)[c.index - m.Offset()].state == c.state
  {
    var cs := front + [c] + back;
    var j := |front|;
    assert cs[j] == c;
    forall l | j < l < |cs|
      ensures cs[l] == back[l - j - 1]
    {
    }
    ApplyLast(m, base, cs, j);
  }

  /** The "Goto bookmark" cascade and "Clear bookmarks" are enabled exactly when some bookmark exists and `x` holds. */
  lemma BookmarkGotoAndClear(mp: map<string, Slot>, x: bool, marks: set<int>, base2: seq<Entry>, base3: seq<Entry>)
    requires BookmarkLayout(mp)
    requires var s := mp[GotoBookmarkPath]; 0 <= s.index - s.menu.Offset() < |base2|
    requires var s := mp[ClearBookmarksPath]; 0 <= s.index - s.menu.Offset() < |base3|
    ensures var s2, s3, cs := mp[GotoBookmarkPath], mp[ClearBookmarksPath], BookmarkUpdate(mp, x, marks).changes;
      && Apply(s2.menu, base2, cs)[s2.index - s2.menu.Offset()].state == EnabledState(AnyBookmark(marks) && x)
      && Apply(s3.menu, base3, cs)[s3.index - s3.menu.Offset()].state == EnabledState(AnyBookmark(marks) && x)
  {
    var cs := BookmarkUpdate(mp, x, marks).changes;
    var s2, s3 := mp[GotoBookmarkPath], mp[ClearBookmarksPath];
    assert |cs| == 21;
    ApplyLast(s2.menu, base2, cs, 19);
    ApplyLast(s3.menu, base3, cs, 20);
  }

  /** A menu none of the bookmark entries lives in is left alone. */
  lemma BookmarkElsewhere(mp: map<string, Slot>, x: bool, marks: set<int>, m: Menu, base: seq<Entry>, pos: nat)
    requires pos < |base|
    requires forall p :: p in {SetBookmarkPath, GotoBookmarkPath, ClearBookmarksPath} && p in mp ==>
               m != mp[p].menu && mp[p].submenu != Some(m)
    ensures Apply(m, base, BookmarkUpdate(mp, x, marks).changes)[pos] == base[pos]
  {
    var cs := BookmarkUpdate(mp, x, marks).changes;
    forall l | 0 <= l < |cs|
      ensures cs[l].menu != m
    {
    }
    ApplyUntouched(m, base, cs, pos);
  }

  /**
   * The two state changes at the end of `updateFavoriteGamesMenu`: "Add to
   * favorites" is enabled unless the current game is a favourite, "Remove
   * from favorites" only if it is.
   */
  function FavoriteStateUpdate(mp: map<string, Slot>, inFavor: bool): Update {
    if AddToFavoritesPath !in mp then Update([], false)
    else
      var a := mp[AddToFavoritesPath];
      var first := [Change(a.menu, a.index, EnabledState(!inFavor))];
      if RemoveFromFavoritesPath !in mp then Update(first, false)
      else
        var r := mp[RemoveFromFavoritesPath];
        Update(first + [Change(r.menu, r.index, EnabledState(inFavor))], true)
  }

  /** Every change of the favourites update is to a menu of the registry. */
  lemma FavoriteTargets(mp: map<string, Slot>, inFavor: bool)
    ensures forall k :: 0 <= k < |FavoriteStateUpdate(mp, inFavor).changes| ==>
              FavoriteStateUpdate(mp, inFavor).changes[k].menu in Targets(mp)
  {
    if AddToFavoritesPath in mp {
      assert mp[AddToFavoritesPath].menu in Targets(mp);
    }
    if RemoveFromFavoritesPath in mp {
      assert mp[RemoveFromFavoritesPath].menu in Targets(mp);
    }
  }

  /**
   * With both entries registered in distinct places, "Add to favorites" ends
   * up enabled iff the game is not a favourite and "Remove from favorites"
   * iff it is.
   */
  lemma FavoriteStates(mp: map<string, Slot>, inFavor: bool, baseA: seq<Entry>, baseR: seq<Entry>)
    requires AddToFavoritesPath in mp && RemoveFromFavoritesPath in mp
    requires var a, r := mp[AddToFavoritesPath], mp[RemoveFromFavoritesPath]; (a.menu, a.index) != (r.menu, r.index)
    requires var a := mp[AddToFavoritesPath]; 0 <= a.index - a.menu.Offset() < |baseA|
    requires var r := mp[RemoveFromFavoritesPath]; 0 <= r.index - r.menu.Offset() < |baseR|
    ensures var a, r, u := mp[AddToFavoritesPath], mp[RemoveFromFavoritesPath], FavoriteStateUpdate(mp, inFavor);
      && u.ok
      && (Apply(a.menu, baseA, u.changes)[a.index - a.menu.Offset()].state == Normal <==> !inFavor)
      && (Apply(r.menu, baseR, u.changes)[r.index - r.menu.Offset()].state == Normal <==> inFavor)
  {
    var a, r, u := mp[AddToFavoritesPath], mp[RemoveFromFavoritesPath], FavoriteStateUpdate(mp, inFavor);
    ApplyLast(a.menu, baseA, u.changes, 0);
    ApplyLast(r.menu, baseR, u.changes, 1);
  }

  /** `screenheight / 23`, the length of a menu column; at least 1. */
  type ColumnLength = x: int | x >= 1 witness 1

  class PysolMenubar {
    /** `__cb_max`. */
    const cbMax: ColumnLength
    /** `__menupath`. */
    var menupath: map<string, Slot>
    /** `app.opt.favorite_gameid`. */
    var favorites: seq<int>
    /** `tkopt.tabletile`. */
    var tableTile: nat

    constructor(screenHeight: int, favorites: seq<int>, tableTile: nat)
      requires screenHeight >= 23
      ensures cbMax == screenHeight / 23
      ensures menupath == map[] && this.favorites == favorites && this.tableTile == tableTile
    {
      cbMax := screenHeight / 23;
      menupath := map[];
      this.favorites := favorites;
      this.tableTile := tableTile;
    }

    /** `_addPath`. */
    method AddPath(path: string, menu: Menu, index: int, submenu: Option<Menu>)
      modifies this`menupath
      ensures menupath == Register(old(menupath), path, Slot(menu, index, submenu))
    {
      if path !in menupath {
        menupath := menupath[path := Slot(menu, index, submenu)];
      }
    }

    /**
     * `_addSelectGameSubSubMenu`: one radio button per game, a column
     * break every `cb_max` entries.
     */
    method AddSelectGameSubSubMenu(games: seq<GameInfo>, menu: Menu, shortName: bool)
      modifies menu
      ensures menu.entries == old(menu.entries) + RadioEntries(games, shortName, cbMax)
      ensures menu.n == old(menu.n) + |games|
    {
      var cb: int := cbMax;
      var i: int := 0;
      while i < |games|
        invariant 0 <= i <= |games|
        invariant menu.entries == old(menu.entries) + RadioEntries(games[..i], shortName, cb)
        invariant menu.n == old(menu.n) + i
      {
        var gi := games[i];
        var columnbreak := i > 0 && i % cb == 0;
        var title := if shortName then gi.shortName else gi.name;
        menu.Add(Radiobutton, Config(Some(title), None, None, None, columnbreak, Some(gi.id)), null);
        assert RadioEntries(games[..i + 1], shortName, cb)
            == RadioEntries(games[..i], shortName, cb) + [RadioEntry(gi, shortName, ColumnBreak(i, cb))];
        i := i + 1;
      }
      assert games[..i] == games;
    }

    /**
     * `MfxMenu(menu, label=...)` followed by `_addSelectGameSubSubMenu` on
     * it, or `add_separator()`; the entries already listed stay as they were.
     */
    method AddItem(menu: Menu, item: Item, ghost start: nat, ghost done: seq<Item>)
      requires Lists(menu, start, done, cbMax)
      requires menu !in SubmenusOf(menu.entries[start..])
      modifies menu
      ensures Lists(menu, start, done + [item], cbMax)
      ensures menu !in SubmenusOf(menu.entries[start..])
      ensures forall m :: m in SubmenusOf(menu.entries[start..]) ==> m in old(SubmenusOf(menu.entries[start..])) || fresh(m)
      ensures menu.entries[..start] == old(menu.entries[..start])
      ensures menu.n == old(menu.n) + 1
    {
      if item.SeparatorLine? {
        AddSeparatorLine(menu, start, done);
      } else {
        AddGamesSubmenu(menu, item, start, done);
      }
    }

    /** `add_separator()` as an item of a listing. */
    method AddSeparatorLine(menu: Menu, ghost start: nat, ghost done: seq<Item>)
      requires Lists(menu, start, done, cbMax)
      requires menu !in SubmenusOf(menu.entries[start..])
      modifies menu
      ensures Lists(menu, start, done + [SeparatorLine], cbMax)
      ensures menu !in SubmenusOf(menu.entries[start..])
      ensures SubmenusOf(menu.entries[start..]) == old(SubmenusOf(menu.entries[start..]))
      ensures menu.entries[..start] == old(menu.entries[..start])
      ensures menu.n == old(menu.n) + 1
    {
      menu.Add(Separator, NoOptions, null);
      assert menu.entries[start..] == old(menu.entries[start..]) + [EntryOf(Separator, NoOptions)];
      SubmenusOfSnoc(old(menu.entries[start..]), EntryOf(Separator, NoOptions));
    }

    /** `MfxMenu(menu, label=...)` followed by `_addSelectGameSubSubMenu` on it, as an item of a listing. */
    method AddGamesSubmenu(menu: Menu, item: Item, ghost start: nat, ghost done: seq<Item>)
      requires item.GamesSubmenu?
      requires Lists(menu, start, done, cbMax)
      requires menu !in SubmenusOf(menu.entries[start..])
      modifies menu
      ensures Lists(menu, start, done + [item], cbMax)
      ensures menu !in SubmenusOf(menu.entries[start..])
      ensures forall m :: m in SubmenusOf(menu.entries[start..]) ==> m in old(SubmenusOf(menu.entries[start..])) || fresh(m)
      ensures menu.entries[..start] == old(menu.entries[..start])
      ensures menu.n == old(menu.n) + 1
    {
      var plain := item.(columnbreak := false);
      AddCascadeOfGames(menu, plain, start, done);
      if item.columnbreak {
        BreakListed(menu, start, done, plain);
      }
    }

    /** The cascade entry and its filled submenu, without a column break. */
    method AddCascadeOfGames(menu: Menu, item: Item, ghost start: nat, ghost done: seq<Item>)
      requires item.GamesSubmenu? && !item.columnbreak
      requires Lists(menu, start, done, cbMax)
      requires menu !in SubmenusOf(menu.entries[start..])
      modifies menu
      ensures Lists(menu, start, done + [item], cbMax)
      ensures menu !in SubmenusOf(menu.entries[start..])
      ensures forall m :: m in SubmenusOf(menu.entries[start..]) ==> m in old(SubmenusOf(menu.entries[start..])) || fresh(m)
      ensures menu.entries[..start] == old(menu.entries[..start])
      ensures menu.n == old(menu.n) + 1
    {
      var sub := new Menu.Sub(menu, item.title, item.naming, None, false, null);
      AddSelectGameSubSubMenu(item.games, sub, item.shortName);
    }

    /** `entryconfig(..., columnbreak=1)` on the entry just listed. */
    method BreakListed(menu: Menu, ghost start: nat, ghost done: seq<Item>, item: Item)
      requires item.GamesSubmenu?
      requires Lists(menu, start, done + [item], cbMax)
      requires menu !in SubmenusOf(menu.entries[start..])
      modifies menu
      ensures Lists(menu, start, done + [item.(columnbreak := true)], cbMax)
      ensures SubmenusOf(menu.entries[start..]) == old(SubmenusOf(menu.entries[start..]))
      ensures menu.entries[..start] == old(menu.entries[..start])
      ensures menu.n == old(menu.n)
    {
      ghost var before := menu.entries;
      ghost var items := done + [item];
      ghost var items' := done + [item.(columnbreak := true)];
      forall j | start <= j < |before|
        ensures before[j].submenu.Some? ==> before[j].submenu.value != menu
      {
        if before[j].submenu.Some? {
          assert before[start..][j - start] == before[j];
        }
      }
      label broken:
      menu.BreakLast();
      assert forall k :: 0 <= k < |before| ==> menu.entries[k].submenu == before[k].submenu;
      forall k | 0 <= k < |items'|
        ensures Shows(menu.entries[start + k], items'[k], cbMax)
      {
        assert old@broken(Shows(before[start + k], items[k], cbMax));
        if k < |done| {
          assert menu.entries[start + k] == before[start + k];
          assert items'[k] == items[k];
        }
      }
      assert SubmenusOf(menu.entries[start..]) == SubmenusOf(before[start..]) by {
        assert forall k :: 0 <= k < |before| - start ==> menu.entries[start..][k].submenu == before[start..][k].submenu;
      }
    }

    /**
     * `_addSelectAllGameSubMenu`: an "All games by name" submenu holding
     * one page per `cb_max` games, in the order given.
     */
    method AddSelectAllGameSubMenu(games: seq<GameInfo>, menu: Menu) returns (ghost all: Menu)
      modifies menu
      ensures fresh(all)
      ensures menu.entries == old(menu.entries) + [EntryOf(Cascade, SubConfig(AllGamesTitle, FromLabel, None, all))]
      ensures menu.n == old(menu.n) + 1
      ensures Lists(all, 0, BlockItems(Paginate(games, cbMax), false), cbMax)
      ensures forall m :: m in SubmenusOf(all.entries) ==> fresh(m)
    {
      all := AddPaged(games, menu, AllGamesTitle);
    }

    /**
     * The body of `AddSelectAllGameSubMenu` for any label: the fixed label
     * is kept out of the proof, where its `labeltoname` would be computed.
     */
    method AddPaged(games: seq<GameInfo>, menu: Menu, title: string) returns (ghost all: Menu)
      modifies menu
      ensures fresh(all)
      ensures menu.entries == old(menu.entries) + [EntryOf(Cascade, SubConfig(title, FromLabel, None, all))]
      ensures menu.n == old(menu.n) + 1
      ensures Lists(all, 0, BlockItems(Paginate(games, cbMax), false), cbMax)
      ensures forall m :: m in SubmenusOf(all.entries) ==> fresh(m)
    {
      var top := new Menu.Sub(menu, title, FromLabel, None, false, null);
      all := top;
      AddPages(games, top);
    }

    /**
     * The page loop of `_addSelectAllGameSubMenu`, with its counters `n`
     * (the first game of the page) and `i` (the page number plus one).
     */
    method AddPages(games: seq<GameInfo>, top: Menu)
      requires top.entries == []
      modifies top
      ensures Lists(top, 0, BlockItems(Paginate(games, cbMax), false), cbMax)
      ensures forall m :: m in SubmenusOf(top.entries) ==> fresh(m)
    {
      var n: int, d: int := 0, cbMax;
      var i: int := 0;
      ghost var done: seq<Block> := [];
      while true
        invariant 0 <= n && 0 <= i
        invariant done + PaginateFrom(games[Min(n, |games|)..], d, i) == Paginate(games, d)
        invariant Lists(top, 0, BlockItems(done, false), d)
        invariant top !in SubmenusOf(top.entries[0..])
        invariant forall m :: m in SubmenusOf(top.entries[0..]) ==> fresh(m)
        decreases |games| - n
      {
        var columnbreak := i > 0 && i % d == 0;
        i := i + 1;
        if n >= |games| {
          assert games[Min(n, |games|)..] == [];
          assert done + [] == Paginate(games, d);
          assert done == Paginate(games, cbMax);
          break;
        }
        var m := Min(n + d - 1, |games| - 1);
        var title := First3(games[n].name) + " - " + First3(games[m].name);
        var page := games[n..Min(n + d, |games|)];
        var block := Block(title, page, columnbreak);
        PagesSoFar(games, d, n, i - 1, done, block);
        AddBlock(top, block, false, done);
        ghost var next := Min(n + d, |games|);
        assert (done + [block]) + PaginateFrom(games[next..], d, i) == Paginate(games, d);
        done := done + [block];
        n := n + d;
        assert next == Min(n, |games|);
      }
    }

    /** `AddItem` for the submenu of one block of games, named by Tk. */
    method AddBlock(menu: Menu, block: Block, shortName: bool, ghost done: seq<Block>)
      requires Lists(menu, 0, BlockItems(done, shortName), cbMax)
      requires menu !in SubmenusOf(menu.entries[0..])
      modifies menu
      ensures Lists(menu, 0, BlockItems(done + [block], shortName), cbMax)
      ensures menu !in SubmenusOf(menu.entries[0..])
      ensures forall m :: m in SubmenusOf(menu.entries[0..]) ==> m in old(SubmenusOf(menu.entries[0..])) || fresh(m)
    {
      var item := GamesSubmenu(block.title, Named(None), block.columnbreak, block.games, shortName);
      AddItem(menu, item, 0, BlockItems(done, shortName));
      BlockItemsSnoc(done, block, shortName);
    }

    /** `AddBlock` for each block in turn, on a menu still empty. */
    method AddBlocks(menu: Menu, blocks: seq<Block>, shortName: bool)
      requires menu.entries == []
      modifies menu
      ensures Lists(menu, 0, BlockItems(blocks, shortName), cbMax)
    {
      var k := 0;
      while k < |blocks|
        invariant 0 <= k <= |blocks|
        invariant Lists(menu, 0, BlockItems(blocks[..k], shortName), cbMax)
        invariant menu !in SubmenusOf(menu.entries[0..])
      {
        AddBlock(menu, blocks[k], shortName, blocks[..k]);
        assert blocks[..k] + [blocks[k]] == blocks[..k + 1];
        k := k + 1;
      }
      assert blocks[..k] == blocks;
    }

    /**
     * `_addSelectMahjonggGameSubMenu`: nothing without Mahjongg games;
     * otherwise a "Mahjongg games" submenu with one submenu per block of
     * coalesced initials. A blank short name makes the source raise (`ok`
     * false) once the "Mahjongg games" submenu exists.
     */
    method AddSelectMahjonggGameSubMenu(games: seq<GameInfo>, menu: Menu)
      returns (ok: bool, ghost mj: Menu?, ghost groups: seq<Group>)
      modifies menu
      ensures Filter(IsMahjonggGame, games) == [] ==> ok && menu.entries == old(menu.entries) && menu.n == old(menu.n)
      ensures Filter(IsMahjonggGame, games) != [] ==>
        && mj != null && fresh(mj)
        && menu.entries == old(menu.entries) + [EntryOf(Cascade, SubConfig(MahjonggTitle, FromLabel, None, mj))]
        && menu.n == old(menu.n) + 1
        && (ok <==> forall g :: g in Filter(IsMahjonggGame, games) ==> Initial(g.shortName).Some?)
        && (!ok ==> mj.entries == [])
        && (ok ==> IsGrouping(Filter(IsMahjonggGame, games), groups)
                   && Lists(mj, 0, BlockItems(MahjonggBlocks(groups, cbMax), true), cbMax))
    {
      ok, mj, groups := AddGrouped(games, menu, MahjonggTitle);
    }

    /** The body of `AddSelectMahjonggGameSubMenu` for any label, as `AddPaged` is. */
    method AddGrouped(games: seq<GameInfo>, menu: Menu, title: string)
      returns (ok: bool, ghost mj: Menu?, ghost groups: seq<Group>)
      modifies menu
      ensures Filter(IsMahjonggGame, games) == [] ==> ok && menu.entries == old(menu.entries) && menu.n == old(menu.n)
      ensures Filter(IsMahjonggGame, games) != [] ==>
        && mj != null && fresh(mj)
        && menu.entries == old(menu.entries) + [EntryOf(Cascade, SubConfig(title, FromLabel, None, mj))]
        && menu.n == old(menu.n) + 1
        && (ok <==> forall g :: g in Filter(IsMahjonggGame, games) ==> Initial(g.shortName).Some?)
        && (!ok ==> mj.entries == [])
        && (ok ==> IsGrouping(Filter(IsMahjonggGame, games), groups)
                   && Lists(mj, 0, BlockItems(MahjonggBlocks(groups, cbMax), true), cbMax))
    {
      var mahjongg := Filter(IsMahjonggGame, games);
      if |mahjongg| == 0 {
        return true, null, [];
      }
      var top := new Menu.Sub(menu, title, FromLabel, None, false, null);
      mj := top;
      var r := GroupByInitial(mahjongg);
      if r.None? {
        return false, mj, [];
      }
      var grouped := r.value;
      groups := grouped;
      assert mahjongg[0] in mahjongg;
      var blocks := CoalesceGroups(grouped, cbMax);
      AddBlocks(top, blocks, true);
      ok := true;
    }

    /**
     * `_addSelectGameSubMenu`: for each titled selector that picks some
     * game, a submenu of those games; a None entry asks for a separator
     * before the next submenu.
     */
    method AddSelectGameSubMenu(games: seq<GameInfo>, menu: Menu, data: seq<Selector>)
      requires menu !in SubmenusOf(menu.entries)
      modifies menu
      ensures Lists(menu, |old(menu.entries)|, PlanItems(SelectPlan(games, data, false)), cbMax)
      ensures menu.entries[..|old(menu.entries)|] == old(menu.entries)
    {
      ghost var start := |menu.entries|;
      var needSep := false;
      ghost var done: seq<PlanItem> := [];
      var k := 0;
      while k < |data|
        invariant 0 <= k <= |data|
        invariant done + SelectPlan(games, data[k..], needSep) == SelectPlan(games, data, false)
        invariant Lists(menu, start, PlanItems(done), cbMax)
        invariant menu !in SubmenusOf(menu.entries[start..])
        invariant menu.entries[..start] == old(menu.entries)
      {
        needSep, done := AddSelector(games, menu, data, k, needSep, start, done);
        k := k + 1;
      }
      assert data[k..] == [];
      assert done == SelectPlan(games, data, false);
      assert start == |old(menu.entries)|;
    }

    /** One turn of the `_addSelectGameSubMenu` loop, for selector `data[k]`. */
    method AddSelector(games: seq<GameInfo>, menu: Menu, data: seq<Selector>, k: nat, needSep: bool,
                       ghost start: nat, ghost done: seq<PlanItem>)
      returns (needSep': bool, ghost done': seq<PlanItem>)
      requires k < |data|
      requires Lists(menu, start, PlanItems(done), cbMax)
      requires menu !in SubmenusOf(menu.entries[start..])
      modifies menu
      ensures done' + SelectPlan(games, data[k + 1..], needSep') == done + SelectPlan(games, data[k..], needSep)
      ensures Lists(menu, start, PlanItems(done'), cbMax)
      ensures menu !in SubmenusOf(menu.entries[start..])
      ensures menu.entries[..start] == old(menu.entries[..start])
    {
      needSep', done' := needSep, done;
      var title := data[k].title;
      assert data[k..][1..] == data[k + 1..];
      if title.None? {
        needSep' := true;
      } else {
        var g := Filter(data[k].select, games);
        if g != [] {
          if needSep {
            AddItem(menu, SeparatorLine, start, PlanItems(done'));
            assert PlanItems(done' + [SeparatorItem]) == PlanItems(done') + [SeparatorLine];
            done' := done' + [SeparatorItem];
            needSep' := false;
          }
          AddItem(menu, GamesSubmenu(title.value, FromLabel, false, g, false), start, PlanItems(done'));
          assert PlanItems(done' + [SubmenuItem(title.value, g)])
              == PlanItems(done') + [GamesSubmenu(title.value, FromLabel, false, g, false)];
          done' := done' + [SubmenuItem(title.value, g)];
        }
      }
    }

    /** Every menu the registry can hand out. */
    function Menus(): set<Menu>
      reads this`menupath
    {
      Targets(menupath)
    }

    /**
     * `menu.entryconfig(index, state=s)` on a menu the registry hands out;
     * `done` records the calls made since the menus' entries were `before`.
     */
    method EntryConfig(menu: Menu, index: int, s: State, ghost before: map<Menu, seq<Entry>>, ghost done: seq<Change>)
      returns (ghost done': seq<Change>)
      requires menu in Menus()
      requires forall m :: m in Menus() ==> m in before && m.entries == Apply(m, before[m], done)
      modifies menu`entries
      ensures done' == done + [Change(menu, index, s)]
      ensures forall m :: m in Menus() ==> m in before && m.entries == Apply(m, before[m], done')
      ensures forall m :: m in Menus() ==> m.n == old(m.n)
    {
      menu.SetState(index, s);
      done' := done + [Change(menu, index, s)];
      forall m | m in Menus()
        ensures m in before && m.entries == Apply(m, before[m], done')
      {
        assert done'[..|done'| - 1] == done;
      }
    }

    /**
     * `setMenuState(state, path)`: the entry registered under
     * `.menubar.` + `path` is enabled or disabled; `ok` is false where the
     * source raises because the path was never registered.
     */
    method SetMenuState(enabled: bool, path: string) returns (ok: bool)
      modifies Menus()
      ensures ok == MenuStateUpdate(menupath, path, enabled).ok
      ensures forall m :: m in Menus() ==>
        m.entries == Apply(m, old(m.entries), MenuStateUpdate(menupath, path, enabled).changes)
    {
      ghost var before := map m | m in Menus() :: m.entries;
      ghost var done: seq<Change> := [];
      var full := ".menubar." + path;
      if full !in menupath {
        return false;
      }
      var slot := menupath[full];
      done := EntryConfig(slot.menu, slot.index, EnabledState(enabled), before, done);
      ok := true;
    }

    /**
     * The `entryconfig` calls `cs`, in order, each on a menu the registry
     * hands out.
     */
    method ApplyChanges(cs: seq<Change>)
      requires forall k :: 0 <= k < |cs| ==> cs[k].menu in Menus()
      modifies Menus()
      ensures forall m :: m in Menus() ==> m.entries == Apply(m, old(m.entries), cs) && m.n == old(m.n)
    {
      ghost var before := map m | m in Menus() :: m.entries;
      ghost var done: seq<Change> := [];
      var k := 0;
      while k < |cs|
        invariant 0 <= k <= |cs|
        invariant done == cs[..k]
        invariant forall m :: m in Menus() ==> m in before && m.entries == Apply(m, before[m], done)
        invariant forall m :: m in Menus() ==> m.n == old(m.n)
        invariant forall m :: m in Menus() ==> before[m] == old(m.entries)
      {
        done := EntryConfig(cs[k].menu, cs[k].index, cs[k].state, before, done);
        TakeOneMore(cs, k);
        k := k + 1;
      }
      assert cs[..k] == cs;
    }

    /** The first `k + 1` changes are the first `k` followed by change `k`. */
    static lemma TakeOneMore(cs: seq<Change>, k: nat)
      requires k < |cs|
      ensures cs[..k + 1] == cs[..k] + [cs[k]]
    {
    }

    /**
     * `updateBookmarkMenuState`: `bookmarks` is the option, `canSet` the
     * game's `canSetBookmark()`, `marks` the bookmark slots in use.
     */
    method UpdateBookmarkMenuState(bookmarks: bool, canSet: bool, marks: set<int>) returns (ok: bool)
      modifies Menus()
      ensures ok == BookmarkUpdate(menupath, bookmarks && canSet, marks).ok
      ensures forall m :: m in Menus() ==>
        m.entries == Apply(m, old(m.entries), BookmarkUpdate(menupath, bookmarks && canSet, marks).changes)
    {
      var u := BookmarkUpdate(menupath, bookmarks && canSet, marks);
      BookmarkTargets(menupath, bookmarks && canSet, marks);
      ApplyChanges(u.changes);
      ok := u.ok;
    }

    /**
     * `updateRecentGamesMenu(gameids)`: the "Recent games" submenu is emptied
     * and refilled with one radio button per known id, in order; the column
     * length is 25, or `cb_max` past 100 ids. `ok` is false where the source
     * raises (no such path, or no submenu under it).
     */
    method UpdateRecentGamesMenu(ids: seq<int>, db: map<int, GameInfo>) returns (ok: bool, ghost sub: Menu?)
      modifies Menus()
      ensures ok <==> HasSubmenu(menupath, RecentGamesPath)
      ensures !ok ==> forall m :: m in Menus() ==> m.entries == old(m.entries) && m.n == old(m.n)
      ensures ok ==>
        && sub == menupath[RecentGamesPath].submenu.value
        && sub.entries == RadioEntries(KnownGames(ids, db), false, RecentColumns(|ids|, cbMax))
        && sub.n == old(sub.n) + |KnownGames(ids, db)|
        && forall m :: m in Menus() && m != sub ==> m.entries == old(m.entries) && m.n == old(m.n)
    {
      if !HasSubmenu(menupath, RecentGamesPath) {
        return false, null;
      }
      var submenu := menupath[RecentGamesPath].submenu.value;
      sub := submenu;
      submenu.DeleteAll();
      var cb: int := if |ids| > 4 * 25 then cbMax else 25;
      FillRecentGames(ids, db, submenu, cb);
      ok := true;
    }

    /** The loop of `updateRecentGamesMenu`: a radio button per id the database knows, a column every `cb` of them. */
    method FillRecentGames(ids: seq<int>, db: map<int, GameInfo>, submenu: Menu, cb: int)
      requires cb > 0 && submenu.entries == []
      modifies submenu
      ensures submenu.entries == RadioEntries(KnownGames(ids, db), false, cb)
      ensures submenu.n == old(submenu.n) + |KnownGames(ids, db)|
    {
      var i := 0;
      var j := 0;
      while j < |ids|
        invariant 0 <= j <= |ids|
        invariant i == |KnownGames(ids[..j], db)|
        invariant submenu.entries == RadioEntries(KnownGames(ids[..j], db), false, cb)
        invariant submenu.n == old(submenu.n) + i
      {
        var id := ids[j];
        KnownGamesSnoc(ids, j, db);
        if id in db {
          var gi := db[id];
          var columnbreak := i > 0 && i % cb == 0;
          submenu.Add(Radiobutton, Config(Some(gi.name), None, None, None, columnbreak, Some(gi.id)), null);
          assert RadioEntries(KnownGames(ids[..j + 1], db), false, cb)
              == RadioEntries(KnownGames(ids[..j], db), false, cb) + [RadioEntry(gi, false, ColumnBreak(i, cb))];
          i := i + 1;
        }
        j := j + 1;
      }
      assert ids[..j] == ids;
    }

    /**
     * What `updateFavoriteGamesMenu` leaves behind: no favourites submenu
     * means nothing changed; otherwise that submenu was refilled (as
     * `rebuilt`) from the favourites the database knows, and then the two
     * favourites entries got their states.
     */
    twostate predicate FavoritesMenuUpdated(db: map<int, GameInfo>, gameId: int, ok: bool, new sub: Menu?,
                                            new rebuilt: seq<Entry>, new all: Menu?)
      reads this`menupath, this`favorites, Menus()
    {
      && menupath == old(menupath)
      && (ok <==> HasSubmenu(menupath, FavoriteGamesPath) && FavoriteStateUpdate(menupath, gameId in favorites).ok)
      && (!HasSubmenu(menupath, FavoriteGamesPath) ==> forall m :: m in Menus() ==> m.entries == old(m.entries))
      && (HasSubmenu(menupath, FavoriteGamesPath) ==>
            && sub == menupath[FavoriteGamesPath].submenu.value
            && FavoritesTop(rebuilt, all, KnownGames(favorites, db), cbMax)
            && forall m :: m in Menus() ==>
                 m.entries == Apply(m, if m == sub then rebuilt else old(m.entries),
                                    FavoriteStateUpdate(menupath, gameId in favorites).changes))
    }

    /**
     * The refill of the favourites submenu: more than `4 * cb_max` games
     * are listed by name in pages, fewer as one list in the order given.
     */
    method RefillFavorites(games: seq<GameInfo>, submenu: Menu) returns (ghost all: Menu?)
      requires submenu.entries == []
      modifies submenu
      ensures FavoritesLayout(submenu.entries, all, games, cbMax)
      ensures all != null ==> fresh(all) && forall m :: m in SubmenusOf(all.entries) ==> fresh(m)
    {
      all := null;
      if |games| > cbMax * 4 {
        var sorted := SortByName(games);
        all := AddSelectAllGameSubMenu(sorted, submenu);
      } else {
        AddSelectGameSubSubMenu(games, submenu, false);
      }
    }

    /**
     * The first half of `updateFavoriteGamesMenu`: the favourites submenu
     * `sub` is emptied and refilled from the favourites the database knows.
     */
    method RebuildFavorites(db: map<int, GameInfo>, sub: Menu)
      returns (ghost rebuilt: seq<Entry>, ghost all: Menu?)
      requires sub in Menus()
      modifies sub
      ensures sub.entries == rebuilt
      ensures FavoritesLayout(rebuilt, all, KnownGames(favorites, db), cbMax)
    {
      sub.DeleteAll();
      var games := LookupGames(favorites, db);
      all := RefillFavorites(games, sub);
      rebuilt := sub.entries;
    }

    /**
     * The second half of `updateFavoriteGamesMenu`: "Add to favorites" and
     * "Remove from favorites" are enabled to match `inFavor`.
     */
    method SetFavoriteStates(inFavor: bool) returns (ok: bool)
      modifies Menus()
      ensures ok == FavoriteStateUpdate(menupath, inFavor).ok
      ensures forall m :: m in Menus() ==> m.entries == Apply(m, old(m.entries), FavoriteStateUpdate(menupath, inFavor).changes)
    {
      var u := FavoriteStateUpdate(menupath, inFavor);
      FavoriteTargets(menupath, inFavor);
      ApplyChanges(u.changes);
      ok := u.ok;
    }

    /**
     * `updateFavoriteGamesMenu`, the current game being `gameId`: the
     * favourites submenu is emptied and refilled, then "Add to favorites"
     * and "Remove from favorites" are enabled to match.
     */
    method UpdateFavoriteGamesMenu(db: map<int, GameInfo>, gameId: int)
      returns (ok: bool, ghost sub: Menu?, ghost rebuilt: seq<Entry>, ghost all: Menu?)
      modifies Menus()
      ensures FavoritesMenuUpdated(db, gameId, ok, sub, rebuilt, all)
    {
      sub, rebuilt, all := null, [], null;
      if !HasSubmenu(menupath, FavoriteGamesPath) {
        return false, sub, rebuilt, all;
      }
      var submenu := menupath[FavoriteGamesPath].submenu.value;
      sub := submenu;
      rebuilt, all := RebuildFavorites(db, submenu);
      ok := SetFavoriteStates(gameId in favorites);
    }

    /** `mAddFavor`: the current game becomes a favourite, and the menu follows if it was not one already. */
    method MAddFavor(db: map<int, GameInfo>, gameId: int)
      returns (updated: bool, ok: bool, ghost sub: Menu?, ghost rebuilt: seq<Entry>, ghost all: Menu?)
      modifies this`favorites, Menus()
      ensures favorites == AddFavorite(old(favorites), gameId)
      ensures updated <==> gameId !in old(favorites)
      ensures !updated ==> ok && forall m :: m in Menus() ==> m.entries == old(m.entries)
      ensures updated ==> FavoritesMenuUpdated(db, gameId, ok, sub, rebuilt, all)
    {
      sub, rebuilt, all := null, [], null;
      updated, ok := false, true;
      if gameId !in favorites {
        favorites := favorites + [gameId];
        updated := true;
        ok, sub, rebuilt, all := UpdateFavoriteGamesMenu(db, gameId);
      }
    }

    /** `mDelFavor`: the current game stops being a favourite, and the menu follows if it was one. */
    method MDelFavor(db: map<int, GameInfo>, gameId: int)
      returns (updated: bool, ok: bool, ghost sub: Menu?, ghost rebuilt: seq<Entry>, ghost all: Menu?)
      modifies this`favorites, Menus()
      ensures favorites == RemoveFavorite(old(favorites), gameId)
      ensures updated <==> gameId in old(favorites)
      ensures !updated ==> ok && forall m :: m in Menus() ==> m.entries == old(m.entries)
      ensures updated ==> FavoritesMenuUpdated(db, gameId, ok, sub, rebuilt, all)
    {
      sub, rebuilt, all := null, [], null;
      updated, ok := false, true;
      if gameId in favorites {
        favorites := RemoveFirst(favorites, gameId);
        updated := true;
        ok, sub, rebuilt, all := UpdateFavoriteGamesMenu(db, gameId);
      }
    }

    /**
     * `mOptChangeTableTile`: unless a drag or pause is being cancelled
     * (`busy`), and given at least two tiles, the tile after the current one
     * is asked for; `accepts` is whether `app.setTile` takes it, and only then
     * does the option follow.
     */
    method MOptChangeTableTile(busy: bool, count: nat, accepts: nat -> bool) returns (changed: bool)
      modifies this`tableTile
      ensures changed <==> !busy && count >= 2 && accepts(NextTile(old(tableTile), count))
      ensures tableTile == if changed then NextTile(old(tableTile), count) else old(tableTile)
    {
      changed := false;
      if busy {
        return;
      }
      if count >= 2 {
        var i := (tableTile + 1) % count;
        if accepts(i) {
          tableTile := i;
          changed := true;
        }
      }
    }
  }

  /**
   * The favourites submenu after its rebuild: past `4 * cb` games a single
   * "All games by name" cascade whose pages list the games sorted by name,
   * else one radio button per game in the order given.
   */
  predicate FavoritesLayout(rebuilt: seq<Entry>, all: Menu?, games: seq<GameInfo>, cb: ColumnLength)
    reads all, if all != null then SubmenusOf(all.entries) else {}
  {
    && FavoritesTop(rebuilt, all, games, cb)
    && (|games| > cb * 4 ==> all != null && Lists(all, 0, BlockItems(Paginate(SortByName(games), cb), false), cb))
  }

  /** The entries of the favourites submenu itself after its rebuild, leaving aside the pages of the cascade. */
  predicate FavoritesTop(rebuilt: seq<Entry>, all: Menu?, games: seq<GameInfo>, cb: ColumnLength) {
    if |games| > cb * 4 then
      && all != null
      && rebuilt == [EntryOf(Cascade, SubConfig(AllGamesTitle, FromLabel, None, all))]
    else rebuilt == RadioEntries(games, false, cb)
  }
}
