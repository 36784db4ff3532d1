/**
 * The game lists behind the "Select" menu: which games go in which submenu,
 * how long lists are cut into blocks of at most `cb_max` entries (the number
 * of entries that fit in one screen column), and the small list updates of
 * the favourites and the table-tile cycle. Everything here is a value; the
 * menus built from these values live in module TkMenubar.
 */
module Games {
  import opened Wrappers

  /** The fields of a game's `GameInfo` that the menus use. */
  datatype GameInfo = GameInfo(id: int, name: string, shortName: string, isMahjongg: bool)

  /**
   * One entry of a `select_data` table: a submenu label (None marks the place
   * of a separator) and the test that picks the games of that submenu.
   */
  datatype Selector = Selector(title: Option<string>, select: GameInfo -> bool)

  function Min(a: int, b: int): int { if a <= b then a else b }

  // ---------------------------------------------------------------------
  // filter() and _getNumGames
  // ---------------------------------------------------------------------

  /** Python's `filter(select, games)`: the games passing the test, in order. */
  function Filter(select: GameInfo -> bool, games: seq<GameInfo>): (r: seq<GameInfo>)
    ensures |r| <= |games|
    ensures forall g :: g in r <==> g in games && select(g)
  {
    if games == [] then []
    else (if select(games[0]) then [games[0]] else []) + Filter(select, games[1..])
  }

  lemma {:induction false} FilterAppend(select: GameInfo -> bool, a: seq<GameInfo>, b: seq<GameInfo>)
    ensures Filter(select, a + b) == Filter(select, a) + Filter(select, b)
  {
    if a == [] {
      assert a + b == b;
    } else {
      assert (a + b)[0] == a[0];
      assert (a + b)[1..] == a[1..] + b;
      FilterAppend(select, a[1..], b);
    }
  }

  /** `_getNumGames`: the number of games picked, summed over every selector. */
  function NumGames(games: seq<GameInfo>, data: seq<Selector>): (r: nat)
    ensures r == 0 <==> forall s, g :: s in data && g in games ==> !s.select(g)
  {
    if data == [] then 0
    else
      var here := Filter(data[0].select, games);
      assert here != [] ==> here[0] in here;
      |here| + NumGames(games, data[1..])
  }

  /**
   * `_addSelectSpecialGameSubMenu` as written: the "Special games" submenu is
   * built when some ORIENTAL selector picks a game.
   */
  predicate SpecialMenuShownAsWritten(games: seq<GameInfo>, oriental: seq<Selector>, special: seq<Selector>) {
    NumGames(games, oriental) != 0
  }

  /** The evident intent: build it when some SPECIAL selector picks a game. */
  predicate SpecialMenuShown(games: seq<GameInfo>, oriental: seq<Selector>, special: seq<Selector>) {
    NumGames(games, special) != 0
  }

  /** With the intended test the submenu appears exactly when it would not be empty. */
  lemma SpecialMenuShownIff(games: seq<GameInfo>, oriental: seq<Selector>, special: seq<Selector>)
    ensures SpecialMenuShown(games, oriental, special)
        <==> exists s, g :: s in special && g in games && s.select(g)
  {
  }

  /** One special game and no oriental game: as written, no "Special games" submenu. */
  lemma SpecialMenuCounterexample()
    ensures var games := [GameInfo(1, "Special", "Special", false)];
      var special := [Selector(Some("&Special"), (g: GameInfo) => true)];
      && !SpecialMenuShownAsWritten(games, [], special)
      && SpecialMenuShown(games, [], special)
  {
    var games := [GameInfo(1, "Special", "Special", false)];
    var special := [Selector(Some("&Special"), (g: GameInfo) => true)];
    assert special[0] in special && games[0] in games && special[0].select(games[0]);
  }

  // ---------------------------------------------------------------------
  // Column breaks
  // ---------------------------------------------------------------------

  /** `i > 0 and (i % cb) == 0`: entry i starts a new screen column. */
  predicate ColumnBreak(i: nat, cb: nat)
    requires cb > 0
  {
    i > 0 && i % cb == 0
  }

  // ---------------------------------------------------------------------
  // _addSelectGameSubMenu: submenus per category, separators between them
  // ---------------------------------------------------------------------

  /** What `_addSelectGameSubMenu` adds: a separator, or a submenu of games. */
  datatype PlanItem = SeparatorItem | SubmenuItem(title: string, games: seq<GameInfo>)

  /**
   * The items added for `data`, where `needSep` says that a None entry was met
   * since the last submenu. A separator is only added right before a submenu,
   * and a selector that picks no game adds nothing.
   */
  function SelectPlan(games: seq<GameInfo>, data: seq<Selector>, needSep: bool): seq<PlanItem>
    decreases |data|
  {
    if data == [] then []
    else match data[0].title
      case None => SelectPlan(games, data[1..], true)
      case Some(t) =>
        var g := Filter(data[0].select, games);
        if g == [] then SelectPlan(games, data[1..], needSep)
        else (if needSep then [SeparatorItem] else []) + [SubmenuItem(t, g)] + SelectPlan(games, data[1..], false)
  }

  /** The submenus of a plan, in order. */
  function Submenus(plan: seq<PlanItem>): seq<PlanItem> {
    if plan == [] then []
    else (if plan[0].SubmenuItem? then [plan[0]] else []) + Submenus(plan[1..])
  }

  /** The submenus a selector table asks for: every titled selector that picks some game. */
  function WantedSubmenus(games: seq<GameInfo>, data: seq<Selector>): seq<PlanItem>
    decreases |data|
  {
    if data == [] then []
    else
      var g := Filter(data[0].select, games);
      (if data[0].title.Some? && g != [] then [SubmenuItem(data[0].title.value, g)] else [])
        + WantedSubmenus(games, data[1..])
  }

  lemma {:induction false} SubmenusAppend(a: seq<PlanItem>, b: seq<PlanItem>)
    ensures Submenus(a + b) == Submenus(a) + Submenus(b)
  {
    if a == [] {
      assert a + b == b;
    } else {
      assert (a + b)[0] == a[0];
      assert (a + b)[1..] == a[1..] + b;
      SubmenusAppend(a[1..], b);
    }
  }

  /**
   * The plan's submenus are exactly the titled selectors that pick some game,
   * in table order, each with the games it picks.
   */
  lemma {:induction false} SelectPlanSubmenus(games: seq<GameInfo>, data: seq<Selector>, needSep: bool)
    ensures Submenus(SelectPlan(games, data, needSep)) == WantedSubmenus(games, data)
    decreases |data|
  {
    if data != [] {
      var g := Filter(data[0].select, games);
      match data[0].title
      case None =>
        SelectPlanSubmenus(games, data[1..], true);
      case Some(t) =>
        if g == [] {
          SelectPlanSubmenus(games, data[1..], needSep);
        } else {
          var rest := SelectPlan(games, data[1..], false);
          SelectPlanSubmenus(games, data[1..], false);
          var front := (if needSep then [SeparatorItem] else []) + [SubmenuItem(t, g)];
          assert SelectPlan(games, data, needSep) == front + rest;
          SubmenusAppend(front, rest);
          assert Submenus([SubmenuItem(t, g)]) == [SubmenuItem(t, g)];
          if needSep {
            assert Submenus([SeparatorItem] + [SubmenuItem(t, g)]) == Submenus([SubmenuItem(t, g)]) by {
              assert ([SeparatorItem] + [SubmenuItem(t, g)])[1..] == [SubmenuItem(t, g)];
            }
          } else {
            assert front == [SubmenuItem(t, g)];
          }
        }
    }
  }

  /**
   * No submenu of the plan is empty, and every separator is followed at once
   * by a submenu, so none is last and no two are adjacent.
   */
  predicate WellFormedPlan(plan: seq<PlanItem>) {
    && (forall i :: 0 <= i < |plan| && plan[i].SeparatorItem? ==> i + 1 < |plan| && plan[i + 1].SubmenuItem?)
    && (forall i :: 0 <= i < |plan| && plan[i].SubmenuItem? ==> plan[i].games != [])
  }

  /** Every plan `_addSelectGameSubMenu` follows is well formed. */
  lemma {:induction false} SelectPlanSeparators(games: seq<GameInfo>, data: seq<Selector>, needSep: bool)
    ensures WellFormedPlan(SelectPlan(games, data, needSep))
    decreases |data|
  {
    if data != [] {
      var g := Filter(data[0].select, games);
      match data[0].title
      case None =>
        SelectPlanSeparators(games, data[1..], true);
        assert SelectPlan(games, data, needSep) == SelectPlan(games, data[1..], true);
      case Some(t) =>
        if g == [] {
          SelectPlanSeparators(games, data[1..], needSep);
          assert SelectPlan(games, data, needSep) == SelectPlan(games, data[1..], needSep);
        } else {
          var rest := SelectPlan(games, data[1..], false);
          SelectPlanSeparators(games, data[1..], false);
          var item := SubmenuItem(t, g);
          WellFormedConsSubmenu(item, rest);
          if needSep {
            WellFormedConsSeparator([item] + rest);
            assert SelectPlan(games, data, needSep) == [SeparatorItem] + ([item] + rest);
          } else {
            assert SelectPlan(games, data, needSep) == [item] + rest;
          }
        }
    }
  }

  /** A submenu with games in front of a well-formed plan keeps it well formed. */
  lemma WellFormedConsSubmenu(item: PlanItem, rest: seq<PlanItem>)
    requires item.SubmenuItem? && item.games != [] && WellFormedPlan(rest)
    ensures WellFormedPlan([item] + rest)
  {
    var plan := [item] + rest;
    forall i | 0 < i < |plan|
      ensures plan[i] == rest[i - 1]
    {
    }
  }

  /** A separator in front of a well-formed plan that starts with a submenu keeps it well formed. */
  lemma WellFormedConsSeparator(rest: seq<PlanItem>)
    requires rest != [] && rest[0].SubmenuItem? && WellFormedPlan(rest)
    ensures WellFormedPlan([SeparatorItem] + rest)
  {
    var plan := [SeparatorItem] + rest;
    forall i | 0 < i < |plan|
      ensures plan[i] == rest[i - 1]
    {
    }
  }

  /** A selector that gets a submenu: it has a title and picks some game. */
  predicate Picks(games: seq<GameInfo>, s: Selector) {
    s.title.Some? && Filter(s.select, games) != []
  }

  /**
   * A separator is owed before the next submenu after `data`: some None entry
   * of `data` has no picking selector after it, or one was owed already
   * (`needSep`) and no selector of `data` picks.
   */
  predicate SeparatorDue(games: seq<GameInfo>, data: seq<Selector>, needSep: bool) {
    || (exists j :: 0 <= j < |data| && data[j].title.None? && forall l :: j < l < |data| ==> !Picks(games, data[l]))
    || (needSep && forall l :: 0 <= l < |data| ==> !Picks(games, data[l]))
  }

  /** `need_sep` after the loop body has seen selector `s`. */
  function NextNeedSep(games: seq<GameInfo>, s: Selector, needSep: bool): bool {
    if s.title.None? then true else if Picks(games, s) then false else needSep
  }

  /** The items the loop body adds for selector `s`. */
  function HeadItems(games: seq<GameInfo>, s: Selector, needSep: bool): seq<PlanItem> {
    if Picks(games, s) then (if needSep then [SeparatorItem] else []) + [SubmenuItem(s.title.value, Filter(s.select, games))]
    else []
  }

  /** One turn of the loop: the items for the first selector, then the rest with the updated flag. */
  lemma SelectPlanCons(games: seq<GameInfo>, data: seq<Selector>, needSep: bool)
    requires data != []
    ensures SelectPlan(games, data, needSep)
         == HeadItems(games, data[0], needSep) + SelectPlan(games, data[1..], NextNeedSep(games, data[0], needSep))
  {
  }

  /** `need_sep` after the loop has gone through `data`. */
  function Pending(games: seq<GameInfo>, data: seq<Selector>, needSep: bool): bool
    decreases |data|
  {
    if data == [] then needSep else Pending(games, data[1..], NextNeedSep(games, data[0], needSep))
  }

  /** The plan of a table in two parts: the second part starts with the first part's `need_sep`. */
  lemma {:induction false} SelectPlanAppend(games: seq<GameInfo>, a: seq<Selector>, b: seq<Selector>, needSep: bool)
    ensures SelectPlan(games, a + b, needSep) == SelectPlan(games, a, needSep) + SelectPlan(games, b, Pending(games, a, needSep))
    decreases |a|
  {
    if a == [] {
      assert a + b == b;
    } else {
      var next := NextNeedSep(games, a[0], needSep);
      assert (a + b)[0] == a[0];
      assert (a + b)[1..] == a[1..] + b;
      SelectPlanCons(games, a + b, needSep);
      SelectPlanCons(games, a, needSep);
      SelectPlanAppend(games, a[1..], b, next);
    }
  }

  /** The loop's `need_sep` is exactly whether a separator is owed. */
  lemma {:induction false} PendingIff(games: seq<GameInfo>, data: seq<Selector>, needSep: bool)
    ensures Pending(games, data, needSep) <==> SeparatorDue(games, data, needSep)
    decreases |data|
  {
    if data != [] {
      var rest := data[1..];
      var next := NextNeedSep(games, data[0], needSep);
      PendingIff(games, rest, next);
      SeparatorDueCons(games, data, needSep, next);
    }
  }

  /** `SeparatorDue` from the front: the first selector updates the flag, the rest decide. */
  lemma SeparatorDueCons(games: seq<GameInfo>, data: seq<Selector>, needSep: bool, next: bool)
    requires data != []
    requires next == NextNeedSep(games, data[0], needSep)
    ensures SeparatorDue(games, data[1..], next) <==> SeparatorDue(games, data, needSep)
  {
    var rest := data[1..];
    assert forall l :: 0 < l < |data| ==> data[l] == rest[l - 1];
    if SeparatorDue(games, data, needSep) {
      if j :| 0 <= j < |data| && data[j].title.None? && forall l :: j < l < |data| ==> !Picks(games, data[l]) {
        if j > 0 {
          assert rest[j - 1].title.None?;
          assert forall l :: j - 1 < l < |rest| ==> !Picks(games, rest[l]);
        } else {
          assert forall l :: 0 <= l < |rest| ==> !Picks(games, rest[l]);
        }
      } else {
        assert forall l :: 0 <= l < |rest| ==> !Picks(games, rest[l]);
      }
    }
    if SeparatorDue(games, rest, next) {
      if j :| 0 <= j < |rest| && rest[j].title.None? && forall l :: j < l < |rest| ==> !Picks(games, rest[l]) {
        assert data[j + 1].title.None?;
        assert forall l :: j + 1 < l < |data| ==> !Picks(games, data[l]);
      } else if data[0].title.None? {
        assert forall l :: 0 < l < |data| ==> !Picks(games, data[l]);
      } else {
        assert forall l :: 0 <= l < |data| ==> !Picks(games, data[l]);
      }
    }
  }

  /**
   * The items `_addSelectGameSubMenu` adds around the submenu of a picking
   * selector `k`: those of the selectors before it, then a separator exactly
   * when one is owed, then the submenu, then those of the selectors after it,
   * none owed.
   */
  lemma SelectPlanAt(games: seq<GameInfo>, data: seq<Selector>, needSep: bool, k: nat)
    requires k < |data| && Picks(games, data[k])
    ensures SelectPlan(games, data, needSep)
         == SelectPlan(games, data[..k], needSep)
            + (if SeparatorDue(games, data[..k], needSep) then [SeparatorItem] else [])
            + [SubmenuItem(data[k].title.value, Filter(data[k].select, games))]
            + SelectPlan(games, data[k + 1..], false)
  {
    assert data == data[..k] + data[k..];
    SelectPlanAppend(games, data[..k], data[k..], needSep);
    PendingIff(games, data[..k], needSep);
    assert data[k..][0] == data[k];
    assert data[k..][1..] == data[k + 1..];
  }

  /** With no selector picking, nothing is added: a trailing None entry adds no separator. */
  lemma {:induction false} SelectPlanEmpty(games: seq<GameInfo>, data: seq<Selector>, needSep: bool)
    requires forall l :: 0 <= l < |data| ==> !Picks(games, data[l])
    ensures SelectPlan(games, data, needSep) == []
    decreases |data|
  {
    if data != [] {
      assert !Picks(games, data[0]);
      assert forall l :: 0 <= l < |data| - 1 ==> data[1..][l] == data[l + 1];
      SelectPlanEmpty(games, data[1..], true);
      SelectPlanEmpty(games, data[1..], needSep);
    }
  }

  // ---------------------------------------------------------------------
  // Mahjongg games: grouped by the initial of the short name, then coalesced
  // ---------------------------------------------------------------------

  /** The characters `str.strip()` removes (space, tab, line feed, VT, FF, CR). */
  predicate IsSpace(c: char) {
    c == ' ' || 9 <= c as int <= 13
  }

  /** `short_name.strip()[0]`; None where that raises IndexError (a blank short name). */
  function Initial(s: string): (r: Option<char>)
    ensures r.None? <==> forall i :: 0 <= i < |s| ==> IsSpace(s[i])
    ensures r.Some? ==> exists i :: 0 <= i < |s| && s[i] == r.value && !IsSpace(s[i])
                          && forall j :: 0 <= j < i ==> IsSpace(s[j])
  {
    if s == [] then None
    else if !IsSpace(s[0]) then Some(s[0])
    else
      var r := Initial(s[1..]);
      assert forall i :: 1 <= i < |s| ==> s[i] == s[1..][i - 1];
      r
  }

  /** The Mahjongg games filed under one initial character. */
  datatype Group = Group(initial: char, games: seq<GameInfo>)

  /** The games whose short name starts with `c`, in input order. */
  function WithInitial(games: seq<GameInfo>, c: char): seq<GameInfo> {
    Filter((g: GameInfo) => Initial(g.shortName) == Some(c), games)
  }

  /**
   * `groups` is `sorted(d.items())` for the dictionary that files every game
   * under its initial: one group per initial, initials strictly increasing,
   * each group holding that initial's games in input order.
   */
  predicate IsGrouping(games: seq<GameInfo>, groups: seq<Group>) {
    && (forall i, j :: 0 <= i < j < |groups| ==> groups[i].initial < groups[j].initial)
    && (forall i :: 0 <= i < |groups| ==> groups[i].games == WithInitial(games, groups[i].initial))
    && (forall i :: 0 <= i < |groups| ==> groups[i].games != [])
    && (forall g :: g in games ==> exists i :: 0 <= i < |groups| && Some(groups[i].initial) == Initial(g.shortName))
  }

  /** A non-empty set of characters has a least element. */
  lemma {:induction false} MinOf(s: set<char>) returns (m: char)
    requires s != {}
    ensures m in s && forall d :: d in s ==> m <= d
    decreases |s|
  {
    var x :| x in s;
    var t := s - {x};
    if t == {} {
      m := x;
      forall d | d in s
        ensures m <= d
      {
        assert d == x || d in t;
      }
    } else {
      var y := MinOf(t);
      m := if x < y then x else y;
      forall d | d in s
        ensures m <= d
      {
        if d != x {
          assert d in t;
        }
      }
    }
  }

  lemma WithInitialSnoc(games: seq<GameInfo>, i: nat, c: char)
    requires i < |games|
    ensures WithInitial(games[..i + 1], c)
         == WithInitial(games[..i], c) + (if Initial(games[i].shortName) == Some(c) then [games[i]] else [])
  {
    assert games[..i + 1] == games[..i] + [games[i]];
    FilterAppend((g: GameInfo) => Initial(g.shortName) == Some(c), games[..i], [games[i]]);
  }

  function Initials(groups: seq<Group>): set<char> {
    set j | 0 <= j < |groups| :: groups[j].initial
  }

  /** `sorted(d.items())`, items having distinct keys: the entries in increasing key order. */
  method SortedItems(d: map<char, seq<GameInfo>>) returns (groups: seq<Group>)
    ensures forall j :: 0 <= j < |groups| ==> groups[j].initial in d && groups[j].games == d[groups[j].initial]
    ensures forall c :: c in d ==> exists j :: 0 <= j < |groups| && groups[j].initial == c
    ensures forall j, k :: 0 <= j < k < |groups| ==> groups[j].initial < groups[k].initial
  {
    var keys := d.Keys;
    groups := [];
    while keys != {}
      invariant keys <= d.Keys
      invariant Initials(groups) == d.Keys - keys
      invariant forall j :: 0 <= j < |groups| ==> groups[j].initial in d && groups[j].games == d[groups[j].initial]
      invariant forall j, k :: 0 <= j < k < |groups| ==> groups[j].initial < groups[k].initial
      invariant forall j, c :: 0 <= j < |groups| && c in keys ==> groups[j].initial < c
      decreases keys
    {
      ghost var least := MinOf(keys);
      var c :| c in keys && forall e :: e in keys ==> c <= e;
      ghost var before := groups;
      groups := groups + [Group(c, d[c])];
      keys := keys - {c};
      assert Initials(groups) == Initials(before) + {c} by {
        assert forall j :: 0 <= j < |before| ==> groups[j] == before[j];
        assert groups[|before|].initial == c;
      }
    }
    forall c | c in d
      ensures exists j :: 0 <= j < |groups| && groups[j].initial == c
    {
      assert c in Initials(groups);
    }
  }

  /** The initials of the games that have one. */
  function InitialsOf(games: seq<GameInfo>): set<char> {
    set j | 0 <= j < |games| && Initial(games[j].shortName).Some? :: Initial(games[j].shortName).value
  }

  lemma {:induction false} NoGamesWithInitial(games: seq<GameInfo>, c: char)
    requires forall j :: 0 <= j < |games| ==> Initial(games[j].shortName) != Some(c)
    ensures WithInitial(games, c) == []
  {
    if games != [] {
      NoGamesWithInitial(games[1..], c);
    }
  }

  /** After the first `i` games: the dictionary files each under its initial. */
  predicate Filed(games: seq<GameInfo>, i: nat, d: map<char, seq<GameInfo>>)
    requires i <= |games|
  {
    && (forall j :: 0 <= j < i ==> Initial(games[j].shortName).Some?)
    && d.Keys == InitialsOf(games[..i])
    && (forall c :: c in d ==> d[c] == WithInitial(games[..i], c) && d[c] != [])
  }

  /** One turn of the dictionary loop: `d.setdefault(c, []).append(gi)`. */
  lemma FiledStep(games: seq<GameInfo>, i: nat, d: map<char, seq<GameInfo>>, c: char)
    requires i < |games| && Filed(games, i, d)
    requires Initial(games[i].shortName) == Some(c)
    ensures Filed(games, i + 1, d[c := if c in d then d[c] + [games[i]] else [games[i]]])
  {
    var d' := d[c := if c in d then d[c] + [games[i]] else [games[i]]];
    InitialsOfSnoc(games, i, c);
    assert d'.Keys == d.Keys + {c};
    FiledLists(games, i, d, c);
  }

  lemma FiledLists(games: seq<GameInfo>, i: nat, d: map<char, seq<GameInfo>>, c: char)
    requires i < |games| && Filed(games, i, d)
    requires Initial(games[i].shortName) == Some(c)
    ensures var d' := d[c := if c in d then d[c] + [games[i]] else [games[i]]];
      forall k :: k in d' ==> d'[k] == WithInitial(games[..i + 1], k) && d'[k] != []
  {
    var d' := d[c := if c in d then d[c] + [games[i]] else [games[i]]];
    forall k | k in d'
      ensures d'[k] == WithInitial(games[..i + 1], k) && d'[k] != []
    {
      FiledKey(games, i, d, c, k);
    }
  }

  lemma InitialsOfSnoc(games: seq<GameInfo>, i: nat, c: char)
    requires i < |games| && Initial(games[i].shortName) == Some(c)
    ensures InitialsOf(games[..i + 1]) == InitialsOf(games[..i]) + {c}
  {
    assert forall j :: 0 <= j < i ==> games[..i + 1][j] == games[..i][j];
    assert games[..i + 1][i] == games[i];
  }

  /** The list filed under `k` after game `i` is appended under its initial `c`. */
  lemma FiledKey(games: seq<GameInfo>, i: nat, d: map<char, seq<GameInfo>>, c: char, k: char)
    requires i < |games| && Filed(games, i, d)
    requires Initial(games[i].shortName) == Some(c)
    requires k == c || k in d
    ensures var e := if k != c then d[k] else if c in d then d[c] + [games[i]] else [games[i]];
      e == WithInitial(games[..i + 1], k) && e != []
  {
    WithInitialSnoc(games, i, k);
    if k == c && c !in d {
      forall j | 0 <= j < i
        ensures Initial(games[..i][j].shortName) != Some(c)
      {
      }
      NoGamesWithInitial(games[..i], c);
    }
  }

  /** The sorted items of a complete dictionary are the grouping of the games. */
  lemma FiledGrouping(games: seq<GameInfo>, d: map<char, seq<GameInfo>>, groups: seq<Group>)
    requires Filed(games, |games|, d)
    requires forall j :: 0 <= j < |groups| ==> groups[j].initial in d && groups[j].games == d[groups[j].initial]
    requires forall c :: c in d ==> exists j :: 0 <= j < |groups| && groups[j].initial == c
    requires forall j, k :: 0 <= j < k < |groups| ==> groups[j].initial < groups[k].initial
    ensures IsGrouping(games, groups)
  {
    assert games[..|games|] == games;
    forall g | g in games
      ensures exists j :: 0 <= j < |groups| && Some(groups[j].initial) == Initial(g.shortName)
    {
      var k :| 0 <= k < |games| && games[k] == g;
      assert Initial(games[k].shortName).value in InitialsOf(games);
    }
  }

  /**
   * The dictionary loop and sort of `_addSelectMahjonggGameSubMenu`. None when
   * some short name is blank, where the source raises IndexError.
   */
  method GroupByInitial(games: seq<GameInfo>) returns (r: Option<seq<Group>>)
    ensures r.None? <==> exists g :: g in games && Initial(g.shortName).None?
    ensures r.Some? ==> IsGrouping(games, r.value)
  {
    var d: map<char, seq<GameInfo>> := map[];
    var i := 0;
    while i < |games|
      invariant 0 <= i <= |games|
      invariant Filed(games, i, d)
    {
      var c := Initial(games[i].shortName);
      if c.None? {
        assert games[i] in games;
        return None;
      }
      FiledStep(games, i, d, c.value);
      if c.value in d {
        d := d[c.value := d[c.value] + [games[i]]];
      } else {
        d := d[c.value := [games[i]]];
      }
      i := i + 1;
    }
    var groups := SortedItems(d);
    FiledGrouping(games, d, groups);
    forall g | g in games
      ensures Initial(g.shortName).Some?
    {
      var k :| 0 <= k < |games| && games[k] == g;
    }
    r := Some(groups);
  }

  /** All games of a run of groups, in order. */
  function Concat(groups: seq<Group>): seq<GameInfo> {
    if groups == [] then [] else groups[0].games + Concat(groups[1..])
  }

  lemma {:induction false} ConcatAppend(a: seq<Group>, b: seq<Group>)
    ensures Concat(a + b) == Concat(a) + Concat(b)
  {
    if a == [] {
      assert a + b == b;
    } else {
      assert (a + b)[0] == a[0];
      assert (a + b)[1..] == a[1..] + b;
      ConcatAppend(a[1..], b);
    }
  }

  lemma ConcatSnoc(groups: seq<Group>, lo: nat, i: nat)
    requires lo <= i < |groups|
    ensures Concat(groups[lo..i + 1]) == Concat(groups[lo..i]) + groups[i].games
  {
    assert groups[lo..i + 1] == groups[lo..i] + [groups[i]];
    ConcatAppend(groups[lo..i], [groups[i]]);
    assert Concat([groups[i]]) == groups[i].games + Concat([]);
  }

  lemma ConcatNonEmpty(groups: seq<Group>, lo: nat, hi: nat)
    requires lo < hi <= |groups|
    requires forall k :: 0 <= k < |groups| ==> groups[k].games != []
    ensures Concat(groups[lo..hi]) != []
  {
    assert groups[lo..hi][0] == groups[lo];
  }

  /** A block of the greedy grouping: groups `lo` up to but excluding `hi`. */
  datatype Run = Run(lo: nat, hi: nat)

  function Flush(lo: nat, i: nat): seq<Run> {
    if lo < i then [Run(lo, i)] else []
  }

  /**
   * The greedy loop from group `i` on, with groups `lo..i` accumulated and
   * `size` games in them: a group that would bring the block to `cb` games or
   * more closes the block (an empty block is dropped) and starts the next one.
   */
  function RunsFrom(groups: seq<Group>, cb: nat, lo: nat, i: nat, size: nat): seq<Run>
    requires lo <= i <= |groups|
    decreases |groups| - i
  {
    if i == |groups| then Flush(lo, i)
    else if size + |groups[i].games| >= cb then Flush(lo, i) + RunsFrom(groups, cb, i, i + 1, |groups[i].games|)
    else RunsFrom(groups, cb, lo, i + 1, size + |groups[i].games|)
  }

  function Coalesce(groups: seq<Group>, cb: nat): seq<Run> {
    RunsFrom(groups, cb, 0, 0, 0)
  }

  /** The runs cover `lo..hi` with consecutive, non-empty ranges. */
  predicate Tiles(runs: seq<Run>, lo: nat, hi: nat) {
    && |runs| > 0
    && runs[0].lo == lo
    && runs[|runs| - 1].hi == hi
    && (forall k :: 0 <= k < |runs| ==> runs[k].lo < runs[k].hi)
    && (forall k :: 0 <= k < |runs| - 1 ==> runs[k].hi == runs[k + 1].lo)
  }

  function Size(groups: seq<Group>, r: Run): nat
    requires r.lo <= r.hi <= |groups|
  {
    |Concat(groups[r.lo..r.hi])|
  }

  /** The state of the greedy loop before group `i`: groups `lo..i` are accumulated, `size` games in all. */
  predicate Accumulated(groups: seq<Group>, cb: nat, lo: nat, i: nat, size: nat) {
    && lo <= i <= |groups|
    && size == |Concat(groups[lo..i])|
    && (lo == i ==> i == 0 && size == 0)
    && (i - lo >= 2 ==> size < cb)
  }

  /** Closing a block at `i` starts the next one with group `i` alone. */
  lemma RestartAccumulated(groups: seq<Group>, cb: nat, i: nat)
    requires i < |groups|
    ensures Accumulated(groups, cb, i, i + 1, |groups[i].games|)
  {
    assert groups[i..i + 1] == [groups[i]];
    assert Concat([groups[i]]) == groups[i].games + Concat([]);
  }

  /** Every run is a range of existing groups. */
  predicate InRange(groups: seq<Group>, runs: seq<Run>) {
    forall k :: 0 <= k < |runs| ==> runs[k].lo <= runs[k].hi <= |groups|
  }

  /** A run of two or more groups holds fewer than `cb` games. */
  predicate MultiGroupRunsFit(groups: seq<Group>, cb: nat, runs: seq<Run>)
    requires InRange(groups, runs)
  {
    forall k :: 0 <= k < |runs| && runs[k].hi - runs[k].lo >= 2 ==> Size(groups, runs[k]) < cb
  }

  /** Every run but the last was closed because its next group would have brought it to `cb` games. */
  predicate ClosedWhenFull(groups: seq<Group>, cb: nat, runs: seq<Run>)
    requires InRange(groups, runs)
  {
    forall k :: 0 <= k < |runs| - 1 ==>
      runs[k].hi < |groups| && Size(groups, runs[k]) + |groups[runs[k].hi].games| >= cb
  }

  /** A run in front of runs that tile from its end tiles from its start. */
  lemma TilesCons(r: Run, rest: seq<Run>, hi: nat)
    requires r.lo < r.hi && Tiles(rest, r.hi, hi)
    ensures Tiles([r] + rest, r.lo, hi)
  {
    var runs := [r] + rest;
    assert forall k :: 1 <= k < |runs| ==> runs[k] == rest[k - 1];
  }

  /** A run that fits, in front of runs that fit. */
  lemma BoundedCons(groups: seq<Group>, cb: nat, r: Run, rest: seq<Run>)
    requires r.lo <= r.hi <= |groups| && (r.hi - r.lo >= 2 ==> Size(groups, r) < cb)
    requires InRange(groups, rest) && MultiGroupRunsFit(groups, cb, rest)
    ensures InRange(groups, [r] + rest) && MultiGroupRunsFit(groups, cb, [r] + rest)
  {
    var runs := [r] + rest;
    assert forall k :: 1 <= k < |runs| ==> runs[k] == rest[k - 1];
  }

  /** A run closed by its next group, in front of runs closed when full. */
  lemma ClosedCons(groups: seq<Group>, cb: nat, r: Run, rest: seq<Run>)
    requires r.lo <= r.hi < |groups| && Size(groups, r) + |groups[r.hi].games| >= cb
    requires InRange(groups, rest) && ClosedWhenFull(groups, cb, rest)
    ensures InRange(groups, [r] + rest) && ClosedWhenFull(groups, cb, [r] + rest)
  {
    var runs := [r] + rest;
    assert forall k :: 1 <= k < |runs| ==> runs[k] == rest[k - 1];
  }

  /** The runs of the greedy loop cover the groups left, in order, with consecutive non-empty ranges. */
  lemma {:induction false} RunsTile(groups: seq<Group>, cb: nat, lo: nat, i: nat, size: nat)
    requires Accumulated(groups, cb, lo, i, size)
    ensures lo < |groups| ==> Tiles(RunsFrom(groups, cb, lo, i, size), lo, |groups|)
    ensures lo == |groups| ==> RunsFrom(groups, cb, lo, i, size) == []
    decreases |groups| - i
  {
    var runs := RunsFrom(groups, cb, lo, i, size);
    if i == |groups| {
      if lo < i {
        assert runs == [Run(lo, i)];
      }
    } else if size + |groups[i].games| >= cb {
      RestartAccumulated(groups, cb, i);
      RunsTile(groups, cb, i, i + 1, |groups[i].games|);
      var rest := RunsFrom(groups, cb, i, i + 1, |groups[i].games|);
      if lo < i {
        assert runs == [Run(lo, i)] + rest;
        TilesCons(Run(lo, i), rest, |groups|);
      } else {
        assert runs == rest;
      }
    } else {
      ConcatSnoc(groups, lo, i);
      assert runs == RunsFrom(groups, cb, lo, i + 1, size + |groups[i].games|);
      RunsTile(groups, cb, lo, i + 1, size + |groups[i].games|);
    }
  }

  /** The runs are ranges of groups, and those of two or more groups hold fewer than `cb` games. */
  lemma {:induction false} RunsBounded(groups: seq<Group>, cb: nat, lo: nat, i: nat, size: nat)
    requires Accumulated(groups, cb, lo, i, size)
    ensures InRange(groups, RunsFrom(groups, cb, lo, i, size))
    ensures MultiGroupRunsFit(groups, cb, RunsFrom(groups, cb, lo, i, size))
    decreases |groups| - i
  {
    var runs := RunsFrom(groups, cb, lo, i, size);
    if i == |groups| {
      if lo < i {
        assert runs == [Run(lo, i)] + [];
        BoundedCons(groups, cb, Run(lo, i), []);
      }
    } else if size + |groups[i].games| >= cb {
      RestartAccumulated(groups, cb, i);
      RunsBounded(groups, cb, i, i + 1, |groups[i].games|);
      var rest := RunsFrom(groups, cb, i, i + 1, |groups[i].games|);
      if lo < i {
        assert runs == [Run(lo, i)] + rest;
        BoundedCons(groups, cb, Run(lo, i), rest);
      } else {
        assert runs == rest;
      }
    } else {
      ConcatSnoc(groups, lo, i);
      assert runs == RunsFrom(groups, cb, lo, i + 1, size + |groups[i].games|);
      RunsBounded(groups, cb, lo, i + 1, size + |groups[i].games|);
    }
  }

  /** A run was closed only because adding the next group would have reached `cb` games. */
  lemma {:induction false} RunsMaximal(groups: seq<Group>, cb: nat, lo: nat, i: nat, size: nat)
    requires Accumulated(groups, cb, lo, i, size)
    ensures InRange(groups, RunsFrom(groups, cb, lo, i, size))
    ensures ClosedWhenFull(groups, cb, RunsFrom(groups, cb, lo, i, size))
    decreases |groups| - i
  {
    var runs := RunsFrom(groups, cb, lo, i, size);
    if i == |groups| {
      if lo < i {
        assert runs == [Run(lo, i)];
      }
    } else if size + |groups[i].games| >= cb {
      RestartAccumulated(groups, cb, i);
      RunsMaximal(groups, cb, i, i + 1, |groups[i].games|);
      var rest := RunsFrom(groups, cb, i, i + 1, |groups[i].games|);
      if lo < i {
        assert runs == [Run(lo, i)] + rest;
        ClosedCons(groups, cb, Run(lo, i), rest);
      } else {
        assert runs == rest;
      }
    } else {
      ConcatSnoc(groups, lo, i);
      assert runs == RunsFrom(groups, cb, lo, i + 1, size + |groups[i].games|);
      RunsMaximal(groups, cb, lo, i + 1, size + |groups[i].games|);
    }
  }

  /**
   * The greedy grouping of the Mahjongg menu: the blocks cover all groups in
   * order without splitting one; a block of several groups has fewer than
   * `cb` games; and no block could have taken the next group in as well.
   */
  lemma CoalesceShape(groups: seq<Group>, cb: nat)
    ensures groups != [] ==> Tiles(Coalesce(groups, cb), 0, |groups|)
    ensures groups == [] ==> Coalesce(groups, cb) == []
    ensures InRange(groups, Coalesce(groups, cb))
    ensures MultiGroupRunsFit(groups, cb, Coalesce(groups, cb))
    ensures ClosedWhenFull(groups, cb, Coalesce(groups, cb))
  {
    assert Accumulated(groups, cb, 0, 0, 0);
    RunsTile(groups, cb, 0, 0, 0);
    RunsBounded(groups, cb, 0, 0, 0);
    RunsMaximal(groups, cb, 0, 0, 0);
  }

  /** The label of a block: `c0 - c1`, or `c0` alone when both ends have the same initial. */
  function RangeLabel(c0: char, c1: char): string {
    if c0 == c1 then [c0] else [c0] + " - " + [c1]
  }

  /** One submenu of games. `columnbreak` is set on its cascade entry. */
  datatype Block = Block(title: string, games: seq<GameInfo>, columnbreak: bool)

  function RunBlock(groups: seq<Group>, r: Run): Block {
    if r.lo < r.hi <= |groups| then
      Block(RangeLabel(groups[r.lo].initial, groups[r.hi - 1].initial), Concat(groups[r.lo..r.hi]), false)
    else Block([], [], false)
  }

  function BlocksOf(groups: seq<Group>, runs: seq<Run>): (r: seq<Block>)
    ensures |r| == |runs|
    ensures forall k :: 0 <= k < |runs| ==> r[k] == RunBlock(groups, runs[k])
  {
    if runs == [] then [] else [RunBlock(groups, runs[0])] + BlocksOf(groups, runs[1..])
  }

  lemma {:induction false} BlocksOfAppend(groups: seq<Group>, a: seq<Run>, b: seq<Run>)
    ensures BlocksOf(groups, a + b) == BlocksOf(groups, a) + BlocksOf(groups, b)
  {
    if a == [] {
      assert a + b == b;
    } else {
      assert (a + b)[0] == a[0];
      assert (a + b)[1..] == a[1..] + b;
      BlocksOfAppend(groups, a[1..], b);
    }
  }

  /** The submenus `_addSelectMahjonggGameSubMenu` creates, in order. */
  function MahjonggBlocks(groups: seq<Group>, cb: nat): seq<Block> {
    BlocksOf(groups, Coalesce(groups, cb))
  }

  lemma BlocksAtClose(groups: seq<Group>, cb: nat, lo: nat, i: nat, size: nat)
    requires lo <= i < |groups| && size + |groups[i].games| >= cb
    ensures BlocksOf(groups, RunsFrom(groups, cb, lo, i, size))
         == BlocksOf(groups, Flush(lo, i)) + BlocksOf(groups, RunsFrom(groups, cb, i, i + 1, |groups[i].games|))
  {
    BlocksOfAppend(groups, Flush(lo, i), RunsFrom(groups, cb, i, i + 1, |groups[i].games|));
  }

  lemma FlushBlock(groups: seq<Group>, lo: nat, i: nat)
    requires lo < i <= |groups|
    ensures BlocksOf(groups, Flush(lo, i))
         == [Block(RangeLabel(groups[lo].initial, groups[i - 1].initial), Concat(groups[lo..i]), false)]
  {
    assert Flush(lo, i) == [Run(lo, i)];
    BlocksOfSingle(groups, Run(lo, i));
    RunBlockRange(groups, lo, i);
  }

  lemma RunBlockRange(groups: seq<Group>, lo: nat, i: nat)
    requires lo < i <= |groups|
    ensures RunBlock(groups, Run(lo, i))
         == Block(RangeLabel(groups[lo].initial, groups[i - 1].initial), Concat(groups[lo..i]), false)
  {
  }

  lemma BlocksOfSingle(groups: seq<Group>, r: Run)
    ensures BlocksOf(groups, [r]) == [RunBlock(groups, r)]
  {
    assert [r][1..] == [];
  }

  /**
   * The state of the greedy loop before group `i`: `g0` holds groups `lo..i`,
   * `c0` and `c1` are their first and last initials, and `blocks` followed by
   * the blocks still to come make up the whole Mahjongg menu.
   */
  predicate CoalesceState(groups: seq<Group>, cb: nat, lo: nat, i: nat, g0: seq<GameInfo>, c0: char, c1: char, blocks: seq<Block>) {
    && lo <= i <= |groups|
    && g0 == Concat(groups[lo..i])
    && (lo == i ==> i == 0)
    && (lo < |groups| ==> c0 == groups[lo].initial)
    && (lo < i ==> c1 == groups[i - 1].initial)
    && blocks + BlocksOf(groups, RunsFrom(groups, cb, lo, i, |g0|)) == MahjonggBlocks(groups, cb)
  }

  /** `add_menu(g0, c0, c1)`: a block for the accumulated games, none when there are none. */
  function AddMenu(blocks: seq<Block>, g0: seq<GameInfo>, c0: char, c1: char): seq<Block> {
    if g0 != [] then blocks + [Block(RangeLabel(c0, c1), g0, false)] else blocks
  }

  lemma CloseStep(groups: seq<Group>, cb: nat, lo: nat, i: nat, g0: seq<GameInfo>, c0: char, c1: char, blocks: seq<Block>)
    requires forall k :: 0 <= k < |groups| ==> groups[k].games != []
    requires CoalesceState(groups, cb, lo, i, g0, c0, c1, blocks)
    requires i < |groups| && |g0| + |groups[i].games| >= cb
    ensures CoalesceState(groups, cb, i, i + 1, groups[i].games, groups[i].initial, groups[i].initial,
                          AddMenu(blocks, g0, c0, c1))
  {
    CloseBlocks(groups, cb, lo, i, g0, c0, c1, blocks);
    ConcatOne(groups, i);
  }

  /** Closing the block at group `i` keeps the blocks made and to come equal to the whole menu. */
  lemma CloseBlocks(groups: seq<Group>, cb: nat, lo: nat, i: nat, g0: seq<GameInfo>, c0: char, c1: char, blocks: seq<Block>)
    requires forall k :: 0 <= k < |groups| ==> groups[k].games != []
    requires CoalesceState(groups, cb, lo, i, g0, c0, c1, blocks)
    requires i < |groups| && |g0| + |groups[i].games| >= cb
    ensures AddMenu(blocks, g0, c0, c1) + BlocksOf(groups, RunsFrom(groups, cb, i, i + 1, |groups[i].games|))
         == MahjonggBlocks(groups, cb)
  {
    var rest := BlocksOf(groups, RunsFrom(groups, cb, i, i + 1, |groups[i].games|));
    var before := BlocksOf(groups, RunsFrom(groups, cb, lo, i, |g0|));
    BlocksAtClose(groups, cb, lo, i, |g0|);
    if lo < i {
      ConcatNonEmpty(groups, lo, i);
      FlushBlock(groups, lo, i);
      var b := Block(RangeLabel(c0, c1), g0, false);
      assert before == [b] + rest;
      assert AddMenu(blocks, g0, c0, c1) + rest == blocks + before;
    } else {
      assert groups[lo..i] == [];
      assert before == rest;
    }
  }

  lemma ConcatOne(groups: seq<Group>, i: nat)
    requires i < |groups|
    ensures Concat(groups[i..i + 1]) == groups[i].games
  {
    assert groups[i..i + 1] == [groups[i]];
    assert Concat([groups[i]]) == groups[i].games + Concat([]);
  }

  lemma GrowStep(groups: seq<Group>, cb: nat, lo: nat, i: nat, g0: seq<GameInfo>, c0: char, c1: char, blocks: seq<Block>)
    requires CoalesceState(groups, cb, lo, i, g0, c0, c1, blocks)
    requires i < |groups| && |g0| + |groups[i].games| < cb
    ensures CoalesceState(groups, cb, lo, i + 1, g0 + groups[i].games, c0, groups[i].initial, blocks)
  {
    ConcatSnoc(groups, lo, i);
    assert |g0 + groups[i].games| == |g0| + |groups[i].games|;
    assert RunsFrom(groups, cb, lo, i, |g0|) == RunsFrom(groups, cb, lo, i + 1, |g0| + |groups[i].games|);
  }

  /** Before the loop: nothing accumulated and nothing emitted. */
  lemma FirstState(groups: seq<Group>, cb: nat)
    requires groups != []
    ensures CoalesceState(groups, cb, 0, 0, [], groups[0].initial, groups[0].initial, [])
  {
    assert groups[0..0] == [];
  }

  /** One turn of the loop, from the state before it to the state after it. */
  lemma CoalesceStep(groups: seq<Group>, cb: nat, i: nat,
                     lo: nat, g0: seq<GameInfo>, c0: char, c1: char, blocks: seq<Block>,
                     lo': nat, g0': seq<GameInfo>, c0': char, c1': char, blocks': seq<Block>)
    requires forall k :: 0 <= k < |groups| ==> groups[k].games != []
    requires CoalesceState(groups, cb, lo, i, g0, c0, c1, blocks)
    requires i < |groups|
    requires |g0| + |groups[i].games| >= cb ==>
      lo' == i && g0' == groups[i].games && c0' == c1' == groups[i].initial && blocks' == AddMenu(blocks, g0, c0, c1)
    requires |g0| + |groups[i].games| < cb ==>
      lo' == lo && g0' == g0 + groups[i].games && c0' == c0 && c1' == groups[i].initial && blocks' == blocks
    ensures CoalesceState(groups, cb, lo', i + 1, g0', c0', c1', blocks')
  {
    if |g0| + |groups[i].games| >= cb {
      CloseStep(groups, cb, lo, i, g0, c0, c1, blocks);
    } else {
      GrowStep(groups, cb, lo, i, g0, c0, c1, blocks);
    }
  }

  lemma LastStep(groups: seq<Group>, cb: nat, lo: nat, i: nat, g0: seq<GameInfo>, c0: char, c1: char, blocks: seq<Block>)
    requires forall k :: 0 <= k < |groups| ==> groups[k].games != []
    requires i == |groups| && CoalesceState(groups, cb, lo, i, g0, c0, c1, blocks)
    ensures AddMenu(blocks, g0, c0, c1) == MahjonggBlocks(groups, cb)
  {
    if lo < |groups| {
      ConcatNonEmpty(groups, lo, |groups|);
      FlushBlock(groups, lo, |groups|);
    }
  }

  /**
   * The greedy loop of `_addSelectMahjonggGameSubMenu` with its accumulators
   * `g0`, `c0`, `c1`; each emitted block is one call of `add_menu`.
   */
  method CoalesceGroups(groups: seq<Group>, cb: nat) returns (blocks: seq<Block>)
    requires groups != []
    requires forall k :: 0 <= k < |groups| ==> groups[k].games != []
    ensures blocks == MahjonggBlocks(groups, cb)
  {
    var g0: seq<GameInfo> := [];
    var c0 := groups[0].initial;
    var c1 := c0;
    ghost var lo := 0;
    blocks := [];
    var i := 0;
    FirstState(groups, cb);
    while i < |groups|
      invariant CoalesceState(groups, cb, lo, i, g0, c0, c1, blocks)
      decreases |groups| - i
    {
      var c, g1 := groups[i].initial, groups[i].games;
      ghost var lo', g0', c0', c1', blocks' := lo, g0, c0, c1, blocks;
      if |g0| + |g1| >= cb {
        blocks := AddMenu(blocks, g0, c0, c1);
        g0 := g1;
        c0, c1 := c, c;
        lo := i;
      } else {
        g0 := g0 + g1;
        c1 := c;
      }
      CoalesceStep(groups, cb, i, lo', g0', c0', c1', blocks', lo, g0, c0, c1, blocks);
      i := i + 1;
    }
    LastStep(groups, cb, lo, i, g0, c0, c1, blocks);
    blocks := AddMenu(blocks, g0, c0, c1);
  }

  /** All games of a list of blocks, in order. */
  function AllGames(blocks: seq<Block>): seq<GameInfo> {
    if blocks == [] then [] else blocks[0].games + AllGames(blocks[1..])
  }

  lemma ConcatSplit(groups: seq<Group>, lo: nat, mid: nat, hi: nat)
    requires lo <= mid <= hi <= |groups|
    ensures Concat(groups[lo..hi]) == Concat(groups[lo..mid]) + Concat(groups[mid..hi])
  {
    assert groups[lo..hi] == groups[lo..mid] + groups[mid..hi];
    ConcatAppend(groups[lo..mid], groups[mid..hi]);
  }

  lemma {:induction false} BlocksOfTiles(groups: seq<Group>, runs: seq<Run>, lo: nat, hi: nat)
    requires Tiles(runs, lo, hi) && lo <= hi <= |groups|
    ensures AllGames(BlocksOf(groups, runs)) == Concat(groups[lo..hi])
    decreases |runs|
  {
    var mid := runs[0].hi;
    TilesBound(runs, lo, hi, 0);
    assert BlocksOf(groups, runs)[0].games == Concat(groups[lo..mid]);
    ConcatSplit(groups, lo, mid, hi);
    if |runs| == 1 {
      assert groups[mid..hi] == [];
    } else {
      var rest := runs[1..];
      assert forall k :: 0 <= k < |rest| ==> rest[k] == runs[k + 1];
      assert Tiles(rest, mid, hi);
      BlocksOfTiles(groups, rest, mid, hi);
    }
  }

  lemma {:induction false} TilesBound(runs: seq<Run>, lo: nat, hi: nat, k: nat)
    requires Tiles(runs, lo, hi) && k < |runs|
    ensures lo <= runs[k].lo < runs[k].hi <= hi
    decreases |runs| - k
  {
    if k < |runs| - 1 {
      TilesBound(runs, lo, hi, k + 1);
    }
    if k > 0 {
      TilesBelow(runs, lo, hi, k);
    }
  }

  lemma {:induction false} TilesBelow(runs: seq<Run>, lo: nat, hi: nat, k: nat)
    requires Tiles(runs, lo, hi) && k < |runs|
    ensures lo <= runs[k].lo
  {
    if k > 0 {
      TilesBelow(runs, lo, hi, k - 1);
    }
  }

  /**
   * The Mahjongg submenus list every grouped game once, in group order, and
   * none is empty.
   */
  lemma MahjonggBlocksCover(groups: seq<Group>, cb: nat)
    requires forall k :: 0 <= k < |groups| ==> groups[k].games != []
    ensures AllGames(MahjonggBlocks(groups, cb)) == Concat(groups)
    ensures forall k :: 0 <= k < |MahjonggBlocks(groups, cb)| ==> MahjonggBlocks(groups, cb)[k].games != []
  {
    assert Accumulated(groups, cb, 0, 0, 0);
    RunsTile(groups, cb, 0, 0, 0);
    var runs := Coalesce(groups, cb);
    if groups != [] {
      BlocksOfTiles(groups, runs, 0, |groups|);
      assert groups[0..|groups|] == groups;
      BlocksNonEmpty(groups, runs, 0, |groups|);
    } else {
      assert runs == [];
    }
  }

  /** Tiling runs over groups that all have games make blocks that all have games. */
  lemma BlocksNonEmpty(groups: seq<Group>, runs: seq<Run>, lo: nat, hi: nat)
    requires forall k :: 0 <= k < |groups| ==> groups[k].games != []
    requires Tiles(runs, lo, hi) && hi <= |groups|
    ensures forall k :: 0 <= k < |runs| ==> BlocksOf(groups, runs)[k].games != []
  {
    forall k | 0 <= k < |runs|
      ensures RunBlock(groups, runs[k]).games != []
    {
      TilesBound(runs, lo, hi, k);
      ConcatNonEmpty(groups, runs[k].lo, runs[k].hi);
    }
  }

  lemma {:induction false} InConcat(groups: seq<Group>, g: GameInfo)
    ensures g in Concat(groups) <==> exists i :: 0 <= i < |groups| && g in groups[i].games
  {
    if groups != [] {
      InConcat(groups[1..], g);
      assert forall i :: 1 <= i < |groups| ==> groups[i] == groups[1..][i - 1];
      if exists i :: 0 <= i < |groups| && g in groups[i].games {
        var i :| 0 <= i < |groups| && g in groups[i].games;
        if i > 0 {
          assert g in groups[1..][i - 1].games;
        }
      }
    }
  }

  /** Grouping by initial loses no game and invents none. */
  lemma GroupingKeepsGames(games: seq<GameInfo>, groups: seq<Group>)
    requires IsGrouping(games, groups)
    ensures forall g :: g in Concat(groups) <==> g in games
  {
    forall g
      ensures g in Concat(groups) <==> g in games
    {
      InConcat(groups, g);
      if g in games {
        var i :| 0 <= i < |groups| && Some(groups[i].initial) == Initial(g.shortName);
        assert g in groups[i].games;
      }
    }
  }

  // ---------------------------------------------------------------------
  // "All games by name": fixed-size pages
  // ---------------------------------------------------------------------

  /** `name[:3]`. */
  function First3(name: string): string {
    name[..Min(3, |name|)]
  }

  /** The label of a page of games: the first three letters of its first and last names. */
  function PageTitle(first: GameInfo, last: GameInfo): string {
    First3(first.name) + " - " + First3(last.name)
  }

  /**
   * The pages of `_addSelectAllGameSubMenu` from page number `k` on: `d`
   * games each, the last one shorter, the column broken every `d` pages.
   */
  function PaginateFrom(games: seq<GameInfo>, d: nat, k: nat): seq<Block>
    requires d > 0
    decreases |games|
  {
    if games == [] then []
    else [FirstPage(games, d, k)] + PaginateFrom(games[Min(d, |games|)..], d, k + 1)
  }

  /** The first page: up to `d` games, titled after the first and last of them. */
  function FirstPage(games: seq<GameInfo>, d: nat, k: nat): Block
    requires d > 0 && games != []
  {
    var m := Min(d, |games|);
    Block(PageTitle(games[0], games[m - 1]), games[..m], ColumnBreak(k, d))
  }

  function Paginate(games: seq<GameInfo>, d: nat): seq<Block>
    requires d > 0
  {
    PaginateFrom(games, d, 0)
  }

  /** One step of the page loop: the page that starts at game `n`, then the pages after it. */
  lemma PaginateStep(games: seq<GameInfo>, d: nat, n: nat, k: nat)
    requires d > 0 && n < |games|
    ensures PaginateFrom(games[n..], d, k)
         == [Block(PageTitle(games[n], games[Min(n + d - 1, |games| - 1)]), games[n..Min(n + d, |games|)], ColumnBreak(k, d))]
            + PaginateFrom(games[Min(n + d, |games|)..], d, k + 1)
  {
    var rest := games[n..];
    var m := Min(d, |rest|);
    assert rest[m - 1] == games[Min(n + d - 1, |games| - 1)];
    assert rest[..m] == games[n..Min(n + d, |games|)];
    assert rest[m..] == games[Min(n + d, |games|)..];
  }

  /** The pages before game `n`, the page starting there and the pages after it make up all pages. */
  lemma PagesSoFar(games: seq<GameInfo>, d: nat, n: nat, k: nat, done: seq<Block>, page: Block)
    requires d > 0 && n < |games|
    requires done + PaginateFrom(games[n..], d, k) == Paginate(games, d)
    requires page == Block(PageTitle(games[n], games[Min(n + d - 1, |games| - 1)]), games[n..Min(n + d, |games|)], ColumnBreak(k, d))
    ensures (done + [page]) + PaginateFrom(games[Min(n + d, |games|)..], d, k + 1) == Paginate(games, d)
  {
    PaginateStep(games, d, n, k);
  }

  lemma MulStep(j: nat, d: nat)
    requires j > 0
    ensures j * d == (j - 1) * d + d
  {
  }

  /**
   * Page `i` of `pages` holds `d` games unless it is the last, which holds
   * between one and `d`; it is titled after its first and last game; and it
   * starts a new column when `k + i` is a non-zero multiple of `d`.
   */
  predicate PageShaped(pages: seq<Block>, d: nat, k: nat, i: nat)
    requires d > 0 && i < |pages|
  {
    var page := pages[i];
    && 0 < |page.games| <= d
    && (i < |pages| - 1 ==> |page.games| == d)
    && page.title == PageTitle(page.games[0], page.games[|page.games| - 1])
    && page.columnbreak == ColumnBreak(k + i, d)
  }

  /** Every page of "All games by name" has the shape above. */
  lemma {:induction false} PaginateShape(games: seq<GameInfo>, d: nat, k: nat)
    requires d > 0
    ensures forall i :: 0 <= i < |PaginateFrom(games, d, k)| ==> PageShaped(PaginateFrom(games, d, k), d, k, i)
    decreases |games|
  {
    if games != [] {
      var rest := games[Min(d, |games|)..];
      var pages := PaginateFrom(games, d, k);
      PaginateShape(rest, d, k + 1);
      assert pages == [FirstPage(games, d, k)] + PaginateFrom(rest, d, k + 1);
      forall i | 0 <= i < |pages|
        ensures PageShaped(pages, d, k, i)
      {
        if i == 0 {
          if |pages| > 1 {
            assert rest != [];
          }
        } else {
          assert pages[i] == PaginateFrom(rest, d, k + 1)[i - 1];
          assert PageShaped(PaginateFrom(rest, d, k + 1), d, k + 1, i - 1);
          assert k + 1 + (i - 1) == k + i;
        }
      }
    }
  }

  /**
   * The pages list every game once, in order, and there are just enough of
   * them: `ceil(|games| / d)`.
   */
  lemma {:induction false} PaginateCover(games: seq<GameInfo>, d: nat, k: nat)
    requires d > 0
    ensures AllGames(PaginateFrom(games, d, k)) == games
    ensures |PaginateFrom(games, d, k)| * d >= |games|
    ensures games != [] ==> (|PaginateFrom(games, d, k)| - 1) * d < |games|
    ensures games == [] <==> PaginateFrom(games, d, k) == []
    decreases |games|
  {
    if games != [] {
      var m := Min(d, |games|);
      PaginateCover(games[m..], d, k + 1);
      assert games[..m] + games[m..] == games;
      MulStep(|PaginateFrom(games, d, k)|, d);
    }
  }

  // ---------------------------------------------------------------------
  // Recent and favourite games
  // ---------------------------------------------------------------------

  /** The games of the ids the database knows, in order; unknown ids are skipped. */
  function KnownGames(ids: seq<int>, db: map<int, GameInfo>): (r: seq<GameInfo>)
    ensures |r| <= |ids|
    ensures forall g :: g in r <==> exists id :: id in ids && id in db && db[id] == g
  {
    if ids == [] then []
    else
      var rest := KnownGames(ids[1..], db);
      assert forall id :: id in ids <==> id == ids[0] || id in ids[1..];
      (if ids[0] in db then [db[ids[0]]] else []) + rest
  }

  lemma {:induction false} KnownGamesAllKnown(ids: seq<int>, db: map<int, GameInfo>)
    requires forall i :: 0 <= i < |ids| ==> ids[i] in db
    ensures |KnownGames(ids, db)| == |ids|
    ensures forall i :: 0 <= i < |ids| ==> KnownGames(ids, db)[i] == db[ids[i]]
  {
    if ids != [] {
      KnownGamesAllKnown(ids[1..], db);
    }
  }

  /** Looking up a list in two parts is looking up each part. */
  lemma {:induction false} KnownGamesAppend(a: seq<int>, b: seq<int>, db: map<int, GameInfo>)
    ensures KnownGames(a + b, db) == KnownGames(a, db) + KnownGames(b, db)
  {
    if a == [] {
      assert a + b == b;
    } else {
      assert (a + b)[0] == a[0] && (a + b)[1..] == a[1..] + b;
      KnownGamesAppend(a[1..], b, db);
      var head := if a[0] in db then [db[a[0]]] else [];
      assert KnownGames(a + b, db) == head + KnownGames(a[1..] + b, db);
      assert KnownGames(a, db) == head + KnownGames(a[1..], db);
    }
  }

  /** One more id: its game joins the list when the id is known, and nothing joins otherwise. */
  lemma KnownGamesSnoc(ids: seq<int>, j: nat, db: map<int, GameInfo>)
    requires j < |ids|
    ensures KnownGames(ids[..j + 1], db) == KnownGames(ids[..j], db) + (if ids[j] in db then [db[ids[j]]] else [])
  {
    assert ids[..j + 1] == ids[..j] + [ids[j]];
    KnownGamesAppend(ids[..j], [ids[j]], db);
  }

  /**
   * The loop of `updateFavoriteGamesMenu` that looks each favourite up with
   * `app.getGameInfo` (here the map `db`) and keeps the games found.
   */
  method LookupGames(ids: seq<int>, db: map<int, GameInfo>) returns (games: seq<GameInfo>)
    ensures games == KnownGames(ids, db)
  {
    games := [];
    var j := 0;
    while j < |ids|
      invariant 0 <= j <= |ids|
      invariant games == KnownGames(ids[..j], db)
    {
      KnownGamesSnoc(ids, j, db);
      if ids[j] in db {
        games := games + [db[ids[j]]];
      }
      j := j + 1;
    }
    assert ids[..j] == ids;
  }

  /** The column length of the recent-games menu: `cb_max` past 100 games, else 25. */
  function RecentColumns(count: nat, cbMax: nat): nat {
    if count > 4 * 25 then cbMax else 25
  }

  /** The favourites list has no id twice. */
  predicate NoDup(ids: seq<int>) {
    forall i, j :: 0 <= i < j < |ids| ==> ids[i] != ids[j]
  }

  /** `mAddFavor`: append the id unless it is already a favourite. */
  function AddFavorite(ids: seq<int>, id: int): (r: seq<int>)
    ensures id in r
    ensures forall x :: x in r <==> x in ids || x == id
    ensures id !in ids ==> r == ids + [id]
  {
    if id in ids then ids else ids + [id]
  }

  /** `list.remove`: drop the first occurrence. */
  function RemoveFirst(ids: seq<int>, id: int): seq<int> {
    if ids == [] then []
    else if ids[0] == id then ids[1..]
    else [ids[0]] + RemoveFirst(ids[1..], id)
  }

  /** `mDelFavor`: remove the id if it is a favourite. */
  function RemoveFavorite(ids: seq<int>, id: int): seq<int> {
    if id in ids then RemoveFirst(ids, id) else ids
  }

  lemma {:induction false} RemoveFirstMultiset(ids: seq<int>, id: int)
    ensures multiset(RemoveFirst(ids, id)) == multiset(ids) - multiset{id}
  {
    if ids != [] {
      assert ids == [ids[0]] + ids[1..];
      RemoveFirstMultiset(ids[1..], id);
    }
  }

  /** Adding keeps the list free of duplicates and changes nothing when the id is there already. */
  lemma AddFavoriteNoDup(ids: seq<int>, id: int)
    requires NoDup(ids)
    ensures NoDup(AddFavorite(ids, id))
    ensures id in ids ==> AddFavorite(ids, id) == ids
  {
  }

  lemma NoDupMultiset(ids: seq<int>)
    requires NoDup(ids)
    ensures forall x :: multiset(ids)[x] <= 1
  {
    if ids != [] {
      assert ids == [ids[0]] + ids[1..];
      NoDupMultiset(ids[1..]);
      assert ids[0] !in ids[1..];
    }
  }

  lemma MultisetNoDup(ids: seq<int>)
    requires forall x :: multiset(ids)[x] <= 1
    ensures NoDup(ids)
  {
    forall i, j | 0 <= i < j < |ids|
      ensures ids[i] != ids[j]
    {
      assert ids == ids[..j] + [ids[j]] + ids[j + 1..];
      assert ids[i] in ids[..j];
      assert multiset(ids)[ids[j]] >= multiset(ids[..j])[ids[j]] + 1;
    }
  }

  /** `list.remove` cuts the list at the first occurrence of the id, keeping the rest in order. */
  lemma {:induction false} RemoveFirstSplit(ids: seq<int>, id: int) returns (k: nat)
    requires id in ids
    ensures k < |ids| && ids[k] == id && id !in ids[..k]
    ensures RemoveFirst(ids, id) == ids[..k] + ids[k + 1..]
  {
    if ids[0] == id {
      k := 0;
    } else {
      assert id in ids[1..] by {
        var j :| 0 <= j < |ids| && ids[j] == id;
        assert ids[1..][j - 1] == id;
      }
      var k' := RemoveFirstSplit(ids[1..], id);
      k := k' + 1;
      assert ids[..k] == [ids[0]] + ids[1..][..k'];
      assert ids[k + 1..] == ids[1..][k' + 1..];
    }
  }

  /**
   * Removing drops exactly the one id, the favourites before and after it
   * keeping their order, and leaves the list free of duplicates; an id that
   * is not a favourite changes nothing.
   */
  lemma RemoveFavoriteSpec(ids: seq<int>, id: int)
    requires NoDup(ids)
    ensures multiset(RemoveFavorite(ids, id)) == multiset(ids) - multiset{id}
    ensures id !in RemoveFavorite(ids, id)
    ensures NoDup(RemoveFavorite(ids, id))
    ensures id in ids ==> exists k :: 0 <= k < |ids| && ids[k] == id && id !in ids[..k]
                                     && RemoveFavorite(ids, id) == ids[..k] + ids[k + 1..]
    ensures id !in ids ==> RemoveFavorite(ids, id) == ids
  {
    if id in ids {
      var k := RemoveFirstSplit(ids, id);
    }
    RemoveFirstMultiset(ids, id);
    NoDupMultiset(ids);
    var r := RemoveFavorite(ids, id);
    assert multiset(r)[id] == 0;
    MultisetNoDup(r);
  }

  /** Removing a favourite that was just added restores the list. */
  lemma {:induction false} RemoveAfterAdd(ids: seq<int>, id: int)
    requires id !in ids
    ensures RemoveFavorite(AddFavorite(ids, id), id) == ids
  {
    if ids != [] {
      RemoveAfterAdd(ids[1..], id);
      assert (ids + [id])[1..] == ids[1..] + [id];
    }
  }

  // ---------------------------------------------------------------------
  // Sorting by name
  // ---------------------------------------------------------------------

  /** Python's string comparison: by character code, a proper prefix first. */
  predicate NameLess(a: string, b: string) {
    if a == [] then b != []
    else if b == [] then false
    else if a[0] != b[0] then a[0] < b[0]
    else NameLess(a[1..], b[1..])
  }

  /** No name is smaller than the one before it. */
  predicate SortedByName(games: seq<GameInfo>) {
    forall k :: 0 <= k < |games| - 1 ==> !NameLess(games[k + 1].name, games[k].name)
  }

  /** Insert `g` after every game whose name is not greater, keeping ties in order. */
  function InsertByName(sorted: seq<GameInfo>, g: GameInfo): seq<GameInfo> {
    if sorted == [] then [g]
    else if NameLess(g.name, sorted[0].name) then [g] + sorted
    else [sorted[0]] + InsertByName(sorted[1..], g)
  }

  /** `sorted(games, key=lambda gi: gi.name)`, a stable sort. */
  function SortByName(games: seq<GameInfo>): seq<GameInfo> {
    if games == [] then []
    else InsertByName(SortByName(games[..|games| - 1]), games[|games| - 1])
  }

  lemma {:induction false} InsertByNameHead(sorted: seq<GameInfo>, g: GameInfo)
    ensures InsertByName(sorted, g) != []
    ensures InsertByName(sorted, g)[0] == g || (sorted != [] && InsertByName(sorted, g)[0] == sorted[0])
  {
  }

  /** A name is never both smaller and greater than another. */
  lemma {:induction false} NameLessAsymmetric(a: string, b: string)
    ensures NameLess(a, b) ==> !NameLess(b, a)
  {
    if a != [] && b != [] && a[0] == b[0] {
      NameLessAsymmetric(a[1..], b[1..]);
    }
  }

  lemma {:induction false} InsertByNameSorted(sorted: seq<GameInfo>, g: GameInfo)
    requires SortedByName(sorted)
    ensures SortedByName(InsertByName(sorted, g))
  {
    if sorted != [] && NameLess(g.name, sorted[0].name) {
      NameLessAsymmetric(g.name, sorted[0].name);
      var r := [g] + sorted;
      assert forall k :: 1 <= k < |r| ==> r[k] == sorted[k - 1];
    } else if sorted != [] {
      var rest := InsertByName(sorted[1..], g);
      InsertByNameSorted(sorted[1..], g);
      InsertByNameHead(sorted[1..], g);
      var r := [sorted[0]] + rest;
      forall k | 0 <= k < |r| - 1
        ensures !NameLess(r[k + 1].name, r[k].name)
      {
        if k > 0 {
          assert r[k] == rest[k - 1] && r[k + 1] == rest[k];
        } else if rest[0] != g {
          assert rest[0] == sorted[1];
        }
      }
    }
  }

  lemma {:induction false} InsertByNameMultiset(sorted: seq<GameInfo>, g: GameInfo)
    ensures multiset(InsertByName(sorted, g)) == multiset(sorted) + multiset{g}
  {
    if sorted != [] && !NameLess(g.name, sorted[0].name) {
      InsertByNameMultiset(sorted[1..], g);
      assert sorted == [sorted[0]] + sorted[1..];
    }
  }

  /** Sorting by name orders the games. */
  lemma {:induction false} SortByNameSorted(games: seq<GameInfo>)
    ensures SortedByName(SortByName(games))
  {
    if games != [] {
      var init := games[..|games| - 1];
      SortByNameSorted(init);
      InsertByNameSorted(SortByName(init), games[|games| - 1]);
    }
  }

  /** Sorting by name keeps every game, as often as it occurs. */
  lemma {:induction false} SortByNamePermutes(games: seq<GameInfo>)
    ensures multiset(SortByName(games)) == multiset(games)
  {
    if games != [] {
      var init := games[..|games| - 1];
      SortByNamePermutes(init);
      InsertByNameMultiset(SortByName(init), games[|games| - 1]);
      assert games == init + [games[|games| - 1]];
    }
  }

  /** Selects the games called `k`. */
  function NameIs(k: string): GameInfo -> bool {
    (g: GameInfo) => g.name == k
  }

  /** Below the smallest name of a sorted list lies every name of it. */
  lemma {:induction false} NameLessThrough(a: string, b: string, c: string)
    requires NameLess(a, b) && !NameLess(c, b)
    ensures NameLess(a, c)
    decreases |a|
  {
    if a != [] && b != [] && c != [] && a[0] == b[0] && c[0] == b[0] {
      NameLessThrough(a[1..], b[1..], c[1..]);
    }
  }

  /** No game of a sorted list is called by a name below its first. */
  lemma {:induction false} NoneNamedBelow(sorted: seq<GameInfo>, k: string)
    requires SortedByName(sorted) && sorted != [] && NameLess(k, sorted[0].name)
    ensures Filter(NameIs(k), sorted) == []
    decreases |sorted|
  {
    NameLessAsymmetric(k, k);
    if |sorted| > 1 {
      NameLessThrough(k, sorted[0].name, sorted[1].name);
      NoneNamedBelow(sorted[1..], k);
    }
  }

  /** Filtering a list that starts with `g`. */
  lemma FilterCons(select: GameInfo -> bool, g: GameInfo, rest: seq<GameInfo>)
    ensures Filter(select, [g] + rest) == (if select(g) then [g] else []) + Filter(select, rest)
  {
    assert ([g] + rest)[1..] == rest;
  }

  /** A game smaller than the head of a sorted list goes in front, after no game of its name. */
  lemma InsertInFrontStable(sorted: seq<GameInfo>, g: GameInfo, k: string)
    requires SortedByName(sorted) && sorted != [] && NameLess(g.name, sorted[0].name)
    ensures Filter(NameIs(k), [g] + sorted) == Filter(NameIs(k), sorted) + (if g.name == k then [g] else [])
  {
    FilterCons(NameIs(k), g, sorted);
    if g.name == k {
      NoneNamedBelow(sorted, k);
    }
  }

  /** Putting the same game in front of two lists keeps the filtered parts in step. */
  lemma FilterConsStep(select: GameInfo -> bool, g: GameInfo, a: seq<GameInfo>, b: seq<GameInfo>, t: seq<GameInfo>)
    requires Filter(select, a) == Filter(select, b) + t
    ensures Filter(select, [g] + a) == Filter(select, [g] + b) + t
  {
    var head := if select(g) then [g] else [];
    FilterCons(select, g, a);
    FilterCons(select, g, b);
    AppendAssoc(head, Filter(select, b), t);
  }

  lemma AppendAssoc(x: seq<GameInfo>, y: seq<GameInfo>, z: seq<GameInfo>)
    ensures x + (y + z) == (x + y) + z
  {
  }

  /** Inserting `g` puts it after every game already there under the same name. */
  lemma {:induction false} InsertByNameStable(sorted: seq<GameInfo>, g: GameInfo, k: string)
    requires SortedByName(sorted)
    ensures Filter(NameIs(k), InsertByName(sorted, g)) == Filter(NameIs(k), sorted) + (if g.name == k then [g] else [])
    decreases |sorted|
  {
    if sorted == [] {
      FilterCons(NameIs(k), g, []);
    } else if NameLess(g.name, sorted[0].name) {
      InsertInFrontStable(sorted, g, k);
    } else {
      InsertByNameStable(sorted[1..], g, k);
      FilterConsStep(NameIs(k), sorted[0], InsertByName(sorted[1..], g), sorted[1..], if g.name == k then [g] else []);
      assert [sorted[0]] + sorted[1..] == sorted;
    }
  }

  /** Filtering a list with one more game at the end. */
  lemma FilterSnoc(select: GameInfo -> bool, init: seq<GameInfo>, last: GameInfo)
    ensures Filter(select, init + [last]) == Filter(select, init) + (if select(last) then [last] else [])
  {
    FilterAppend(select, init, [last]);
    assert [last][1..] == [];
  }

  /** The sort inserts the last game into the sorted rest. */
  lemma SortByNameSnoc(games: seq<GameInfo>)
    requires games != []
    ensures SortByName(games) == InsertByName(SortByName(games[..|games| - 1]), games[|games| - 1])
  {
  }

  /** The sort is stable: the games of any one name keep their input order. */
  lemma {:induction false} SortByNameStable(games: seq<GameInfo>, k: string)
    ensures Filter(NameIs(k), SortByName(games)) == Filter(NameIs(k), games)
  {
    if games != [] {
      var init, last := games[..|games| - 1], games[|games| - 1];
      var tail := if last.name == k then [last] else [];
      calc {
        Filter(NameIs(k), SortByName(games));
        == { SortByNameSnoc(games); }
        Filter(NameIs(k), InsertByName(SortByName(init), last));
        == { SortByNameSorted(init); InsertByNameStable(SortByName(init), last, k); }
        Filter(NameIs(k), SortByName(init)) + tail;
        == { SortByNameStable(init, k); }
        Filter(NameIs(k), init) + tail;
        == { FilterSnoc(NameIs(k), init, last); }
        Filter(NameIs(k), init + [last]);
        == { assert games == init + [last]; }
        Filter(NameIs(k), games);
      }
    }
  }

  // ---------------------------------------------------------------------
  // Table tiles
  // ---------------------------------------------------------------------

  /** The tile after `cur` in a cycle of `n` tiles. */
  function NextTile(cur: nat, n: nat): (r: nat)
    requires n >= 2
    ensures r < n
    ensures cur < n - 1 ==> r == cur + 1
    ensures cur == n - 1 ==> r == 0
  {
    (cur + 1) % n
  }

  /** The tile reached from `cur` after `k` changes. */
  function AfterChanges(cur: nat, n: nat, k: nat): nat
    requires n >= 2
  {
    if k == 0 then cur else NextTile(AfterChanges(cur, n, k - 1), n)
  }

  lemma {:induction false} AfterChangesWrap(cur: nat, n: nat, k: nat)
    requires n >= 2 && cur < n && k <= n
    ensures AfterChanges(cur, n, k) == if cur + k < n then cur + k else cur + k - n
  {
    if k > 0 {
      AfterChangesWrap(cur, n, k - 1);
    }
  }

  /** The tiles reached in fewer than `n` changes. */
  function Visited(cur: nat, n: nat): set<nat>
    requires n >= 2
  {
    set k | 0 <= k < n :: AfterChanges(cur, n, k)
  }

  /** Changing the tile `n` times comes back to the tile one started from, having shown every tile. */
  lemma TileCycle(cur: nat, n: nat)
    requires n >= 2 && cur < n
    ensures AfterChanges(cur, n, n) == cur
    ensures forall t :: 0 <= t < n ==> t in Visited(cur, n)
  {
    AfterChangesWrap(cur, n, n);
    forall t | 0 <= t < n
      ensures t in Visited(cur, n)
    {
      var k := if t >= cur then t - cur else t + n - cur;
      AfterChangesWrap(cur, n, k);
    }
  }
}
