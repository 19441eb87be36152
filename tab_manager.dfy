/**
 * TabManager.swift: a process-wide table from synthetic ids to Safari tabs.
 * The host's tab enumeration (`getAllWindows`, then each window's
 * `getAllTabs`) is taken as a snapshot argument `windows`, one sequence of
 * tabs per window. The manual `retainMe`/`releaseMe` calls are tracked as a
 * multiset of net retains.
 */
module TabRegistry {
  import opened Wrappers
  import opened IdentityMap
  import opened Host

  /** `tab` is a tab of one of the windows. */
  ghost predicate IsLive<T>(windows: seq<seq<T>>, tab: T) {
    exists w :: 0 <= w < |windows| && tab in windows[w]
  }

  /** The entries of `m` whose tab is still open. */
  ghost function Surviving<T>(m: map<int, T>, windows: seq<seq<T>>): map<int, T> {
    map k | k in m && IsLive(windows, m[k]) :: m[k]
  }

  /** A sweep over no windows (the default empty `aliveTabs`) empties the table. */
  lemma SweepOverNoWindows<T>(m: map<int, T>)
    ensures Surviving(m, []) == map[]
  {
    assert forall k :: k in m ==> !IsLive([], m[k]);
    assert Surviving(m, []).Keys == {};
  }

  /** A sweep keeps only old ids, with the tab stored under each unchanged. */
  lemma SweepOnlyRemoves<T>(m: map<int, T>, windows: seq<seq<T>>)
    ensures Surviving(m, windows).Keys <= m.Keys
    ensures forall k :: k in Surviving(m, windows) ==> Surviving(m, windows)[k] == m[k]
  {
  }

  /** The tabs of `m` that are no longer open. */
  ghost function DeadTabs<T>(m: map<int, T>, windows: seq<seq<T>>): set<T> {
    set k | k in m && !IsLive(windows, m[k]) :: m[k]
  }

  /**
   * The table `m'` and retains `r'` after `getTabId(tab)` on `m` and `r`:
   * unchanged when `tab` is stored; otherwise `tab` is stored (and retained)
   * under its hash value.
   */
  ghost predicate Registers<T>(m: map<int, T>, r: multiset<T>, hashValue: T -> int, tab: T,
                               m': map<int, T>, r': multiset<T>) {
    (Stores(m, tab) ==> m' == m && r' == r) &&
    (!Stores(m, tab) ==> m' == m[hashValue(tab) := tab] && r' == r + multiset{tab})
  }

  /** The tabs `m` stores under the ids in `ids`. */
  ghost function TabsAt<T>(m: map<int, T>, ids: seq<int>): set<T> {
    set k | k in ids && k in m :: m[k]
  }

  /** `m` without the ids in `ids`. */
  ghost function Without<T>(m: map<int, T>, ids: seq<int>): map<int, T> {
    map k | k in m && k !in ids :: m[k]
  }

  /**
   * The ids one window contributes to `aliveTabs`: every stored id whose tab
   * equals one of the window's tabs.
   */
  method AliveIn<T(==)>(m: map<int, T>, tabs: seq<T>) returns (ids: seq<int>)
    ensures forall k :: k in ids <==> k in m && m[k] in tabs
  {
    ids := [];
    var keys := m.Keys;
    while keys != {}
      invariant keys <= m.Keys
      invariant forall k :: k in ids <==> k in m && k !in keys && m[k] in tabs
      decreases keys
    {
      ghost var some := HasMember(keys);
      var tabId :| tabId in keys;
      for i := 0 to |tabs|
        invariant forall k :: k in ids <==> k in m && ((k !in keys && m[k] in tabs) || (k == tabId && m[k] in tabs[..i]))
      {
        if tabs[i] == m[tabId] {
          ids := ids + [tabId];
        }
      }
      assert tabs[..|tabs|] == tabs;
      keys := keys - {tabId};
    }
  }

  /**
   * The recursion of `cleanWindows` before the sweep: windows are popped
   * from the end and each contributes its live ids.
   */
  method CollectAlive<T(==)>(m: map<int, T>, windows: seq<seq<T>>) returns (aliveTabs: seq<int>)
    ensures forall k :: k in aliveTabs <==> k in m && IsLive(windows, m[k])
  {
    aliveTabs := [];
    var rest := windows;
    while rest != []
      invariant rest == windows[..|rest|]
      invariant forall k :: k in aliveTabs <==>
        k in m && exists w :: |rest| <= w < |windows| && m[k] in windows[w]
      decreases |rest|
    {
      var window := rest[|rest| - 1];
      rest := rest[..|rest| - 1];
      var ids := AliveIn(m, window);
      aliveTabs := aliveTabs + ids;
      forall k | k in m && m[k] in window
        ensures exists w :: |rest| <= w < |windows| && m[k] in windows[w]
      {
        assert m[k] in windows[|rest|];
      }
    }
  }

  /** The ids of `m` that are not alive, each once. */
  method CollectDead<T>(m: map<int, T>, aliveTabs: seq<int>) returns (deadTabs: seq<int>)
    ensures forall k :: k in deadTabs <==> k in m && k !in aliveTabs
    ensures forall i, j :: 0 <= i < j < |deadTabs| ==> deadTabs[i] != deadTabs[j]
  {
    deadTabs := [];
    var keys := m.Keys;
    while keys != {}
      invariant keys <= m.Keys
      invariant forall k :: k in deadTabs <==> k in m && k !in keys && k !in aliveTabs
      invariant forall i, j :: 0 <= i < j < |deadTabs| ==> deadTabs[i] != deadTabs[j]
      decreases keys
    {
      ghost var some := HasMember(keys);
      var tabId :| tabId in keys;
      if tabId !in aliveTabs {
        deadTabs := deadTabs + [tabId];
      }
      keys := keys - {tabId};
    }
  }

  class TabManager<T(==)> {
    var idsToTabs: map<int, T>
    /** Net number of `retainMe` calls not yet undone by `releaseMe`, per tab. */
    var retained: multiset<T>
    /** The host's `hashValue`; distinct tabs may share one. */
    const hashValue: T -> int

    /** Each tab is stored under at most one id. */
    ghost predicate Valid()
      reads this
    {
      Injective(idsToTabs)
    }

    /** Exactly the stored tabs carry one manual retain each. */
    ghost predicate Balanced()
      reads this
    {
      retained == multiset(Handles(idsToTabs))
    }

    /** The table as first read: empty (the initial sweep has nothing to remove). */
    constructor(hashValue: T -> int)
      ensures idsToTabs == map[] && retained == multiset{}
      ensures this.hashValue == hashValue
      ensures Valid() && Balanced()
    {
      idsToTabs := map[];
      retained := multiset{};
      this.hashValue := hashValue;
    }

    /**
     * `getTabId`: the id already given to `tab`, or else `tab.hashValue`,
     * under which the retained tab is stored, replacing whatever tab held
     * that id before.
     */
    method GetTabId(tab: T) returns (id: int)
      requires Valid()
      modifies this
      ensures Valid()
      ensures id in idsToTabs && idsToTabs[id] == tab
      ensures Stores(old(idsToTabs), tab) ==>
        idsToTabs == old(idsToTabs) && retained == old(retained)
      ensures !Stores(old(idsToTabs), tab) ==>
        id == hashValue(tab) && idsToTabs == old(idsToTabs)[id := tab] &&
        retained == old(retained) + multiset{tab}
      ensures old(Balanced()) && (Stores(old(idsToTabs), tab) || hashValue(tab) !in old(idsToTabs)) ==>
        Balanced()
    {
      var found := FindStoredKey(idsToTabs, tab);
      if found.Some? {
        return found.value;
      }
      ghost var m := idsToTabs;
      retained := retained + multiset{tab};
      id := hashValue(tab);
      idsToTabs := idsToTabs[id := tab];
      if id !in m {
        forall t | t in Handles(m)
          ensures t in Handles(idsToTabs)
        {
          var k :| k in m && m[k] == t;
          assert idsToTabs[k] == t;
        }
        forall t | t in Handles(idsToTabs)
          ensures t in Handles(m) + {tab}
        {
          var k :| k in idsToTabs && idsToTabs[k] == t;
          if k != id {
            assert m[k] == t;
          }
        }
        assert tab in Handles(idsToTabs) by {
          assert id in idsToTabs && idsToTabs[id] == tab;
        }
        assert Handles(idsToTabs) == Handles(m) + {tab};
        assert tab !in Handles(m);
      }
    }

    /**
     * A hash collision: a new tab whose `hashValue` is already an id
     * displaces the stored tab, which stays retained but is stored nowhere.
     */
    lemma CollisionLeaksDisplacedTab(m: map<int, T>, r: multiset<T>, tab: T, m': map<int, T>, r': multiset<T>)
      requires Injective(m) && !Stores(m, tab) && hashValue(tab) in m
      requires m' == m[hashValue(tab) := tab] && r' == r + multiset{tab}
      ensures !Stores(m', m[hashValue(tab)])
      ensures r'[m[hashValue(tab)]] == r[m[hashValue(tab)]]
    {
      var u := m[hashValue(tab)];
      NotStoredAt(m, tab, hashValue(tab));
    }

    /**
     * `cleanWindows`: forgets, and releases, every stored tab that is no
     * longer a tab of any window.
     */
    method CleanWindows(windows: seq<seq<T>>)
      requires Valid()
      modifies this
      ensures Valid()
      ensures idsToTabs == Surviving(old(idsToTabs), windows)
      ensures retained == old(retained) - multiset(DeadTabs(old(idsToTabs), windows))
      ensures old(Balanced()) ==> Balanced()
    {
      ghost var m := idsToTabs;
      var aliveTabs := CollectAlive(idsToTabs, windows);
      var deadTabs := CollectDead(idsToTabs, aliveTabs);
      Release(deadTabs);
      DeadIdsSurvive(m, windows, deadTabs);
      if old(Balanced()) {
        HandlesOfSurviving(m, windows);
        MultisetOfDifference(Handles(m), DeadTabs(m, windows));
      }
    }

    /** The sweep of `deadTabs`: removes and releases each. */
    method Release(deadTabs: seq<int>)
      requires Valid()
      requires forall k :: k in deadTabs ==> k in idsToTabs
      requires forall i, j :: 0 <= i < j < |deadTabs| ==> deadTabs[i] != deadTabs[j]
      modifies this
      ensures Valid()
      ensures idsToTabs == Without(old(idsToTabs), deadTabs)
      ensures retained == old(retained) - multiset(TabsAt(old(idsToTabs), deadTabs))
    {
      ghost var m := idsToTabs;
      ghost var r := retained;
      WithoutNothing(m);
      for i := 0 to |deadTabs|
        invariant idsToTabs == Without(m, deadTabs[..i])
        invariant retained == r - multiset(TabsAt(m, deadTabs[..i]))
      {
        var tabId := deadTabs[i];
        DistinctPrefix(deadTabs, i);
        ReleaseStep(m, r, deadTabs[..i], tabId);
        var tab := idsToTabs[tabId];
        idsToTabs := idsToTabs - {tabId};
        retained := retained - multiset{tab};
      }
      assert deadTabs[..|deadTabs|] == deadTabs;
      WithoutKeepsInjective(m, deadTabs);
    }

    /** `getTab`: sweeps, then looks `id` up. */
    method GetTab(id: int, windows: seq<seq<T>>) returns (tab: Option<T>)
      requires Valid()
      modifies this
      ensures Valid()
      ensures idsToTabs == Surviving(old(idsToTabs), windows)
      ensures retained == old(retained) - multiset(DeadTabs(old(idsToTabs), windows))
      ensures tab.Some? <==> id in old(idsToTabs) && IsLive(windows, old(idsToTabs)[id])
      ensures tab.Some? ==> tab.value == old(idsToTabs)[id]
    {
      CleanWindows(windows);
      if id in idsToTabs {
        tab := Some(idsToTabs[id]);
      } else {
        tab := None;
      }
    }

    /** `getActiveTabId`: the id of the active window's active tab, if any. */
    method GetActiveTabId(active: ActiveTab<T>) returns (id: Option<int>)
      requires Valid()
      modifies this
      ensures Valid()
      ensures id.Some? <==> active.ActiveTab?
      ensures id.Some? ==> id.value in idsToTabs && idsToTabs[id.value] == active.tab
      ensures active.ActiveTab? && Stores(old(idsToTabs), active.tab) ==>
        idsToTabs == old(idsToTabs) && retained == old(retained)
      ensures active.ActiveTab? && !Stores(old(idsToTabs), active.tab) ==>
        id.value == hashValue(active.tab) && idsToTabs == old(idsToTabs)[id.value := active.tab] &&
        retained == old(retained) + multiset{active.tab}
      ensures !active.ActiveTab? ==> idsToTabs == old(idsToTabs) && retained == old(retained)
    {
      if active.ActiveTab? {
        var tabId := GetTabId(active.tab);
        id := Some(tabId);
      } else {
        id := None;
      }
    }
  }

  /** Two ids asked for one tab in a row are the same. */
  method GetTabIdIsStable<T(==)>(manager: TabManager<T>, tab: T) returns (first: int, second: int)
    requires manager.Valid()
    modifies manager
    ensures first == second
    ensures Registers(old(manager.idsToTabs), old(manager.retained), manager.hashValue, tab,
                      manager.idsToTabs, manager.retained)
  {
    first := manager.GetTabId(tab);
    assert Stores(manager.idsToTabs, tab) by {
      assert first in manager.idsToTabs && manager.idsToTabs[first] == tab;
    }
    second := manager.GetTabId(tab);
  }

  /** One step of the sweep: removing `k` and releasing its tab. */
  lemma ReleaseStep<T>(m: map<int, T>, r: multiset<T>, ids: seq<int>, k: int)
    requires Injective(m) && k in m && k !in ids
    ensures k in Without(m, ids) && Without(m, ids)[k] == m[k]
    ensures Without(m, ids) - {k} == Without(m, ids + [k])
    ensures r - multiset(TabsAt(m, ids)) - multiset{m[k]} == r - multiset(TabsAt(m, ids + [k]))
  {
    assert m[k] !in TabsAt(m, ids);
    assert TabsAt(m, ids + [k]) == TabsAt(m, ids) + {m[k]};
  }

  /** In a sequence without repetition, an element is not in the prefix before it. */
  lemma DistinctPrefix(s: seq<int>, i: nat)
    requires i < |s|
    requires forall a, b :: 0 <= a < b < |s| ==> s[a] != s[b]
    ensures s[i] !in s[..i]
    ensures s[..i + 1] == s[..i] + [s[i]]
  {
  }

  lemma WithoutNothing<T>(m: map<int, T>)
    ensures Without(m, []) == m
  {
  }

  lemma WithoutKeepsInjective<T>(m: map<int, T>, ids: seq<int>)
    requires Injective(m)
    ensures Injective(Without(m, ids))
  {
  }

  /** Removing the dead ids leaves the surviving entries, and the tabs removed are the dead tabs. */
  lemma DeadIdsSurvive<T>(m: map<int, T>, windows: seq<seq<T>>, deadTabs: seq<int>)
    requires forall k :: k in deadTabs <==> k in m && !IsLive(windows, m[k])
    ensures Without(m, deadTabs) == Surviving(m, windows)
    ensures TabsAt(m, deadTabs) == DeadTabs(m, windows)
  {
    forall k | k in m
      ensures k in Without(m, deadTabs) <==> k in Surviving(m, windows)
    {
      assert k in deadTabs <==> !IsLive(windows, m[k]);
    }
    forall t | t in DeadTabs(m, windows)
      ensures t in TabsAt(m, deadTabs)
    {
      var k :| k in m && !IsLive(windows, m[k]) && m[k] == t;
      assert k in deadTabs;
    }
  }

  /** The tabs a sweep keeps are the stored tabs that are not dead. */
  lemma HandlesOfSurviving<T>(m: map<int, T>, windows: seq<seq<T>>)
    ensures Handles(Surviving(m, windows)) == Handles(m) - DeadTabs(m, windows)
    ensures DeadTabs(m, windows) <= Handles(m)
  {
    forall t | t in Handles(m) && t !in DeadTabs(m, windows)
      ensures t in Handles(Surviving(m, windows))
    {
      var k :| k in m && m[k] == t;
      assert k in Surviving(m, windows);
    }
  }

  /** Removing a subset of the distinct handles removes their retains. */
  lemma MultisetOfDifference<T>(v: set<T>, d: set<T>)
    requires d <= v
    ensures multiset(v) - multiset(d) == multiset(v - d)
  {
  }
}
