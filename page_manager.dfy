/**
 * PageManager.swift: a process-wide table from synthetic ids to Safari
 * pages. The host's enumeration (`getAllWindows`, each window's
 * `getAllTabs`, each tab's `getActivePage`) is taken as a snapshot
 * argument: per window, per tab, the tab's active page if it has one.
 */
module PageRegistry {
  import opened Wrappers
  import opened IdentityMap
  import opened Host

  /** `page` is the active page of some tab of some window. */
  ghost predicate IsShown<P>(windows: seq<seq<Option<P>>>, page: P) {
    exists w, t :: 0 <= w < |windows| && 0 <= t < |windows[w]| && windows[w][t] == Some(page)
  }

  /** The entries of `m` whose page is still shown. */
  ghost function Surviving<P>(m: map<int, P>, windows: seq<seq<Option<P>>>): map<int, P> {
    map k | k in m && IsShown(windows, m[k]) :: m[k]
  }

  /** A sweep over no windows empties the table. */
  lemma SweepOverNoWindows<P>(m: map<int, P>)
    ensures Surviving(m, []) == map[]
  {
    assert forall k :: k in m ==> !IsShown([], m[k]);
    assert Surviving(m, []).Keys == {};
  }

  /** Sweeping an already swept table changes nothing. */
  lemma SweepIsIdempotent<P>(m: map<int, P>, windows: seq<seq<Option<P>>>)
    ensures Surviving(Surviving(m, windows), windows) == Surviving(m, windows)
  {
  }

  /**
   * `cleanTabs`: tabs are popped from the end; each tab whose active page
   * is stored adds that page's id to `alivePages`.
   */
  method CleanTabs<P(==)>(m: map<int, P>, tabs: seq<Option<P>>, alivePages: seq<int>) returns (pages: seq<int>)
    requires Injective(m)
    ensures |alivePages| <= |pages| <= |alivePages| + |tabs|
    ensures pages[..|alivePages|] == alivePages
    ensures forall k :: k in pages <==> k in alivePages || (k in m && Some(m[k]) in tabs)
  {
    pages := alivePages;
    var rest := tabs;
    while rest != []
      invariant rest == tabs[..|rest|]
      invariant |alivePages| <= |pages| <= |alivePages| + |tabs| - |rest|
      invariant pages[..|alivePages|] == alivePages
      invariant forall k :: k in pages <==> k in alivePages || (k in m && Some(m[k]) in tabs[|rest|..])
      decreases |rest|
    {
      var tab := rest[|rest| - 1];
      rest := rest[..|rest| - 1];
      assert tabs[|rest|..] == [tab] + tabs[|rest| + 1..];
      if tab.Some? {
        var found := FindStoredKey(m, tab.value);
        if found.Some? {
          pages := pages + [found.value];
          forall k | k in m && m[k] == tab.value
            ensures k == found.value
          {
            assert m[k] == m[found.value];
          }
        } else {
          forall k | k in m
            ensures m[k] != tab.value
          {
            NotStoredAt(m, tab.value, k);
          }
        }
      }
    }
  }

  /** The recursion of `cleanWindows`: windows popped from the end, tabs of each cleaned. */
  method CollectShown<P(==)>(m: map<int, P>, windows: seq<seq<Option<P>>>) returns (alivePages: seq<int>)
    requires Injective(m)
    ensures forall k :: k in alivePages <==> k in m && IsShown(windows, m[k])
  {
    alivePages := [];
    var rest := windows;
    while rest != []
      invariant rest == windows[..|rest|]
      invariant forall k :: k in alivePages <==> (k in m &&
        exists w, t :: |rest| <= w < |windows| && 0 <= t < |windows[w]| && windows[w][t] == Some(m[k]))
      decreases |rest|
    {
      var window := rest[|rest| - 1];
      rest := rest[..|rest| - 1];
      ghost var before := alivePages;
      alivePages := CleanTabs(m, window, alivePages);
      forall k | k in m && Some(m[k]) in window
        ensures exists w, t :: |rest| <= w < |windows| && 0 <= t < |windows[w]| && windows[w][t] == Some(m[k])
      {
        var t :| 0 <= t < |window| && window[t] == Some(m[k]);
        assert windows[|rest|][t] == Some(m[k]);
      }
      forall k | k in m && (exists w, t :: |rest| <= w < |windows| && 0 <= t < |windows[w]| && windows[w][t] == Some(m[k]))
        ensures k in alivePages
      {
        var w, t :| |rest| <= w < |windows| && 0 <= t < |windows[w]| && windows[w][t] == Some(m[k]);
        if w == |rest| {
          assert window[t] == Some(m[k]);
        } else {
          assert k in before;
        }
      }
    }
  }

  /** The rebuild after the last window: the stored entries under the alive ids. */
  method Rebuild<P>(m: map<int, P>, alivePages: seq<int>) returns (newIdsToPages: map<int, P>)
    ensures forall k :: k in newIdsToPages <==> k in m && k in alivePages
    ensures forall k :: k in newIdsToPages ==> newIdsToPages[k] == m[k]
  {
    newIdsToPages := map[];
    for i := 0 to |alivePages|
      invariant forall k :: k in newIdsToPages <==> k in m && k in alivePages[..i]
      invariant forall k :: k in newIdsToPages ==> newIdsToPages[k] == m[k]
    {
      var id := alivePages[i];
      assert alivePages[..i + 1] == alivePages[..i] + [id];
      if id !in m {
        continue;
      }
      newIdsToPages := newIdsToPages[id := m[id]];
    }
    assert alivePages[..|alivePages|] == alivePages;
  }

  class PageManager<P(==)> {
    var idsToPages: map<int, P>
    /** The host's `hashValue`; distinct pages may share one. */
    const hashValue: P -> int

    /** Each page is stored under at most one id. */
    ghost predicate Valid()
      reads this
    {
      Injective(idsToPages)
    }

    /** The table as first read: empty (the initial sweep has nothing to remove). */
    constructor(hashValue: P -> int)
      ensures idsToPages == map[] && this.hashValue == hashValue
      ensures Valid()
    {
      idsToPages := map[];
      this.hashValue := hashValue;
    }

    /**
     * `getPageId`: the id already given to `page`, or else `page.hashValue`,
     * under which the page is stored, replacing whatever page held that id.
     */
    method GetPageId(page: P) returns (id: int)
      requires Valid()
      modifies this
      ensures Valid()
      ensures id in idsToPages && idsToPages[id] == page
      ensures Stores(old(idsToPages), page) ==> idsToPages == old(idsToPages)
      ensures !Stores(old(idsToPages), page) ==>
        id == hashValue(page) && idsToPages == old(idsToPages)[id := page]
    {
      var found := FindStoredKey(idsToPages, page);
      if found.Some? {
        return found.value;
      }
      id := hashValue(page);
      idsToPages := idsToPages[id := page];
    }

    /** `cleanWindows`: keeps exactly the pages still shown in some tab. */
    method CleanWindows(windows: seq<seq<Option<P>>>)
      requires Valid()
      modifies this
      ensures Valid()
      ensures idsToPages == Surviving(old(idsToPages), windows)
    {
      ghost var m := idsToPages;
      var alivePages := CollectShown(idsToPages, windows);
      idsToPages := Rebuild(idsToPages, alivePages);
      assert forall k :: k in idsToPages <==> k in Surviving(m, windows);
      assert forall k :: k in idsToPages ==> idsToPages[k] == Surviving(m, windows)[k];
      assert idsToPages == Surviving(m, windows);
      assert Valid();
    }

    /** `getPage`: sweeps, then looks `id` up. */
    method GetPage(id: int, windows: seq<seq<Option<P>>>) returns (page: Option<P>)
      requires Valid()
      modifies this
      ensures Valid()
      ensures idsToPages == Surviving(old(idsToPages), windows)
      ensures page.Some? <==> id in old(idsToPages) && IsShown(windows, old(idsToPages)[id])
      ensures page.Some? ==> page.value == old(idsToPages)[id]
    {
      CleanWindows(windows);
      if id in idsToPages {
        page := Some(idsToPages[id]);
      } else {
        page := None;
      }
    }

    /** `getActivePageId`: the id of the active tab's active page, if any. */
    method GetActivePageId(active: ActivePage<P>) returns (id: Option<int>)
      requires Valid()
      modifies this
      ensures Valid()
      ensures id.Some? <==> active.ActivePage?
      ensures id.Some? ==> id.value in idsToPages && idsToPages[id.value] == active.page
      ensures active.ActivePage? && Stores(old(idsToPages), active.page) ==> idsToPages == old(idsToPages)
      ensures active.ActivePage? && !Stores(old(idsToPages), active.page) ==>
        id.value == hashValue(active.page) && idsToPages == old(idsToPages)[id.value := active.page]
      ensures !active.ActivePage? ==> idsToPages == old(idsToPages)
    {
      if active.ActivePage? {
        var pageId := GetPageId(active.page);
        id := Some(pageId);
      } else {
        id := None;
      }
    }
  }

  /** A page whose id colliding with a stored page's is stored in its place. */
  lemma CollisionForgetsDisplacedPage<P>(m: map<int, P>, page: P, h: int)
    requires Injective(m) && !Stores(m, page) && h in m
    ensures !Stores(m[h := page], m[h])
  {
    NotStoredAt(m, page, h);
  }
}
