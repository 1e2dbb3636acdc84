/**
 * HackBrowserWindow: the per-window controller that owns the tab list, the
 * active tab and the two tab counters, and relays chrome commands to the
 * active tab.
 */
module Window {
  import opened Wrappers
  import opened Tabs
  import opened Chrome
  import opened TabCounts

  /** The page the first tab of a window opens. */
  const HomePage := "http://www.google.com/"

  /** The calls activateTabById makes before the refresh: deactivate `previous` (if any), activate `id`. */
  function HandOverCalls(previous: TabView?, id: TabId): (r: seq<Call>)
    ensures |r| == (if previous != null then 2 else 1) && r[|r| - 1] == Activated(id)
    ensures previous != null ==> r[0] == Deactivated(previous.id)
  {
    (if previous != null then [Deactivated(previous.id)] else []) + [Activated(id)]
  }

  /** The calls activateTabById makes when it switches from `previous` to tab `t`. */
  function SwitchCalls(previous: TabView?, t: TabState): (r: seq<Call>)
    ensures forall c :: c in r && c.Activated? ==> c.tab == t.id
    ensures forall b :: Render(b, r) == Shown(t)
  {
    var r := HandOverCalls(previous, t.id) + RefreshCalls(t);
    assert forall b :: Render(b, r) == Shown(t) by {
      forall b ensures Render(b, r) == Shown(t) {
        RenderAppend(b, HandOverCalls(previous, t.id), RefreshCalls(t));
      }
    }
    r
  }

  /** Handing over from the one active tab `previous` (if any) leaves `id` as the one active tab. */
  lemma HandOverLeavesOneActive(active: set<TabId>, previous: TabView?, id: TabId)
    requires active == if previous == null then {} else {previous.id}
    ensures ActiveAfter(active, HandOverCalls(previous, id)) == {id}
  {
    if previous != null {
      ActiveAfterAppend(active, [Deactivated(previous.id)], [Activated(id)]);
      assert ActiveAfter(active, [Deactivated(previous.id)]) == {} by {
        assert [Deactivated(previous.id)][1..] == [];
      }
      assert [Activated(id)][1..] == [];
    } else {
      assert HandOverCalls(previous, id)[1..] == [];
    }
  }

  /** Switching from the one active tab `previous` (if any) leaves `t` as the one active tab. */
  lemma SwitchLeavesOneActive(active: set<TabId>, previous: TabView?, t: TabState)
    requires active == if previous == null then {} else {previous.id}
    ensures ActiveAfter(active, SwitchCalls(previous, t)) == {t.id}
  {
    HandOverLeavesOneActive(active, previous, t.id);
    ActiveAfterQuietAppend(active, HandOverCalls(previous, t.id), RefreshCalls(t));
  }

  class HackBrowserWindow {
    var activeTabView: TabView?
    var createdTabViewCount: int
    var openTabViewCount: int
    var tabList: map<TabId, TabView>
    /** How many times remote.getCurrentWindow().close() was called. */
    var closeRequests: nat
    /**
     * Every call with an effect on a tab, the menu bar, the document title or a
     * webview, in order. The window close is counted in `closeRequests`; reads
     * (isDOMReady, canGoBack, getURL, ...) are not logged.
     */
    var calls: seq<Call>

    /**
     * Each tab is filed under its own id, and the tabs that have been
     * activated and not deactivated since are exactly the active tab view
     * (which may have been closed already).
     */
    ghost predicate Valid()
      reads this
    {
      (forall k :: k in tabList ==> tabList[k].id == k) &&
      ActiveAfter({}, calls) == ActiveIds()
    }

    /** The id of the active tab view, as a set: empty before any activation. */
    function ActiveIds(): set<TabId>
      reads this
    {
      if activeTabView == null then {} else {activeTabView.id}
    }

    /** The bookkeeping part of the state. */
    function Counts(): Ledger
      reads this
    {
      Ledger(tabList.Keys, openTabViewCount, closeRequests)
    }

    /** The active tab view is set and still filed in the tab list. */
    predicate ActiveIsListed()
      reads this
    {
      activeTabView != null && activeTabView.id in tabList && tabList[activeTabView.id] == activeTabView
    }

    /** True when `id` is the id of the active tab view (closed or not). */
    predicate IsActiveId(id: TabId)
      reads this
    {
      activeTabView != null && activeTabView.id == id
    }

    /** init(): open the home page in a first tab and activate it. */
    constructor (firstId: TabId)
      ensures Valid()
      ensures tabList.Keys == {firstId} && activeTabView == tabList[firstId] && fresh(activeTabView)
      ensures activeTabView.State() == TabState(firstId, false, false, false, "", HomePage)
      ensures ActiveAfter({}, calls) == {firstId}
      ensures Counts() == Opened(firstId) && createdTabViewCount == 0
      ensures calls == [Activated(firstId)] + RefreshCalls(activeTabView.State())
    {
      activeTabView := null;
      createdTabViewCount := 0;
      openTabViewCount := 0;
      tabList := map[];
      closeRequests := 0;
      calls := [];
      new;
      AddNewTab(Some(HomePage), true, firstId);
    }

    /**
     * The click handler attachEventHandlers installs on the add-tab button:
     * open a blank tab (no URL) and activate it.
     */
    method AddTabButtonClicked(id: TabId)
      requires Valid()
      modifies this
      ensures Valid()
      ensures id in tabList && tabList == old(tabList)[id := tabList[id]] && fresh(tabList[id])
      ensures tabList[id].State() == TabState(id, false, false, false, "", "")
      ensures Counts() == Step(old(Counts()), Add(id)) && createdTabViewCount == old(createdTabViewCount)
      ensures old(IsActiveId(id)) ==> activeTabView == old(activeTabView) && calls == old(calls)
      ensures !old(IsActiveId(id)) ==>
                activeTabView == tabList[id] && ActiveAfter({}, calls) == {id} &&
                calls == old(calls) + SwitchCalls(old(activeTabView), tabList[id].State())
    {
      AddNewTab(None, true, id);
    }

    /** navigateTo(url): handed to the active tab as it is. */
    method NavigateTo(url: string)
      requires Valid() && activeTabView != null
      modifies this`calls
      ensures Valid()
      ensures calls == old(calls) + [Navigated(activeTabView.id, url)]
    {
      calls := calls + [Navigated(activeTabView.id, url)];
      ActiveAfterQuietAppend({}, old(calls), [Navigated(activeTabView.id, url)]);
    }

    /** updateWindowTitle(title): the document title becomes `title`. */
    method UpdateWindowTitle(title: string)
      requires Valid()
      modifies this`calls
      ensures Valid()
      ensures calls == old(calls) + [TitleSet(title)]
    {
      calls := calls + [TitleSet(title)];
      ActiveAfterQuietAppend({}, old(calls), [TitleSet(title)]);
    }

    /**
     * addNewTab(url, activate): file a new tab under its id, activate it when
     * asked, and count it as open. An id already in the list is overwritten
     * and still counted, so the counter stays in step with the list only for
     * fresh ids. Activation goes through activateTabById, so it does nothing
     * when the active tab view (closed or not) carries the same id.
     */
    method AddNewTab(url: Option<string>, activate: bool, id: TabId)
      requires Valid()
      modifies this
      ensures Valid()
      ensures id in tabList && tabList == old(tabList)[id := tabList[id]] && fresh(tabList[id])
      ensures tabList[id].State() == TabState(id, false, false, false, "", url.GetOr(""))
      ensures Counts() == Step(old(Counts()), Add(id)) && createdTabViewCount == old(createdTabViewCount)
      ensures id !in old(tabList) && Consistent(old(Counts())) ==> Consistent(Counts())
      ensures !activate || old(IsActiveId(id)) ==>
                activeTabView == old(activeTabView) && calls == old(calls)
      ensures activate && !old(IsActiveId(id)) ==>
                activeTabView == tabList[id] && ActiveAfter({}, calls) == {id} &&
                calls == old(calls) + SwitchCalls(old(activeTabView), tabList[id].State())
    {
      var newTabView := FileNewTab(url, id);
      if activate {
        ActivateTabById(id);
      }
      CountOpenedTab();
    }

    /**
     * The start of addNewTab: a new tab filed under `id`. An internal step of
     * AddNewTab, not an operation of the controller's interface on its own.
     */
    method FileNewTab(url: Option<string>, id: TabId) returns (t: TabView)
      requires Valid()
      modifies this`tabList
      ensures Valid() && fresh(t)
      ensures tabList == old(tabList)[id := t] && tabList.Keys == old(tabList.Keys) + {id}
      ensures id !in old(tabList) ==> |tabList.Keys| == |old(tabList.Keys)| + 1
      ensures t.State() == TabState(id, false, false, false, "", url.GetOr(""))
    {
      t := new TabView(id, url);
      tabList := tabList[id := t];
    }

    /**
     * The end of addNewTab: `openTabViewCount++`. An internal step of
     * AddNewTab, not an operation of the controller's interface on its own.
     */
    method CountOpenedTab()
      requires Valid()
      modifies this`openTabViewCount
      ensures Valid() && openTabViewCount == old(openTabViewCount) + 1
    {
      openTabViewCount := openTabViewCount + 1;
    }

    /**
     * activateTabById(id): nothing happens when `id` is already the active
     * tab's id or is not in the tab list; otherwise the previous tab is
     * deactivated, tab `id` becomes the active tab, is activated, and the
     * chrome is refreshed, in that order. Afterwards the active tab is listed
     * and is the one active tab.
     */
    method ActivateTabById(id: TabId)
      requires Valid()
      modifies this`activeTabView, this`calls
      ensures Valid()
      ensures old(IsActiveId(id)) || id !in tabList ==>
                activeTabView == old(activeTabView) && calls == old(calls)
      ensures !old(IsActiveId(id)) && id in tabList ==>
                activeTabView == tabList[id] && ActiveIsListed() && ActiveAfter({}, calls) == {id} &&
                calls == old(calls) + SwitchCalls(old(activeTabView), activeTabView.State())
    {
      if activeTabView != null && activeTabView.id == id {
        return;
      }
      if id in tabList {
        if activeTabView != null {
          calls := calls + [Deactivated(activeTabView.id)];   // activeTabView.deactivate()
        }
        activeTabView := tabList[id];
        calls := calls + [Activated(id)];                     // activeTabView.activate()
        assert calls == old(calls) + HandOverCalls(old(activeTabView), id);
        ActiveAfterAppend({}, old(calls), HandOverCalls(old(activeTabView), id));
        HandOverLeavesOneActive(ActiveAfter({}, old(calls)), old(activeTabView), id);
        UpdateWindowControls();
        assert calls == old(calls) + SwitchCalls(old(activeTabView), activeTabView.State());
      }
    }

    /**
     * updateWindowControls(): set the history buttons from the active tab's
     * webview once it is DOM-ready, disable both before, and show its title
     * and URL. Whatever the chrome showed before, it shows the active tab now.
     */
    method UpdateWindowControls()
      requires Valid() && activeTabView != null
      modifies this`calls
      ensures Valid()
      ensures calls == old(calls) + RefreshCalls(activeTabView.State())
      ensures forall b :: Render(b, calls) == Shown(activeTabView.State())
    {
      if activeTabView.ready {
        calls := calls + [NavButtonsUpdated(activeTabView.canGoBack, activeTabView.canGoForward)];
        ActiveAfterQuietAppend({}, old(calls), [NavButtonsUpdated(activeTabView.canGoBack, activeTabView.canGoForward)]);
      } else {
        calls := calls + [BackButtonDisabled];
        calls := calls + [ForwardButtonDisabled];
        assert calls == old(calls) + [BackButtonDisabled, ForwardButtonDisabled];
        ActiveAfterQuietAppend({}, old(calls), [BackButtonDisabled, ForwardButtonDisabled]);
      }
      UpdateWindowTitle(activeTabView.title);
      ghost var titled := calls;
      calls := calls + [UrlFieldSet(activeTabView.url)];
      ActiveAfterQuietAppend({}, titled, [UrlFieldSet(activeTabView.url)]);
      assert calls == old(calls) + RefreshCalls(activeTabView.State());
      forall b ensures Render(b, calls) == Shown(activeTabView.State()) {
        RenderAppend(b, old(calls), RefreshCalls(activeTabView.State()));
      }
    }

    /** getActiveTabView() */
    method GetActiveTabView() returns (t: TabView?)
      ensures t == activeTabView
    {
      t := activeTabView;
    }

    /** increaseCreatedTabViewCount() */
    method IncreaseCreatedTabViewCount()
      modifies this`createdTabViewCount
      ensures createdTabViewCount == old(createdTabViewCount) + 1
    {
      createdTabViewCount := createdTabViewCount + 1;
    }

    /** getCreatedTabViewCount() */
    method GetCreatedTabViewCount() returns (n: int)
      ensures n == createdTabViewCount
    {
      n := createdTabViewCount;
    }

    /**
     * goBack(): the webview goes back only when the tab is DOM-ready and has
     * somewhere to go back to, which is exactly when a refresh of the chrome
     * for it shows the back button enabled.
     */
    method GoBack()
      requires Valid() && activeTabView != null
      modifies this`calls
      ensures Valid()
      ensures var t := activeTabView.State();
              calls == old(calls) + (if t.ready && t.canGoBack then [WentBack(t.id)] else [])
      ensures calls != old(calls) <==> Shown(activeTabView.State()).backEnabled
    {
      if activeTabView.ready && activeTabView.canGoBack {
        calls := calls + [WentBack(activeTabView.id)];
        ActiveAfterQuietAppend({}, old(calls), [WentBack(activeTabView.id)]);
      }
    }

    /** goForward(): as goBack, for the forward direction. */
    method GoForward()
      requires Valid() && activeTabView != null
      modifies this`calls
      ensures Valid()
      ensures var t := activeTabView.State();
              calls == old(calls) + (if t.ready && t.canGoForward then [WentForward(t.id)] else [])
      ensures calls != old(calls) <==> Shown(activeTabView.State()).forwardEnabled
    {
      if activeTabView.ready && activeTabView.canGoForward {
        calls := calls + [WentForward(activeTabView.id)];
        ActiveAfterQuietAppend({}, old(calls), [WentForward(activeTabView.id)]);
      }
    }

    /** reload(): always handed to the active tab's webview. */
    method Reload()
      requires Valid() && activeTabView != null
      modifies this`calls
      ensures Valid()
      ensures calls == old(calls) + [Reloaded(activeTabView.id)]
    {
      calls := calls + [Reloaded(activeTabView.id)];
      ActiveAfterQuietAppend({}, old(calls), [Reloaded(activeTabView.id)]);
    }

    /**
     * closeTabViewById(id, tabIndex): drop `id` from the tab list and count one
     * tab fewer, present or not; ask for the window to close when the count
     * reaches zero. The active tab view is left as it is, even when it is the
     * tab being closed. `tabIndex` is not used.
     */
    method CloseTabViewById(id: TabId, tabIndex: int)
      requires Valid()
      modifies this`tabList, this`openTabViewCount, this`closeRequests
      ensures Valid()
      ensures tabList == old(tabList) - {id}
      ensures Counts() == Step(old(Counts()), Close(id))
      ensures closeRequests == old(closeRequests) + (if openTabViewCount == 0 then 1 else 0)
      ensures id in old(tabList) && Consistent(old(Counts())) ==>
                Consistent(Counts()) &&
                (closeRequests == old(closeRequests) + 1 <==> old(tabList.Keys) == {id})
      ensures old(ActiveIsListed()) && !IsActiveId(id) ==> ActiveIsListed()
      ensures IsActiveId(id) ==> !ActiveIsListed()
    {
      tabList := tabList - {id};
      openTabViewCount := openTabViewCount - 1;
      if openTabViewCount == 0 {
        closeRequests := closeRequests + 1;
      }
      if id in old(tabList) && Consistent(old(Counts())) {
        StepConsistentIff(old(Counts()), Close(id));
        CloseRequestsWhenLastTab(old(Counts()), id);
      }
    }
  }

  /**
   * One tab opened at start, navigated and reloaded, a second opened and activated, then the second and
   * the first closed: the window is asked to close once, and the active tab
   * view is still the (closed) second tab, the one active tab.
   */
  method LastTabClosesWindow(t1: TabId, t2: TabId) returns (w: HackBrowserWindow, second: TabView)
    requires t1 != t2
    ensures w.Counts() == Ledger({}, 0, 1)
    ensures second.id == t2 && w.activeTabView == second
    ensures ActiveAfter({}, w.calls) == {t2}
  {
    w := new HackBrowserWindow(t1);
    w.NavigateTo(HomePage);
    w.Reload();
    ghost var l0 := w.Counts();
    assert l0 == Ledger({t1}, 1, 0);
    w.AddNewTab(None, true, t2);
    second := w.tabList[t2];
    ghost var l1 := w.Counts();
    assert l1 == Ledger({t1, t2}, 2, 0) by {
      assert l1 == Step(l0, Add(t2));
    }
    w.CloseTabViewById(t2, 1);
    ghost var l2 := w.Counts();
    assert l2 == Ledger({t1}, 1, 0) by {
      assert l2 == Step(l1, Close(t2));
      assert {t1, t2} - {t2} == {t1};
    }
    w.CloseTabViewById(t1, 0);
    assert w.Counts() == Step(l2, Close(t1));
  }
}
