/**
 * The calls the window controller makes on its collaborators (tab views,
 * the menu bar, the document title, the webview history), and what the
 * toolbar shows once a sequence of those calls has been made.
 */
module Chrome {
  import opened Tabs

  /**
   * One call with an effect that the window controller makes on a tab, the
   * menu bar, the document title or a webview. Reads of a tab's state are not
   * calls here, and the window close is counted apart.
   */
  datatype Call =
    | Deactivated(tab: TabId)                               // tabView.deactivate()
    | Activated(tab: TabId)                                 // tabView.activate()
    | NavButtonsUpdated(canGoBack: bool, canGoForward: bool) // menuBar.updateBtnStatus(webview)
    | BackButtonDisabled                                    // menuBar.disableBackBtn()
    | ForwardButtonDisabled                                 // menuBar.disableForwardBtn()
    | TitleSet(title: string)                               // document.title = title
    | UrlFieldSet(url: string)                              // menuBar.updateUrl(url)
    | WentBack(tab: TabId)                                  // webview.goBack()
    | WentForward(tab: TabId)                               // webview.goForward()
    | Reloaded(tab: TabId)                                  // webview.reload()
    | Navigated(tab: TabId, url: string)                    // tabView.navigateTo(url)

  /** What the window chrome displays. */
  datatype Toolbar = Toolbar(backEnabled: bool, forwardEnabled: bool, title: string, url: string)

  /** The effect of one call on the chrome; calls to tabs and history leave it as it is. */
  function Apply(b: Toolbar, c: Call): Toolbar {
    match c
    case NavButtonsUpdated(back, forward) => b.(backEnabled := back, forwardEnabled := forward)
    case BackButtonDisabled => b.(backEnabled := false)
    case ForwardButtonDisabled => b.(forwardEnabled := false)
    case TitleSet(t) => b.(title := t)
    case UrlFieldSet(u) => b.(url := u)
    case _ => b
  }

  /** The chrome after `calls` have been made, in order, starting from `b`. */
  function Render(b: Toolbar, calls: seq<Call>): Toolbar
    decreases |calls|
  {
    if calls == [] then b else Render(Apply(b, calls[0]), calls[1..])
  }

  lemma {:induction false} RenderAppend(b: Toolbar, xs: seq<Call>, ys: seq<Call>)
    ensures Render(b, xs + ys) == Render(Render(b, xs), ys)
    decreases |xs|
  {
    if xs != [] {
      assert (xs + ys)[0] == xs[0];
      assert (xs + ys)[1..] == xs[1..] + ys;
      RenderAppend(Apply(b, xs[0]), xs[1..], ys);
    } else {
      assert xs + ys == ys;
    }
  }

  lemma RenderOne(b: Toolbar, c: Call)
    ensures Render(b, [c]) == Apply(b, c)
  {
  }

  /** The effect of one call on the set of active tabs. */
  function Activity(active: set<TabId>, c: Call): set<TabId> {
    match c
    case Activated(t) => active + {t}
    case Deactivated(t) => active - {t}
    case _ => active
  }

  /** The ids of the active tabs after `calls` have been made, starting from `active`. */
  function ActiveAfter(active: set<TabId>, calls: seq<Call>): set<TabId>
    decreases |calls|
  {
    if calls == [] then active else ActiveAfter(Activity(active, calls[0]), calls[1..])
  }

  lemma {:induction false} ActiveAfterAppend(active: set<TabId>, xs: seq<Call>, ys: seq<Call>)
    ensures ActiveAfter(active, xs + ys) == ActiveAfter(ActiveAfter(active, xs), ys)
    decreases |xs|
  {
    if xs != [] {
      assert (xs + ys)[0] == xs[0];
      assert (xs + ys)[1..] == xs[1..] + ys;
      ActiveAfterAppend(Activity(active, xs[0]), xs[1..], ys);
    } else {
      assert xs + ys == ys;
    }
  }

  /** A run of calls none of which activates or deactivates a tab leaves the active set alone. */
  lemma {:induction false} ActiveAfterQuiet(active: set<TabId>, calls: seq<Call>)
    requires forall c :: c in calls ==> !c.Activated? && !c.Deactivated?
    ensures ActiveAfter(active, calls) == active
    decreases |calls|
  {
    if calls != [] {
      assert calls[0] in calls;
      ActiveAfterQuiet(Activity(active, calls[0]), calls[1..]);
    }
  }

  /** Appending calls that neither activate nor deactivate a tab keeps the active set of a log. */
  lemma ActiveAfterQuietAppend(active: set<TabId>, xs: seq<Call>, ys: seq<Call>)
    requires forall c :: c in ys ==> !c.Activated? && !c.Deactivated?
    ensures ActiveAfter(active, xs + ys) == ActiveAfter(active, xs)
  {
    ActiveAfterAppend(active, xs, ys);
    ActiveAfterQuiet(ActiveAfter(active, xs), ys);
  }

  /**
   * What the chrome should show for tab `t`: a history button is enabled only
   * when the tab is DOM-ready and its webview can move that way.
   */
  function Shown(t: TabState): Toolbar {
    Toolbar(t.ready && t.canGoBack, t.ready && t.canGoForward, t.title, t.url)
  }

  /**
   * The calls updateWindowControls makes for the active tab `t`. The webview's
   * history is read only once the tab is DOM-ready; whatever the chrome showed
   * before, it shows `Shown(t)` afterwards.
   */
  function RefreshCalls(t: TabState): (r: seq<Call>)
    ensures forall c :: c in r && c.NavButtonsUpdated? ==> t.ready
    ensures forall c :: c in r ==> !c.Activated? && !c.Deactivated?
    ensures forall b :: Render(b, r) == Shown(t)
  {
    var buttons := if t.ready then [NavButtonsUpdated(t.canGoBack, t.canGoForward)]
                   else [BackButtonDisabled, ForwardButtonDisabled];
    var r := buttons + [TitleSet(t.title)] + [UrlFieldSet(t.url)];
    assert forall b :: Render(b, r) == Shown(t) by {
      forall b ensures Render(b, r) == Shown(t) {
        RenderAppend(b, buttons + [TitleSet(t.title)], [UrlFieldSet(t.url)]);
        RenderAppend(b, buttons, [TitleSet(t.title)]);
        if t.ready {
          RenderOne(b, buttons[0]);
        } else {
          assert buttons == [BackButtonDisabled] + [ForwardButtonDisabled];
          RenderAppend(b, [BackButtonDisabled], [ForwardButtonDisabled]);
          RenderOne(b, BackButtonDisabled);
          RenderOne(Apply(b, BackButtonDisabled), ForwardButtonDisabled);
        }
        RenderOne(Render(b, buttons), TitleSet(t.title));
        RenderOne(Render(b, buttons + [TitleSet(t.title)]), UrlFieldSet(t.url));
      }
    }
    r
  }

  /**
   * A tab that is not DOM-ready refreshes the chrome the same way whatever its
   * history, and the refresh leaves both history buttons disabled.
   */
  lemma RefreshIgnoresHistoryUntilReady(t: TabState, canGoBack: bool, canGoForward: bool)
    requires !t.ready
    ensures RefreshCalls(t) == RefreshCalls(t.(canGoBack := canGoBack, canGoForward := canGoForward))
    ensures forall b :: !Render(b, RefreshCalls(t)).backEnabled && !Render(b, RefreshCalls(t)).forwardEnabled
  {
  }
}
