/**
 * Tab views as the window controller sees them. The real TabView (its webview,
 * id generation, loading) is not part of this model: a TabView here is an
 * object whose fields stand for what its getters report. Whether a tab is
 * active is decided by the activate()/deactivate() calls the window makes on
 * it (see Chrome.ActiveAfter).
 */
module Tabs {
  import opened Wrappers

  /** The id a TabView generates for itself. */
  type TabId = nat

  /** What the window can read from a tab at one moment. */
  datatype TabState = TabState(
    id: TabId,
    ready: bool,         // isDOMReady()
    canGoBack: bool,     // getWebViewEl().canGoBack()
    canGoForward: bool,  // getWebViewEl().canGoForward()
    title: string,       // getWebViewTitle()
    url: string          // getURL()
  )

  class TabView {
    const id: TabId
    var ready: bool
    var canGoBack: bool
    var canGoForward: bool
    var title: string
    var url: string

    /** A new tab for `target`: not yet DOM-ready and without history. */
    constructor (id: TabId, target: Option<string>)
      ensures State() == TabState(id, false, false, false, "", target.GetOr(""))
    {
      this.id := id;
      ready, canGoBack, canGoForward := false, false, false;
      title, url := "", target.GetOr("");
    }

    function State(): TabState
      reads this
    {
      TabState(id, ready, canGoBack, canGoForward, title, url)
    }
  }
}
