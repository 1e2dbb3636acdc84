# HackBrowserWindow tab registry, in Dafny

This project models the window controller of a small Electron browser shell,
`HackBrowserWindow` (js/browser-window/HackBrowserWindow.js). Each browser window
owns one controller. The controller keeps:

- a dictionary `tabList` from tab id to tab view;
- a pointer to the active tab view;
- the counters `openTabViewCount` and `createdTabViewCount`;
- the rule that closing the last open tab closes the window.

It also relays the chrome's commands (navigate, back, forward, reload) to the
active tab, and it refreshes the chrome (history buttons, title, URL field)
from the active tab.

Layout:

- `wrappers.dfy`: module `Wrappers`, an `Option` type for the source's
  "`null` means no URL".
- `tabs.dfy`: module `Tabs`. `TabView` is a class. Its fields stand for what
  the real tab view's getters report: `isDOMReady`, `canGoBack`,
  `canGoForward`, the title and the URL.
- `chrome.dfy`: module `Chrome`. `Call` lists every call with an effect that
  the controller makes on a tab, the menu bar, the title or a webview. The
  window close is counted in `closeRequests` instead. Reads such as
  `isDOMReady()`, `canGoBack()`, `getWebViewTitle()`, `getURL()` and `getId()`
  are not logged. The logged calls are:
  - tab `activate`/`deactivate`;
  - the menu bar's button and URL updates;
  - `document.title`;
  - webview `goBack`/`goForward`/`reload`;
  - `navigateTo`.

  The module also gives two readings of a sequence of such calls:
  - `Render`: what the toolbar shows afterwards;
  - `ActiveAfter`: which tabs are active afterwards.
- `tab_counts.dfy`: module `TabCounts`, the bookkeeping as a value (`Ledger`):
  - the ids in the list;
  - the open-tab counter;
  - the number of window-close requests.

  `Step` and `Run` give its transitions, and lemmas state what holds along
  any run.
- `hack_browser_window.dfy`: module `Window`, the controller as a class. Its
  methods change `tabList`, `activeTabView`, the counters, `closeRequests`
  and the call log `calls` in place.

The source has two quirks, and the model keeps both:

- Closing a tab never clears or reassigns `activeTabView`.
- `closeTabViewById` decrements the counter even for an id that is not in the
  list.

So "the active tab is listed" and "the counter equals the number of tabs" are
stated only under explicit conditions:

- added ids are fresh;
- closed ids are present;
- the closed tab is not the active one.

A `Valid()` invariant holds in every state, and every method keeps it:

- each tab is filed under its own id;
- the tabs activated and not since deactivated, as recorded in the call log,
  are exactly the active tab view.

So at most one tab is ever active.

## Model

| member | source | states |
|---|---|---|
| Window.HackBrowserWindow.constructor | js/browser-window/HackBrowserWindow.js:27-38 | After init, the list holds exactly one tab and that tab is the active one. It is the one active tab, opened on the home page, not yet ready. The counters are 1 and 0, and the calls are its activation followed by a chrome refresh. |
| Window.HackBrowserWindow.AddTabButtonClicked | js/browser-window/HackBrowserWindow.js:40-46 | The add-tab button opens a blank tab, takes one ledger `Add` step, and leaves the created counter alone. When the active tab view already carries that id, the active tab and the calls are unchanged. Otherwise the new tab becomes the one active tab, after the deactivate, activate and refresh calls. |
| Window.HackBrowserWindow.NavigateTo | js/browser-window/HackBrowserWindow.js:52-54 | The URL is handed to the active tab unchanged, and nothing else happens. The set of active tabs is kept. |
| Window.HackBrowserWindow.UpdateWindowTitle | js/browser-window/HackBrowserWindow.js:56-58 | The window title is set to the given string. The set of active tabs is kept. |
| Window.HackBrowserWindow.AddNewTab | js/browser-window/HackBrowserWindow.js:60-71 | The new tab is stored under its id and every other entry is unchanged. The ledger takes one `Add` step, so the open count rises by exactly one. When `activate` is false, or the active tab view already has this id, the active tab and the calls are unchanged. Otherwise the new tab becomes the one active tab, after the deactivate, activate and refresh calls. |
| Window.HackBrowserWindow.FileNewTab | js/browser-window/HackBrowserWindow.js:61-64 | An internal step of `AddNewTab`. A fresh, not-ready tab is filed under `id`, so the key set grows by `id`. When `id` was absent, its size grows by exactly one. |
| Window.HackBrowserWindow.CountOpenedTab | js/browser-window/HackBrowserWindow.js:70 | An internal step of `AddNewTab`. The open-tab counter rises by one and the invariant is kept. |
| Window.HackBrowserWindow.ActivateTabById | js/browser-window/HackBrowserWindow.js:73-93 | If the id is the active tab's, or is not in the list, nothing changes: same active tab, same list, no calls. Otherwise the previous tab is deactivated, the tab becomes active, and the chrome is refreshed, in that order. Afterwards the active tab is listed and is the only active tab. |
| Tabs.TabView.constructor | js/browser-window/HackBrowserWindow.js:61 | The stand-in for `new TabView(_this, url)`: the new tab carries the given id, is not DOM-ready, has no history and an empty title, and shows the requested URL (empty when none was given). |
| TabCounts.Step | js/browser-window/HackBrowserWindow.js:60-162 | One add or close on the bookkeeping. An add lists the id and counts one tab more. A close unlists the id and counts one tab fewer, listed or not. A window close is requested exactly when the count reaches 0. No other id is touched. |
| Window.HandOverCalls | js/browser-window/HackBrowserWindow.js:82-89 | The first part of a tab switch: the previous tab is deactivated first when there is one, and the new tab is activated last. |
| Window.SwitchCalls | js/browser-window/HackBrowserWindow.js:82-91 | The whole switch sequence. Only the new tab is activated, and whatever the chrome showed before, it then shows the new tab. |
| Window.HandOverLeavesOneActive | js/browser-window/HackBrowserWindow.js:82-89 | Deactivating the one active tab (if any), then activating tab `id`, leaves `id` as the only active tab. |
| Window.SwitchLeavesOneActive | js/browser-window/HackBrowserWindow.js:82-91 | Deactivating the one active tab (if any), then activating `t` and refreshing, leaves `t` as the only active tab. |
| Window.HackBrowserWindow.UpdateWindowControls | js/browser-window/HackBrowserWindow.js:96-110 | The refresh calls are appended for the active tab. Whatever the chrome showed before, it then shows that tab's title and URL. Back and forward are enabled only if the tab is DOM-ready and its webview can go that way. The set of active tabs is kept. |
| Chrome.RefreshCalls | js/browser-window/HackBrowserWindow.js:100-109 | The webview's history state is read only when the tab is DOM-ready, and no refresh call activates or deactivates a tab. Applied to any toolbar, the calls leave it showing `Shown(t)`. |
| Chrome.RefreshIgnoresHistoryUntilReady | js/browser-window/HackBrowserWindow.js:100-106 | For a tab that is not DOM-ready, the refresh calls are the same whatever its history state. Rendered on any toolbar, they leave both history buttons disabled. |
| Window.HackBrowserWindow.GetActiveTabView | js/browser-window/HackBrowserWindow.js:116-118 | Returns the active tab view. |
| Window.HackBrowserWindow.IncreaseCreatedTabViewCount | js/browser-window/HackBrowserWindow.js:120-122 | The created-tab counter rises by one. |
| Window.HackBrowserWindow.GetCreatedTabViewCount | js/browser-window/HackBrowserWindow.js:124-126 | Returns the created-tab counter. |
| Window.HackBrowserWindow.GoBack | js/browser-window/HackBrowserWindow.js:128-132 | A back move is issued exactly when the active tab is ready and can go back, which is when a refresh shows back enabled. Otherwise nothing changes. The set of active tabs is kept. |
| Window.HackBrowserWindow.GoForward | js/browser-window/HackBrowserWindow.js:134-138 | A forward move is issued exactly when the active tab is ready and can go forward, which is when a refresh shows forward enabled. Otherwise nothing changes. The set of active tabs is kept. |
| Window.HackBrowserWindow.Reload | js/browser-window/HackBrowserWindow.js:140-142 | A reload is always handed to the active tab's webview. The set of active tabs is kept. |
| Window.HackBrowserWindow.CloseTabViewById | js/browser-window/HackBrowserWindow.js:152-162 | The id is removed and the counter drops by one, whether or not the id was present. A close request is made exactly when the counter reaches 0. The active tab view is untouched, so if it was listed and not the closed tab, it is still listed. When a present id is closed and the counter matched the list, the counter still matches, and a close is requested exactly when that id was the last tab. |
| TabCounts.StepConsistentIff | js/browser-window/HackBrowserWindow.js:152-155 | Starting from a counter equal to the number of tabs, one add or close keeps them equal exactly when the added id is fresh or the closed id is present. Closing an absent id, or re-adding a present one, leaves the counter off. |
| TabCounts.RunKeepsConsistent | js/browser-window/HackBrowserWindow.js:60-71 | Along any sequence of adds and closes where added ids are fresh and closed ids are present, the open counter equals the number of listed tabs. |
| TabCounts.CloseRequestsWhenLastTab | js/browser-window/HackBrowserWindow.js:155-161 | Closing a present tab, with the counter matching, requests a window close exactly when it was the last tab, and empties the list exactly then. |
| TabCounts.CloseRequestsCountLastTabCloses | js/browser-window/HackBrowserWindow.js:152-162 | Along such a sequence, the counter-based rule requests exactly one window close for each close that leaves the list empty, and none otherwise. |
| TabCounts.TwoTabsOpenedAndClosed | js/browser-window/HackBrowserWindow.js:152-162 | Start with one tab, add a second, then close the second and the first: the list ends empty, the count at 0, and one close request. |
| Window.LastTabClosesWindow | js/browser-window/HackBrowserWindow.js:152-162 | The same scenario on the class, with a navigate and a reload of the first tab before the second is added. Afterwards the list is empty, the count is 0 and exactly one close was requested. The second tab object, which the method returns, is no longer listed but is still the active tab view and the only active tab. |
| Chrome.RenderAppend | js/browser-window/HackBrowserWindow.js:96-110 | What the chrome shows after two runs of calls is what the second run shows, started from what the first left. |
| Chrome.ActiveAfterAppend | js/browser-window/HackBrowserWindow.js:82-89 | The active set after two runs of calls is what the second run makes of the set the first left. |
| Chrome.ActiveAfterQuiet | js/browser-window/HackBrowserWindow.js:96-110 | Calls that neither activate nor deactivate a tab leave the active set unchanged. |
| Chrome.ActiveAfterQuietAppend | js/browser-window/HackBrowserWindow.js:52-142 | Appending such calls to a log leaves the log's active set unchanged. Navigating, setting the title, refreshing, going back or forward and reloading therefore keep the invariant. |

## Left out

- DOM access is not modelled: `document.getElementById`, `addEventListener` and `preventDefault`. The click handler is modelled as the method `AddTabButtonClicked`, and `document.title` as a recorded `TitleSet` call.
- `remote.getCurrentWindow().close()` is a foreign call. It is modelled as incrementing `closeRequests`.
- `console.log` tracing is not modelled.
- `getMenuBar` is not modelled. MenuBar is not part of this model, so there is no object to return. The menu bar's calls appear in the call log instead.
- TabView is not part of this model. The stand-in tab starts not DOM-ready, with no history and an empty title. Its URL is the requested one, or empty when none was given. Its fields can only change in ways this model does not describe. Whether a tab is active is read off the `activate`/`deactivate` calls, not a field of the tab.
- How TabView generates ids is not modelled, and neither is whether its constructor calls `increaseCreatedTabViewCount`. `AddNewTab` takes the id as a parameter and leaves `createdTabViewCount` alone.
- Model assumption: `menuBar.updateBtnStatus(webview)` enables back and forward exactly as `canGoBack()` and `canGoForward()` report. `Render` relies on this.
- Real webview navigation, loading and history are out of scope. Only the decision whether to issue the call is modelled.
- `activate === true` is modelled as a `bool`. A non-boolean truthy value, which the source would not treat as true, has no counterpart.
- The counters are unbounded `int`s. JavaScript numbers are doubles, but tab counts never come near their exact-integer range.
- A method called while `activeTabView` is still null throws in the source. These methods require it non-null: `NavigateTo`, `UpdateWindowControls`, `GoBack`, `GoForward` and `Reload`. The constructor sets it before any of them can run, and nothing clears it afterwards.
- `tabIndex`, the second parameter of `closeTabViewById`, is unused in the source and in the model.
- Tab ids are one type, `TabId` (a natural number). In JavaScript, `tabList[id]` and `hasOwnProperty(id)` turn the id into a string key, so `5` and `"5"` name the same entry, while the `===` test in `activateTabById` tells them apart. The model has no such mixed-type ids.
