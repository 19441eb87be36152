/**
 * What the host's asynchronous queries report, taken as inputs: the active
 * window's active tab (`getActiveWindow` then `getActiveTab`) and, one level
 * further, that tab's active page.
 */
module Host {

  datatype ActiveTab<T> = NoActiveWindow | NoActiveTab | ActiveTab(tab: T)

  datatype ActivePage<P> = NoWindowForPage | NoTabForPage | NoActivePage | ActivePage(page: P)
}
