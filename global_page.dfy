/**
 * GlobalPage.swift: the native side of the embedded script context. It
 * routes messages from the script to tabs or to native handlers, passes
 * messages from tabs to the script, guards the handlers' arguments, races
 * the host's active-window query against a timeout, and loads the bundled
 * scripts at startup.
 *
 * Host services are inputs: `bundlePath(resource, type, directory)` stands
 * for `Bundle.main.path(forResource:ofType:inDirectory:)`, `readUtf8` for
 * `String(contentsOfFile:encoding: .utf8)`, `parseUrl` for
 * `URLComponents(string:)?.url`.
 */
module GlobalPage {
  import opened Wrappers
  import opened JsValue
  import opened Host
  import opened ResourcePaths
  import IdentityMap
  import TabRegistry

  type BundlePath = (string, string, string) -> Option<string>
  type ReadFile = string -> Option<string>

  /** The `UserDefaults` key the connector preferences are stored under. */
  const PrefsKey := "ConnectorPrefs"

  /** The `tabId` passed to the script when there is no active window or tab. */
  const NoTab := -1

  // ---------------------------------------------------------------------
  // Dispatch of `sendMessageToTab`
  // ---------------------------------------------------------------------

  /** The message names `sendMessageToTab` handles natively. */
  datatype NativeCommand =
    | OpenWindow | OpenTab | CloseTab | Activate | GetVersion | GetBaseURI
    | GetCurrentLocale | GetDefaultLocale | GetDateFormatsJSON | GetFileContents
    | GetPrefs | SetPrefs | UpdateButton | GlobalAvailable

  function NameOf(c: NativeCommand): string {
    match c
    case OpenWindow => "Swift.openWindow"
    case OpenTab => "Swift.openTab"
    case CloseTab => "Swift.closeTab"
    case Activate => "Swift.activate"
    case GetVersion => "Swift.getVersion"
    case GetBaseURI => "Swift.getBaseURI"
    case GetCurrentLocale => "Swift.getCurrentLocale"
    case GetDefaultLocale => "Swift.getDefaultLocale"
    case GetDateFormatsJSON => "Swift.getDateFormatsJSON"
    case GetFileContents => "Swift.getFileContents"
    case GetPrefs => "Swift.getPrefs"
    case SetPrefs => "Swift.setPrefs"
    case UpdateButton => "Swift.updateButton"
    case GlobalAvailable => "Swift.globalAvailable"
  }

  /** The `switch name` of `sendMessageToTab`: the native command a name selects. */
  function CommandOf(name: string): (r: Option<NativeCommand>)
    ensures r.Some? ==> NameOf(r.value) == name
  {
    if name == "Swift.openWindow" then Some(OpenWindow)
    else if name == "Swift.openTab" then Some(OpenTab)
    else if name == "Swift.closeTab" then Some(CloseTab)
    else if name == "Swift.activate" then Some(Activate)
    else if name == "Swift.getVersion" then Some(GetVersion)
    else if name == "Swift.getBaseURI" then Some(GetBaseURI)
    else if name == "Swift.getCurrentLocale" then Some(GetCurrentLocale)
    else if name == "Swift.getDefaultLocale" then Some(GetDefaultLocale)
    else if name == "Swift.getDateFormatsJSON" then Some(GetDateFormatsJSON)
    else if name == "Swift.getFileContents" then Some(GetFileContents)
    else if name == "Swift.getPrefs" then Some(GetPrefs)
    else if name == "Swift.setPrefs" then Some(SetPrefs)
    else if name == "Swift.updateButton" then Some(UpdateButton)
    else if name == "Swift.globalAvailable" then Some(GlobalAvailable)
    else None
  }

  /** Every native name selects its own command: the fourteen cases are distinct. */
  lemma CommandOfName(c: NativeCommand)
    ensures CommandOf(NameOf(c)) == Some(c)
  {
  }

  /** Every native name lies in the "Swift." namespace. */
  lemma NativeNamesAreNamespaced(c: NativeCommand)
    ensures "Swift." <= NameOf(c)
  {
  }

  /** A name outside the "Swift." namespace is never handled natively. */
  lemma {:induction false} ForeignNamesAreForwarded(name: string)
    requires !("Swift." <= name)
    ensures CommandOf(name).None?
  {
    if CommandOf(name).Some? {
      NativeNamesAreNamespaced(CommandOf(name).value);
    }
  }

  /** What `sendMessageToTab` does with a message. */
  datatype Route =
    | Dropped
    | HandledLocally(command: NativeCommand)
    | ForwardToTab(tabId: int, name: string, userInfo: Value)
    | ForwardToActive(name: string, userInfo: Value)

  /** The `userInfo` of a forwarded message: `["args": [args, id]]`, a missing `args` becoming null. */
  function Payload(args: Option<Value>, id: string): (v: Value)
    ensures v.Obj? && v.fields.Keys == {"args"}
    ensures v.fields["args"] == Arr([GetOr(args, Null), Str(id)])
  {
    Obj(map["args" := Arr([GetOr(args, Null), Str(id)])])
  }

  /**
   * `sendMessageToTab(name, id, args, tabId)`: non-string names or ids are
   * rejected, the native names are handled here, and every other message is
   * forwarded with its payload, to the given tab if there is a tab id and
   * to the active tab otherwise.
   */
  function RouteMessage(name: Value, id: Value, args: Option<Value>, tabId: Option<int>): (r: Route)
    ensures r.Dropped? <==> !name.Str? || !id.Str?
    ensures r.HandledLocally? <==> name.Str? && id.Str? && CommandOf(name.s).Some?
    ensures r.HandledLocally? ==> NameOf(r.command) == name.s
    ensures r.ForwardToTab? <==> name.Str? && id.Str? && CommandOf(name.s).None? && tabId.Some?
    ensures r.ForwardToActive? <==> name.Str? && id.Str? && CommandOf(name.s).None? && tabId.None?
    ensures r.ForwardToTab? ==> r.tabId == tabId.value
    ensures r.ForwardToTab? || r.ForwardToActive? ==> r.name == name.s && r.userInfo == Payload(args, id.s)
  {
    if !name.Str? || !id.Str? then Dropped
    else
      match CommandOf(name.s)
      case Some(c) => HandledLocally(c)
      case None =>
        if tabId.Some? then ForwardToTab(tabId.value, name.s, Payload(args, id.s))
        else ForwardToActive(name.s, Payload(args, id.s))
  }

  /** The value `sendMessageToTab` returns: false on rejection, the handler's result, or true when forwarding. */
  function RouteResult(r: Route, handlerResult: bool): (b: bool)
    ensures r.Dropped? ==> !b
    ensures r.HandledLocally? ==> b == handlerResult
    ensures r.ForwardToTab? || r.ForwardToActive? ==> b
  {
    match r
    case Dropped => false
    case HandledLocally(_) => handlerResult
    case _ => true
  }

  /**
   * What `sendMessageToTab` returns to the script: false for a name or id
   * that is not a string, the native handler's result for one of the
   * fourteen native names, and true for every other message, which is
   * forwarded. In particular every message outside the "Swift." namespace
   * with string name and id is accepted.
   */
  lemma {:induction false} SendMessageToTabResult(name: Value, id: Value, args: Option<Value>, tabId: Option<int>,
                                                  handlerResult: bool)
    ensures !name.Str? || !id.Str? ==> !RouteResult(RouteMessage(name, id, args, tabId), handlerResult)
    ensures name.Str? && id.Str? && CommandOf(name.s).Some? ==>
      RouteResult(RouteMessage(name, id, args, tabId), handlerResult) == handlerResult
    ensures name.Str? && id.Str? && CommandOf(name.s).None? ==>
      RouteResult(RouteMessage(name, id, args, tabId), handlerResult)
    ensures name.Str? && id.Str? && !("Swift." <= name.s) ==>
      RouteResult(RouteMessage(name, id, args, tabId), handlerResult)
  {
    if name.Str? && id.Str? && !("Swift." <= name.s) {
      ForeignNamesAreForwarded(name.s);
    }
  }

  /** A `dispatchMessageToScript(withName:userInfo:)` call on a page. */
  datatype Dispatch<P> = Dispatch(page: P, name: string, userInfo: Value)

  /**
   * The delivery of a forwarded message. To a tab id: the tab table is
   * swept, and if the tab survives, its active page (if any) gets the
   * message. To the active tab: its active page (if any) gets it.
   */
  method Deliver<T(==), P>(tabs: TabRegistry.TabManager<T>, route: Route, windows: seq<seq<T>>,
                           activePageOf: T -> Option<P>, active: ActivePage<P>)
    returns (sent: Option<Dispatch<P>>)
    requires tabs.Valid()
    requires route.ForwardToTab? || route.ForwardToActive?
    modifies tabs
    ensures tabs.Valid()
    ensures route.ForwardToTab? ==> tabs.idsToTabs == TabRegistry.Surviving(old(tabs.idsToTabs), windows)
    ensures route.ForwardToTab? ==>
      tabs.retained == old(tabs.retained) - multiset(TabRegistry.DeadTabs(old(tabs.idsToTabs), windows))
    ensures route.ForwardToTab? ==>
      (sent.Some? <==> (route.tabId in old(tabs.idsToTabs) && TabRegistry.IsLive(windows, old(tabs.idsToTabs)[route.tabId])
                        && activePageOf(old(tabs.idsToTabs)[route.tabId]).Some?))
    ensures route.ForwardToTab? && sent.Some? ==>
      sent.value == Dispatch(activePageOf(old(tabs.idsToTabs)[route.tabId]).value, route.name, route.userInfo)
    ensures route.ForwardToActive? ==> tabs.idsToTabs == old(tabs.idsToTabs) && tabs.retained == old(tabs.retained)
    ensures route.ForwardToActive? ==> (sent.Some? <==> active.ActivePage?)
    ensures route.ForwardToActive? && sent.Some? ==> sent.value == Dispatch(active.page, route.name, route.userInfo)
  {
    if route.ForwardToTab? {
      var tab := tabs.GetTab(route.tabId, windows);
      if tab.Some? && activePageOf(tab.value).Some? {
        sent := Some(Dispatch(activePageOf(tab.value).value, route.name, route.userInfo));
      } else {
        sent := None;
      }
    } else if active.ActivePage? {
      sent := Some(Dispatch(active.page, route.name, route.userInfo));
    } else {
      sent := None;
    }
  }

  // ---------------------------------------------------------------------
  // Messages to the script: `sendMessageToGlobalPage`
  // ---------------------------------------------------------------------

  /** Where a message to the script comes from: a page, or (no page) the active window's active tab. */
  datatype Origin<T> = FromPage(containingTab: T) | FromActiveWindow(active: ActiveTab<T>)

  /** The call `receiveSwiftMessage(name, id, args, tabId)` in the script. */
  datatype ScriptCall = ScriptCall(name: string, id: string, args: Value, tabId: int)

  /** The correlation id used when the caller gives none. */
  function DefaultId(name: string, uuid: string): (id: string)
    ensures |id| == |name| + 1 + |uuid|
    ensures id[..|name|] == name && id[|name|] == '_' && id[|name| + 1..] == uuid
  {
    name + "_" + uuid
  }

  /**
   * `sendMessageToGlobalPage`: the id defaults to name + "_" + a fresh
   * UUID; the tab id is that of the page's tab, or of the active tab, or
   * -1 when there is no active window or active tab.
   */
  method SendMessageToGlobalPage<T(==)>(tabs: TabRegistry.TabManager<T>, name: string, args: Value,
                                        id: Option<string>, uuid: string, origin: Origin<T>)
    returns (call: ScriptCall)
    requires tabs.Valid()
    modifies tabs
    ensures tabs.Valid()
    ensures call.name == name && call.args == args && call.id == GetOr(id, DefaultId(name, uuid))
    ensures origin.FromPage? ==> call.tabId in tabs.idsToTabs && tabs.idsToTabs[call.tabId] == origin.containingTab
    ensures origin.FromPage? ==> TabRegistry.Registers(old(tabs.idsToTabs), old(tabs.retained), tabs.hashValue,
                                                       origin.containingTab, tabs.idsToTabs, tabs.retained)
    ensures origin.FromActiveWindow? && origin.active.ActiveTab? ==>
      call.tabId in tabs.idsToTabs && tabs.idsToTabs[call.tabId] == origin.active.tab
    ensures origin.FromActiveWindow? && origin.active.ActiveTab? ==>
      TabRegistry.Registers(old(tabs.idsToTabs), old(tabs.retained), tabs.hashValue,
                            origin.active.tab, tabs.idsToTabs, tabs.retained)
    ensures origin.FromActiveWindow? && !origin.active.ActiveTab? ==>
      call.tabId == NoTab && tabs.idsToTabs == old(tabs.idsToTabs) && tabs.retained == old(tabs.retained)
  {
    var messageId := if id.Some? then id.value else DefaultId(name, uuid);
    var tabId: int;
    if origin.FromPage? {
      tabId := tabs.GetTabId(origin.containingTab);
    } else if origin.active.ActiveTab? {
      tabId := tabs.GetTabId(origin.active.tab);
    } else {
      tabId := NoTab;
    }
    call := ScriptCall(name, messageId, args, tabId);
  }

  // ---------------------------------------------------------------------
  // The one-shot gate of `getActiveWindow`
  // ---------------------------------------------------------------------

  /**
   * One `getActiveWindow` request: a 2-second timer and the host callback
   * race, and a shared `isComplete` flag lets only the first call the
   * completion handler. `handled` records the handler's calls.
   */
  class ActiveWindowRequest<W> {
    var isComplete: bool
    var handled: seq<Option<W>>

    /** The handler has been called iff the request is complete, and at most once. */
    ghost predicate Valid()
      reads this
    {
      (isComplete <==> |handled| == 1) && |handled| <= 1
    }

    constructor()
      ensures !isComplete && handled == [] && Valid()
    {
      isComplete := false;
      handled := [];
    }

    /** The timer fires: the handler gets nil unless the request is complete. */
    method TimerFired()
      requires Valid()
      modifies this
      ensures Valid() && isComplete
      ensures old(isComplete) ==> handled == old(handled)
      ensures !old(isComplete) ==> handled == [None]
    {
      if isComplete {
        return;
      }
      isComplete := true;
      handled := handled + [None];
    }

    /** The host answers: the handler gets its window unless the request is complete. */
    method HostCallback(window: Option<W>)
      requires Valid()
      modifies this
      ensures Valid() && isComplete
      ensures old(isComplete) ==> handled == old(handled)
      ensures !old(isComplete) ==> handled == [window]
    {
      if isComplete {
        return;
      }
      isComplete := true;
      handled := handled + [window];
    }
  }

  /** One event of the race: the timer, or the host's answer. */
  datatype GateEvent<W> = Timeout | Answer(window: Option<W>)

  /** What the handler receives when `e` happens first. */
  function Outcome<W>(e: GateEvent<W>): Option<W> {
    if e.Timeout? then None else e.window
  }

  /**
   * Any order of events: the handler is called exactly once when anything
   * happens, with the first event's outcome, and never before.
   */
  method Race<W>(events: seq<GateEvent<W>>) returns (handled: seq<Option<W>>)
    ensures events == [] ==> handled == []
    ensures events != [] ==> handled == [Outcome(events[0])]
  {
    var request := new ActiveWindowRequest<W>();
    for i := 0 to |events|
      invariant request.Valid()
      invariant i == 0 ==> request.handled == []
      invariant i > 0 ==> request.handled == [Outcome(events[0])]
    {
      if events[i].Timeout? {
        request.TimerFired();
      } else {
        request.HostCallback(events[i].window);
      }
    }
    handled := request.handled;
  }

  // ---------------------------------------------------------------------
  // Native handlers and their argument guards
  // ---------------------------------------------------------------------

  /** A `sendMessageToGlobalPage(name: "response", args:, id:)` reply. */
  datatype Response = Response(id: string, args: Value)

  /** A handler's returned Bool and the reply it sends, if any. */
  datatype Handled = Handled(ok: bool, reply: Option<Response>)

  /** `replacingOccurrences(of: " ", with: "%20")`. */
  function EncodeSpaces(s: string): (r: string)
    ensures ' ' !in r
    ensures |s| <= |r|
    decreases |s|
  {
    if s == [] then ""
    else (if s[0] == ' ' then "%20" else [s[0]]) + EncodeSpaces(s[1..])
  }

  /** A string without spaces is left as it is. */
  lemma {:induction false} EncodeSpacesIdentity(s: string)
    requires ' ' !in s
    ensures EncodeSpaces(s) == s
    decreases |s|
  {
    if s != [] {
      assert ' ' !in s[1..] by {
        assert forall c :: c in s[1..] ==> c in s;
      }
      EncodeSpacesIdentity(s[1..]);
      assert s == [s[0]] + s[1..];
    }
  }

  /** Encoding works character by character: it distributes over concatenation. */
  lemma {:induction false} EncodeSpacesAppend(a: string, b: string)
    ensures EncodeSpaces(a + b) == EncodeSpaces(a) + EncodeSpaces(b)
    decreases |a|
  {
    if a != [] {
      assert (a + b)[0] == a[0] && (a + b)[1..] == a[1..] + b;
      EncodeSpacesAppend(a[1..], b);
    } else {
      assert a + b == b;
    }
  }

  /** A space becomes "%20"; any other character is kept. */
  lemma EncodeSpacesOfChar(c: char)
    ensures EncodeSpaces([c]) == if c == ' ' then "%20" else [c]
  {
    assert [c][1..] == [];
  }

  /**
   * The guard of `openWindow`/`openTab`: `args` must be an array whose first
   * element is a string that parses as a URL once its spaces are encoded.
   */
  function UrlArgument<U>(args: Option<Value>, parseUrl: string -> Option<U>): (r: Guard<U>)
    ensures r.Crashed? <==> args == Some(Arr([]))
    ensures r.Accepted? <==> args.Some? && args.value.Arr? && |args.value.items| > 0 && args.value.items[0].Str?
                             && parseUrl(EncodeSpaces(args.value.items[0].s)).Some?
    ensures r.Accepted? ==> r.value == parseUrl(EncodeSpaces(args.value.items[0].s)).value
  {
    match AsArray(args)
    case None => Rejected
    case Some(items) =>
      match ElementAt(items, 0)
      case Accepted(first) =>
        (match AsString(first)
         case None => Rejected
         case Some(urlStr) =>
           match parseUrl(EncodeSpaces(urlStr))
           case None => Rejected
           case Some(url) => Accepted(url))
      case _ => Crashed
  }

  /** The guard of `closeTab`: `args` must be an array whose first element is an integer tab id. */
  function TabIdArgument(args: Option<Value>): (r: Guard<int>)
    ensures r.Crashed? <==> args == Some(Arr([]))
    ensures r.Accepted? <==> args.Some? && args.value.Arr? && |args.value.items| > 0 && args.value.items[0].Num?
    ensures r.Accepted? ==> args.value.items[0] == Num(r.value)
  {
    match AsArray(args)
    case None => Rejected
    case Some(items) =>
      match ElementAt(items, 0)
      case Accepted(first) =>
        (match AsInt(first)
         case None => Rejected
         case Some(tabId) => Accepted(tabId))
      case _ => Crashed
  }

  /** `closeTab` with a valid tab id: the tab, if it survives the sweep, is the one to close. */
  method CloseTabById<T(==)>(tabs: TabRegistry.TabManager<T>, tabId: int, windows: seq<seq<T>>) returns (toClose: Option<T>)
    requires tabs.Valid()
    modifies tabs
    ensures tabs.Valid()
    ensures tabs.idsToTabs == TabRegistry.Surviving(old(tabs.idsToTabs), windows)
    ensures tabs.retained == old(tabs.retained) - multiset(TabRegistry.DeadTabs(old(tabs.idsToTabs), windows))
    ensures toClose.Some? <==> tabId in old(tabs.idsToTabs) && TabRegistry.IsLive(windows, old(tabs.idsToTabs)[tabId])
    ensures toClose.Some? ==> toClose.value == old(tabs.idsToTabs)[tabId]
  {
    toClose := tabs.GetTab(tabId, windows);
  }

  /**
   * A bundled resource by path: looked up under its subpath, then under
   * "safari/" + subpath, then read as UTF-8.
   */
  function LoadResource(path: string, bundlePath: BundlePath, readUtf8: ReadFile): (r: Option<string>)
    requires IsSplittable(path)
    ensures r.Some? ==>
      var res := SplitResourcePath(path);
      var found := if bundlePath(res.filename, res.ext, res.subpath).Some? then bundlePath(res.filename, res.ext, res.subpath)
                   else bundlePath(res.filename, res.ext, "safari/" + res.subpath);
      found.Some? && readUtf8(found.value) == r
    ensures r.None? <==>
      var res := SplitResourcePath(path);
      (bundlePath(res.filename, res.ext, res.subpath).None? && bundlePath(res.filename, res.ext, "safari/" + res.subpath).None?) ||
      (bundlePath(res.filename, res.ext, res.subpath).Some? && readUtf8(bundlePath(res.filename, res.ext, res.subpath).value).None?) ||
      (bundlePath(res.filename, res.ext, res.subpath).None? && bundlePath(res.filename, res.ext, "safari/" + res.subpath).Some?
        && readUtf8(bundlePath(res.filename, res.ext, "safari/" + res.subpath).value).None?)
  {
    var res := SplitResourcePath(path);
    var found := if bundlePath(res.filename, res.ext, res.subpath).Some? then bundlePath(res.filename, res.ext, res.subpath)
                 else bundlePath(res.filename, res.ext, "safari/" + res.subpath);
    if found.None? then None else readUtf8(found.value)
  }

  /**
   * A bundled path built as `dirs/name.ext` is looked up as the resource
   * `name` of type `ext` in the directory `dirs` joined by '/', and then in
   * "safari/" followed by that directory.
   */
  lemma {:induction false} LoadBuiltPath(dirs: seq<string>, name: string, ext: string,
                                         bundlePath: BundlePath, readUtf8: ReadFile)
    requires forall i :: 0 <= i < |dirs| ==> IsComponent(dirs[i], '/')
    requires IsComponent(name, '.') && IsComponent(ext, '.') && '/' !in name && '/' !in ext
    ensures IsSplittable(Join(dirs + [name + "." + ext], '/'))
    ensures LoadResource(Join(dirs + [name + "." + ext], '/'), bundlePath, readUtf8) ==
      if bundlePath(name, ext, Join(dirs, '/')).Some? then readUtf8(bundlePath(name, ext, Join(dirs, '/')).value)
      else if bundlePath(name, ext, "safari/" + Join(dirs, '/')).Some?
      then readUtf8(bundlePath(name, ext, "safari/" + Join(dirs, '/')).value)
      else None
  {
    SplitOfBuiltPath(dirs, name, ext);
  }

  /**
   * `getFileContents`: `args[0]` must be a string path; its contents are
   * sent back as the response. A path without a file name traps.
   */
  function GetFileContentsHandler(args: Option<Value>, messageId: string, bundlePath: BundlePath, readUtf8: ReadFile): (r: Guard<Handled>)
    ensures r.Crashed? <==> (args == Some(Arr([])) ||
      (args.Some? && args.value.Arr? && |args.value.items| > 0 && args.value.items[0].Str? && !IsSplittable(args.value.items[0].s)))
    ensures r.Accepted? && r.value.ok ==>
      args.Some? && args.value.Arr? && |args.value.items| > 0 && args.value.items[0].Str? && IsSplittable(args.value.items[0].s) &&
      LoadResource(args.value.items[0].s, bundlePath, readUtf8).Some? &&
      r.value.reply == Some(Response(messageId, Str(LoadResource(args.value.items[0].s, bundlePath, readUtf8).value)))
    ensures r.Accepted? ==> (r.value.ok <==>
      args.Some? && args.value.Arr? && |args.value.items| > 0 && args.value.items[0].Str? &&
      IsSplittable(args.value.items[0].s) && LoadResource(args.value.items[0].s, bundlePath, readUtf8).Some?)
    ensures r.Accepted? && !r.value.ok ==> r.value.reply.None?
  {
    match AsArray(args)
    case None => Accepted(Handled(false, None))
    case Some(items) =>
      match ElementAt(items, 0)
      case Accepted(first) =>
        (match AsString(first)
         case None => Accepted(Handled(false, None))
         case Some(filepath) =>
           if !IsSplittable(filepath) then Crashed
           else
             match LoadResource(filepath, bundlePath, readUtf8)
             case None => Accepted(Handled(false, None))
             case Some(script) => Accepted(Handled(true, Some(Response(messageId, Str(script))))))
      case _ => Crashed
  }

  /** `getPrefs`: the stored preferences string, "{}" when none is stored. */
  function GetPrefsHandler(stored: Option<string>, messageId: string): (r: Handled)
    ensures r.ok
    ensures stored.Some? ==> r.reply == Some(Response(messageId, Str(stored.value)))
    ensures stored.None? ==> r.reply == Some(Response(messageId, Str("{}")))
  {
    Handled(true, Some(Response(messageId, Str(GetOr(stored, "{}")))))
  }

  /** `setPrefs`: a string argument is stored; anything else is refused and the store is kept. */
  function SetPrefsHandler(args: Option<Value>, stored: Option<string>): (r: (Handled, Option<string>))
    ensures r.0.reply.None?
    ensures r.0.ok <==> args.Some? && args.value.Str?
    ensures r.0.ok ==> r.1 == Some(args.value.s)
    ensures !r.0.ok ==> r.1 == stored
  {
    match AsString(args)
    case None => (Handled(false, None), stored)
    case Some(prefs) => (Handled(true, None), Some(prefs))
  }

  /** Preferences read back after a successful store are the stored string. */
  lemma PrefsRoundTrip(prefs: string, stored: Option<string>, messageId: string)
    ensures GetPrefsHandler(SetPrefsHandler(Some(Str(prefs)), stored).1, messageId).reply
      == Some(Response(messageId, Str(prefs)))
  {
  }

  /** `getVersion`: the bundle's short version string, "5.1" when absent. */
  function GetVersionHandler(shortVersion: Option<Value>, messageId: string): (r: Handled)
    ensures r.ok && r.reply.Some? && r.reply.value.id == messageId
    ensures shortVersion.None? ==> r.reply.value.args == Str("5.1")
    ensures shortVersion.Some? ==> r.reply.value.args == shortVersion.value
  {
    Handled(true, Some(Response(messageId, GetOr(shortVersion, Str("5.1")))))
  }

  /** `getBaseURI`: the base URI as a string, null when the host gives none. */
  function GetBaseUriHandler(baseUri: Option<string>, messageId: string): (r: Handled)
    ensures r.ok && r.reply.Some? && r.reply.value.id == messageId
    ensures r.reply.value.args == (if baseUri.Some? then Str(baseUri.value) else Null)
  {
    Handled(true, Some(Response(messageId, if baseUri.Some? then Str(baseUri.value) else Null)))
  }

  /** `getLocale`: "safari/_locales/<code>/messages.json", else the "en" one, else "". */
  function LocaleJson(languageCode: string, bundlePath: BundlePath, readUtf8: ReadFile): (json: string)
    ensures bundlePath("messages", "json", "safari/_locales/" + languageCode).Some? ==>
      json == GetOr(readUtf8(bundlePath("messages", "json", "safari/_locales/" + languageCode).value), "")
    ensures bundlePath("messages", "json", "safari/_locales/" + languageCode).None? ==>
      json == (if bundlePath("messages", "json", "safari/_locales/" + "en").Some?
               then GetOr(readUtf8(bundlePath("messages", "json", "safari/_locales/" + "en").value), "") else "")
  {
    var found := if bundlePath("messages", "json", "safari/_locales/" + languageCode).Some?
                 then bundlePath("messages", "json", "safari/_locales/" + languageCode)
                 else bundlePath("messages", "json", "safari/_locales/" + "en");
    if found.None? then "" else GetOr(readUtf8(found.value), "")
  }

  /** `getCurrentLocale`/`getDefaultLocale`: the locale JSON is sent back, and the result says whether it was found. */
  function LocaleHandler(json: string, messageId: string): (r: Handled)
    ensures r.ok <==> json != ""
    ensures r.reply == Some(Response(messageId, Str(json)))
  {
    if json != "" then Handled(true, Some(Response(messageId, Str(json))))
    else Handled(false, Some(Response(messageId, Str(""))))
  }

  /**
   * The language code of `getCurrentLocale`: the part before the first '-'
   * of the first preferred language, else the current locale's code, else
   * "en". A preferred language without such a part traps.
   */
  function CurrentLanguageCode(preferredLanguages: seq<string>, currentCode: Option<string>): (r: Guard<string>)
    ensures |preferredLanguages| == 0 ==> r == Accepted(GetOr(currentCode, "en"))
    ensures |preferredLanguages| > 0 ==>
      (r.Crashed? <==> |Split(preferredLanguages[0], '-')| == 0)
    ensures |preferredLanguages| > 0 && r.Accepted? ==>
      r.value == Split(preferredLanguages[0], '-')[0] && IsComponent(r.value, '-')
  {
    if |preferredLanguages| == 0 then Accepted(GetOr(currentCode, "en"))
    else
      var parts := Split(preferredLanguages[0], '-');
      if |parts| == 0 then Crashed else Accepted(parts[0])
  }

  /** `getDateFormatsJSON`: "safari/utilities/resource/dateFormats.json", sent back when readable. */
  function DateFormatsHandler(messageId: string, bundlePath: BundlePath, readUtf8: ReadFile): (r: Handled)
    ensures r.ok <==> bundlePath("dateFormats", "json", "safari/utilities/resource").Some?
                      && readUtf8(bundlePath("dateFormats", "json", "safari/utilities/resource").value).Some?
    ensures r.ok ==> r.reply == Some(Response(messageId, Str(readUtf8(bundlePath("dateFormats", "json", "safari/utilities/resource").value).value)))
    ensures !r.ok ==> r.reply.None?
  {
    match bundlePath("dateFormats", "json", "safari/utilities/resource")
    case None => Handled(false, None)
    case Some(fullpath) =>
      match readUtf8(fullpath)
      case None => Handled(false, None)
      case Some(json) => Handled(true, Some(Response(messageId, Str(json))))
  }

  /**
   * Every native handler that answers a request answers under the request's
   * own message id, so the script can match the reply to its caller;
   * `setPrefs` sends no reply.
   */
  lemma RepliesCarryMessageId(messageId: string, args: Option<Value>, stored: Option<string>,
                              shortVersion: Option<Value>, baseUri: Option<string>, json: string,
                              bundlePath: BundlePath, readUtf8: ReadFile)
    ensures GetPrefsHandler(stored, messageId).reply.Some?
    ensures GetPrefsHandler(stored, messageId).reply.value.id == messageId
    ensures GetVersionHandler(shortVersion, messageId).reply.Some?
    ensures GetVersionHandler(shortVersion, messageId).reply.value.id == messageId
    ensures GetBaseUriHandler(baseUri, messageId).reply.Some?
    ensures GetBaseUriHandler(baseUri, messageId).reply.value.id == messageId
    ensures LocaleHandler(json, messageId).reply.Some?
    ensures LocaleHandler(json, messageId).reply.value.id == messageId
    ensures DateFormatsHandler(messageId, bundlePath, readUtf8).reply.Some? ==>
      DateFormatsHandler(messageId, bundlePath, readUtf8).reply.value.id == messageId
    ensures GetFileContentsHandler(args, messageId, bundlePath, readUtf8).Accepted? &&
            GetFileContentsHandler(args, messageId, bundlePath, readUtf8).value.reply.Some? ==>
      GetFileContentsHandler(args, messageId, bundlePath, readUtf8).value.reply.value.id == messageId
    ensures SetPrefsHandler(args, stored).0.reply.None?
  {
  }

  /**
   * A language without its own messages.json gets the English one, so
   * `getCurrentLocale` for it answers exactly as `getDefaultLocale` does.
   */
  lemma LocaleFallsBackToEnglish(languageCode: string, messageId: string, bundlePath: BundlePath, readUtf8: ReadFile)
    requires bundlePath("messages", "json", "safari/_locales/" + languageCode).None?
    ensures LocaleJson(languageCode, bundlePath, readUtf8) == LocaleJson("en", bundlePath, readUtf8)
    ensures LocaleHandler(LocaleJson(languageCode, bundlePath, readUtf8), messageId)
         == LocaleHandler(LocaleJson("en", bundlePath, readUtf8), messageId)
  {
  }

  /** The `userInfo` of the "globalAvailable" notice: `["args": []]`. */
  const NoArgs := Obj(map["args" := Arr([])])

  /** The notices for one window's tabs, in tab order; a tab without an active page gets none. */
  function TabNotices<P>(tabs: seq<Option<P>>): seq<Dispatch<P>>
    decreases |tabs|
  {
    if tabs == [] then []
    else
      TabNotices(tabs[..|tabs| - 1]) +
      (if tabs[|tabs| - 1].Some? then [Dispatch(tabs[|tabs| - 1].value, "globalAvailable", NoArgs)] else [])
  }

  /** The notices for all windows, in window order. */
  function Notices<P>(windows: seq<seq<Option<P>>>): seq<Dispatch<P>>
    decreases |windows|
  {
    if windows == [] then []
    else Notices(windows[..|windows| - 1]) + TabNotices(windows[|windows| - 1])
  }

  lemma {:induction false} TabNoticesReachActivePages<P>(tabs: seq<Option<P>>, d: Dispatch<P>)
    ensures d in TabNotices(tabs) <==>
      d.name == "globalAvailable" && d.userInfo == NoArgs && exists t :: 0 <= t < |tabs| && tabs[t] == Some(d.page)
    decreases |tabs|
  {
    if tabs != [] {
      var init := tabs[..|tabs| - 1];
      TabNoticesReachActivePages(init, d);
      if exists t :: 0 <= t < |tabs| && tabs[t] == Some(d.page) {
        var t :| 0 <= t < |tabs| && tabs[t] == Some(d.page);
        if t < |init| {
          assert init[t] == Some(d.page);
        }
      }
      if exists t :: 0 <= t < |init| && init[t] == Some(d.page) {
        var t :| 0 <= t < |init| && init[t] == Some(d.page);
        assert tabs[t] == Some(d.page);
      }
    }
  }

  /** Every notice is "globalAvailable" with no arguments, and exactly the shown pages get one. */
  lemma {:induction false} NoticesReachShownPages<P>(windows: seq<seq<Option<P>>>, d: Dispatch<P>)
    ensures d in Notices(windows) <==>
      d.name == "globalAvailable" && d.userInfo == NoArgs &&
      exists w, t :: 0 <= w < |windows| && 0 <= t < |windows[w]| && windows[w][t] == Some(d.page)
    decreases |windows|
  {
    if windows != [] {
      var init := windows[..|windows| - 1];
      var last := windows[|windows| - 1];
      NoticesReachShownPages(init, d);
      TabNoticesReachActivePages(last, d);
      if exists w, t :: 0 <= w < |windows| && 0 <= t < |windows[w]| && windows[w][t] == Some(d.page) {
        var w, t :| 0 <= w < |windows| && 0 <= t < |windows[w]| && windows[w][t] == Some(d.page);
        if w < |init| {
          assert init[w][t] == Some(d.page);
        } else {
          assert last[t] == Some(d.page);
        }
      }
      if exists w, t :: 0 <= w < |init| && 0 <= t < |init[w]| && init[w][t] == Some(d.page) {
        var w, t :| 0 <= w < |init| && 0 <= t < |init[w]| && init[w][t] == Some(d.page);
        assert windows[w][t] == Some(d.page);
      }
      if exists t :: 0 <= t < |last| && last[t] == Some(d.page) {
        var t :| 0 <= t < |last| && last[t] == Some(d.page);
        assert windows[|windows| - 1][t] == Some(d.page);
      }
    }
  }

  /** `sendGlobalAvailableToAllTabs`: the nested loops over windows and their tabs. */
  method GlobalAvailableDispatches<P>(windows: seq<seq<Option<P>>>) returns (sent: seq<Dispatch<P>>)
    ensures sent == Notices(windows)
  {
    sent := [];
    for w := 0 to |windows|
      invariant sent == Notices(windows[..w])
    {
      var tabs := windows[w];
      ghost var before := sent;
      for t := 0 to |tabs|
        invariant sent == before + TabNotices(tabs[..t])
      {
        assert tabs[..t + 1][..t] == tabs[..t];
        if tabs[t].Some? {
          sent := sent + [Dispatch(tabs[t].value, "globalAvailable", NoArgs)];
        }
      }
      assert tabs[..|tabs|] == tabs;
      assert windows[..w + 1][..w] == windows[..w];
    }
    assert windows[..|windows|] == windows;
  }

  // ---------------------------------------------------------------------
  // `updateButton` and the stored translator list
  // ---------------------------------------------------------------------

  /** The arguments of `updateButton` once cast. */
  datatype ButtonArgs = ButtonArgs(imagePath: string, tooltip: string, translators: seq<seq<string>>)

  /**
   * The guard of `updateButton`: `args` must be `[String, String, [[String]]]`.
   * The casts run in order, so an array that ends before the next index
   * traps unless an earlier cast has already failed.
   */
  function ButtonArguments(args: Option<Value>): (r: Guard<ButtonArgs>)
    ensures r.Accepted? <==> (args.Some? && args.value.Arr? && |args.value.items| >= 3 &&
      args.value.items[0].Str? && args.value.items[1].Str? && AsStringTable(Some(args.value.items[2])).Some?)
    ensures r.Accepted? ==> r.value == ButtonArgs(args.value.items[0].s, args.value.items[1].s, AsStringTable(Some(args.value.items[2])).value)
    ensures r.Crashed? <==> (args.Some? && args.value.Arr? &&
      (|args.value.items| == 0 ||
       (args.value.items[0].Str? && (|args.value.items| == 1 || (args.value.items[1].Str? && |args.value.items| == 2)))))
  {
    match AsArray(args)
    case None => Rejected
    case Some(items) =>
      if |items| == 0 then Crashed
      else if !items[0].Str? then Rejected
      else if |items| == 1 then Crashed
      else if !items[1].Str? then Rejected
      else if |items| == 2 then Crashed
      else
        match AsStringTable(Some(items[2]))
        case None => Rejected
        case Some(translators) => Accepted(ButtonArgs(items[0].s, items[1].s, translators))
  }

  /** A request to set the toolbar item's label and image. */
  datatype ToolbarUpdate = ToolbarUpdate(tooltip: string, imagePath: string)

  /** The static state of `GlobalPage` that handlers write. */
  class GlobalState {
    /** The translators for the context menu: per translator, its id and its label. */
    var translators: seq<seq<string>>

    constructor()
      ensures translators == []
    {
      translators := [];
    }

    /**
     * `updateButton`: with valid arguments, stores the translators, then
     * looks up "safari/<dir>/<name>.png"; if found it succeeds, and the
     * toolbar is updated only when `tabId` is the id of the active tab.
     */
    method UpdateButtonHandler<T(==)>(args: Option<Value>, tabId: Option<int>, bundlePath: BundlePath,
                                      tabs: TabRegistry.TabManager<T>, active: ActiveTab<T>)
      returns (outcome: Guard<bool>, toolbar: Option<ToolbarUpdate>)
      requires tabs.Valid()
      modifies this, tabs
      ensures tabs.Valid()
      ensures !ButtonArguments(args).Accepted? ==> translators == old(translators) && toolbar.None?
      ensures outcome != Accepted(true) || !active.ActiveTab? ==>
        tabs.idsToTabs == old(tabs.idsToTabs) && tabs.retained == old(tabs.retained)
      ensures outcome == Accepted(true) && active.ActiveTab? ==>
        TabRegistry.Registers(old(tabs.idsToTabs), old(tabs.retained), tabs.hashValue,
                              active.tab, tabs.idsToTabs, tabs.retained)
      ensures ButtonArguments(args).Rejected? ==> outcome == Accepted(false)
      ensures ButtonArguments(args).Crashed? ==> outcome.Crashed?
      ensures ButtonArguments(args).Accepted? ==> translators == ButtonArguments(args).value.translators
      ensures ButtonArguments(args).Accepted? && !HasFileName(ButtonArguments(args).value.imagePath) ==> outcome.Crashed?
      ensures outcome == Accepted(true) <==>
        ButtonArguments(args).Accepted? && HasFileName(ButtonArguments(args).value.imagePath) &&
        bundlePath(FileName(ButtonArguments(args).value.imagePath), "png",
                   "safari/" + Directory(ButtonArguments(args).value.imagePath)).Some?
      ensures toolbar.Some? ==> (outcome == Accepted(true) && tabId.Some? && active.ActiveTab? &&
        tabId.value in tabs.idsToTabs && tabs.idsToTabs[tabId.value] == active.tab)
      ensures (outcome == Accepted(true) && tabId.Some? && active.ActiveTab? &&
        tabId.value in tabs.idsToTabs && tabs.idsToTabs[tabId.value] == active.tab) ==> toolbar.Some?
      ensures toolbar.Some? ==> (toolbar.value ==
        ToolbarUpdate(ButtonArguments(args).value.tooltip,
                      bundlePath(FileName(ButtonArguments(args).value.imagePath), "png",
                                 "safari/" + Directory(ButtonArguments(args).value.imagePath)).value))
    {
      toolbar := None;
      var guard := ButtonArguments(args);
      if guard.Rejected? {
        return Accepted(false), None;
      }
      if guard.Crashed? {
        return Crashed, None;
      }
      var b := guard.value;
      translators := b.translators;
      if !HasFileName(b.imagePath) {
        return Crashed, None;
      }
      var subpath := "safari/" + Directory(b.imagePath);
      var filename := FileName(b.imagePath);
      var fullpath := bundlePath(filename, "png", subpath);
      if fullpath.None? {
        return Accepted(false), None;
      }
      var activeTabId := tabs.GetActiveTabId(active);
      if tabId.Some? && active.ActiveTab? && tabId.value in tabs.idsToTabs && tabs.idsToTabs[tabId.value] == active.tab {
        assert IdentityMap.Injective(tabs.idsToTabs);
        assert tabs.idsToTabs[activeTabId.value] == tabs.idsToTabs[tabId.value];
        assert activeTabId.value == tabId.value;
        assert tabId == activeTabId;
      }
      if tabId.Some? && activeTabId.Some? && tabId == activeTabId {
        toolbar := Some(ToolbarUpdate(b.tooltip, fullpath.value));
      }
      outcome := Accepted(true);
    }
  }

  // ---------------------------------------------------------------------
  // Startup: loading the bundled scripts
  // ---------------------------------------------------------------------

  /** A script evaluated in the context, with its source URL. */
  datatype Script = Script(sourceUrl: string, source: string)

  /**
   * The bootstrap loop: the files are loaded and evaluated in order; the
   * first one that cannot be found or read stops the loop and leaves no
   * context (`loaded` false).
   */
  method Bootstrap(files: seq<string>, bundlePath: BundlePath, readUtf8: ReadFile)
    returns (evaluated: seq<Script>, loaded: bool)
    requires forall i :: 0 <= i < |files| ==> IsSplittable(files[i])
    ensures loaded <==> forall i :: 0 <= i < |files| ==> LoadResource(files[i], bundlePath, readUtf8).Some?
    ensures |evaluated| <= |files|
    ensures forall j :: 0 <= j < |evaluated| ==>
      LoadResource(files[j], bundlePath, readUtf8).Some? &&
      evaluated[j] == Script(files[j], LoadResource(files[j], bundlePath, readUtf8).value)
    ensures loaded ==> |evaluated| == |files|
    ensures !loaded ==> |evaluated| < |files| && LoadResource(files[|evaluated|], bundlePath, readUtf8).None?
  {
    evaluated := [];
    for i := 0 to |files|
      invariant |evaluated| == i
      invariant forall j :: 0 <= j < i ==>
        LoadResource(files[j], bundlePath, readUtf8).Some? &&
        evaluated[j] == Script(files[j], LoadResource(files[j], bundlePath, readUtf8).value)
    {
      var script := LoadResource(files[i], bundlePath, readUtf8);
      if script.None? {
        return evaluated, false;
      }
      evaluated := evaluated + [Script(files[i], script.value)];
    }
    loaded := true;
  }
}
