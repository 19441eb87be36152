# Zotero Connector for Safari: the native bridge, modelled in Dafny

The Zotero Connector for Safari is a Safari app extension. Its native
(Swift) side runs the connector's background scripts in an embedded
JavaScript context. It passes messages between that context and the
content scripts of web pages. This project models that bridge and proves
properties of the model:

- **Tab and page registries** (`TabRegistry`, `PageRegistry`). These map
  integer ids, which scripts can hold, to the host's tab and page handles.
  The model covers:
  - the identity lookup, and insertion under the handle's hash value;
  - the sweep that forgets closed tabs and pages;
  - the manual retain/release of tabs, modelled as a multiset of retained
    handles.
- **The global page** (`GlobalPage`):
  - routing of `sendMessageToTab`, with the fourteen native `Swift.*`
    commands handled on the native side;
  - the tab-id choice of `sendMessageToGlobalPage`;
  - the one-shot gate of `getActiveWindow`;
  - the argument guards and results of the native handlers;
  - the `globalAvailable` broadcast;
  - the startup loop that loads the bundled scripts.
- **The extension handler** (`ExtensionHandler`):
  - the envelope check on messages from content scripts, including the
    title insertion for `Connector_Browser.onPageLoad`;
  - the ten placeholder context-menu items, which show the translators
    last stored by `updateButton`.
- **Resource paths** (`ResourcePaths`). A bundled path such as
  `utilities/resource/zoteroTypeSchemaData.js` is split into a directory,
  a file name and an extension. The split works like Swift's `split`,
  which drops empty components.
- **HTTP** (`Http`):
  - validation and defaults of `HTTP.request(with:)`;
  - assembly of the outgoing request's header fields;
  - the array returned to the script.
- **Script utilities** (`JsUtilities`, `Base64`, `TextEncoding`):
  - `atob`/`btoa` over Base64 as in section 4 of RFC 4648;
  - the `setInterval`/`clearInterval` timer table. `JSInterval`
    (SafariExtension/JavaScriptInterval.swift:20-56) repeats it line for
    line, so the same `JsUtilities` members model both;
  - `TextEncoder.encode` as UTF-8 as in section 3 of RFC 3629.

Host services are parameters, not modelled behaviour. This covers:

- window, tab and page enumeration;
- bundle lookup and file reads;
- URL parsing and percent coding;
- `UserDefaults`;
- UUIDs and hash values.

A tab or page handle is a type parameter. Its `==` stands for `isEqual`.
Its hash value is an uninterpreted function, so hash collisions are
possible in the model, as they are in the code. A Swift runtime trap, such
as `args[0]` on an empty array or `.last!` on a path with no component, is
the `Crashed` outcome of a `Guard`. The code only logs a failed cast and
returns `false`; that is `Rejected`.

Some definitions state one Swift expression directly. Other members use
them, and the table names those members instead:

- `JsValue.ElementAt` (`args[0]`) is used by `UrlArgument` and `TabIdArgument`.
- `JsUtilities.DelayOf` (the optional second argument) is used by `SetInterval`.
- `JsValue.BytesValue` and `JsValue.StringMapValue` are used by `Http.CompleteRequest`. `BytesReadBack` and `StringMapReadBack` state how the script reads them back.
- `GlobalPage.GetVersionHandler`, `GetBaseUriHandler`, `LocaleJson` and `LocaleHandler` are covered by `RepliesCarryMessageId` and `LocaleFallsBackToEnglish`.
- `GlobalPage.DateFormatsHandler` is covered by `RepliesCarryMessageId`.
- `GlobalPage.Payload` (`["args": [args, id]]`) is used by `RouteMessage`.
- `GlobalPage.RouteResult` is covered by `SendMessageToTabResult`, which composes it with `RouteMessage`.
- `GlobalPage.LoadResource` is used by `GetFileContentsHandler` and `Bootstrap`. `LoadBuiltPath` states where it looks for a built path.
- `Http.ResolveUrl` (the `URL(string:) ??` parsing chain) is used by `RequestWith`.

## Model

| member | source | states |
|---|---|---|
| IdentityMap.FindStoredKey | SafariExtension/TabManager.swift:43-47 | returns a key whose entry is the handle, and returns none exactly when no entry is equal to it |
| TabRegistry.TabManager.constructor | SafariExtension/TabManager.swift:35-40 | the table starts empty with nothing retained |
| TabRegistry.TabManager.GetTabId | SafariExtension/TabManager.swift:42-51 | afterwards the id maps to the tab. A stored equal tab gives its key with nothing changed. Otherwise the tab is stored under its hash value and retained once. Injectivity is kept, and the retain balance is kept when there is no collision |
| TabRegistry.GetTabIdIsStable | SafariExtension/TabManager.swift:42-50 | two calls with the same tab return the same id, and together they change the table and retains exactly as one call does |
| TabRegistry.TabManager.CollisionLeaksDisplacedTab | SafariExtension/TabManager.swift:48-50 | when the hash value collides with another tab's key, that tab is no longer stored but stays retained |
| TabRegistry.TabManager.GetTab | SafariExtension/TabManager.swift:53-59 | sweeps the table to the entries whose tab is still open and releases the tabs swept out. It returns the stored tab exactly when the id was stored and its tab is still open, otherwise nil |
| TabRegistry.TabManager.GetActiveTabId | SafariExtension/TabManager.swift:61-75 | nil exactly when there is no active window or tab, leaving the table and retains unchanged. Otherwise it returns `getTabId` of the active tab: the table is unchanged if the tab was stored, and otherwise the tab is stored and retained under its hash value |
| TabRegistry.TabManager.CleanWindows | SafariExtension/TabManager.swift:77-105 | the table becomes exactly the old entries whose tab is open in some window, and each swept tab is released once. Keeps injectivity and the retain balance |
| TabRegistry.CollectAlive | SafariExtension/TabManager.swift:95-103 | popping the windows, the collected ids are exactly the stored ids whose tab is in some window |
| TabRegistry.AliveIn | SafariExtension/TabManager.swift:96-102 | an id is collected for one window exactly when its stored tab is among the window's tabs |
| TabRegistry.CollectDead | SafariExtension/TabManager.swift:81-86 | the dead ids are exactly the stored ids not alive, without repetition |
| TabRegistry.TabManager.Release | SafariExtension/TabManager.swift:87-91 | removes the dead ids and releases each of their tabs once |
| TabRegistry.ReleaseStep | SafariExtension/TabManager.swift:87-91 | removing one more dead id removes its entry, and releasing its tab matches the multiset of tabs at the dead ids |
| TabRegistry.SweepOverNoWindows | SafariExtension/TabManager.swift:77-91 | a sweep over no windows empties the table |
| TabRegistry.SweepOnlyRemoves | SafariExtension/TabManager.swift:81-91 | a sweep adds no id and never changes the tab under a surviving id |
| PageRegistry.PageManager.constructor | SafariExtension/PageManager.swift:13-18 | the table starts empty |
| PageRegistry.PageManager.GetPageId | SafariExtension/PageManager.swift:20-28 | gives the existing key for an equal stored page and changes nothing; otherwise stores the page under its hash value and returns that |
| PageRegistry.CollisionForgetsDisplacedPage | SafariExtension/PageManager.swift:26-27 | storing under a colliding hash value forgets the page stored there |
| PageRegistry.PageManager.GetPage | SafariExtension/PageManager.swift:30-36 | after the sweep, returns the stored page exactly when it is still some tab's active page |
| PageRegistry.PageManager.GetActivePageId | SafariExtension/PageManager.swift:38-58 | nil when the window, tab or page is missing. Otherwise it returns `getPageId` of the active page: the table is unchanged if the page was stored, and otherwise the page is stored under its hash value |
| PageRegistry.PageManager.CleanWindows | SafariExtension/PageManager.swift:60-81 | the table becomes exactly the old entries whose page is still shown, with their values |
| PageRegistry.CollectShown | SafariExtension/PageManager.swift:63-80 | the collected ids are exactly the stored ids whose page is the active page of some tab of some window |
| PageRegistry.Rebuild | SafariExtension/PageManager.swift:64-71 | the new table holds exactly the old entries whose id is listed, unchanged. It depends only on which ids are listed, so duplicates do not matter |
| PageRegistry.CleanTabs | SafariExtension/PageManager.swift:83-103 | adds at most one id per tab, after the given ones. An id is added exactly for a tab whose active page is stored; a tab without an active page adds nothing |
| PageRegistry.SweepOverNoWindows | SafariExtension/PageManager.swift:60-71 | a sweep over no windows empties the table |
| PageRegistry.SweepIsIdempotent | SafariExtension/PageManager.swift:60-71 | sweeping twice over the same windows equals sweeping once |
| GlobalPage.CommandOf | SafariExtension/GlobalPage.swift:154-200 | a name selects a native command only if it is that command's name |
| GlobalPage.CommandOfName | SafariExtension/GlobalPage.swift:154-200 | each of the fourteen native names selects its own command |
| GlobalPage.NativeNamesAreNamespaced | SafariExtension/GlobalPage.swift:155-196 | every native name starts with "Swift." |
| GlobalPage.ForeignNamesAreForwarded | SafariExtension/GlobalPage.swift:198-224 | a name outside "Swift." is never handled natively |
| GlobalPage.RouteMessage | SafariExtension/GlobalPage.swift:146-225 | dropped exactly when name or id is not a string; handled natively exactly for the native names; otherwise forwarded with the payload, to the given tab id if there is one, else to the active tab |
| GlobalPage.SendMessageToTabResult | SafariExtension/GlobalPage.swift:146-225 | `sendMessageToTab` returns false when the name or id is not a string, and the native handler's result for a native name. It returns true for every other message, so every string message outside the "Swift." namespace is accepted |
| GlobalPage.Deliver | SafariExtension/GlobalPage.swift:201-224 | a message to a tab id sweeps the table and releases the tabs swept out. It reaches that tab's active page exactly when the tab survives the sweep and has one. A message to the active tab reaches its active page, if any, and leaves the table unchanged |
| GlobalPage.DefaultId | SafariExtension/GlobalPage.swift:110 | the default id is the name, then "_", then the UUID |
| GlobalPage.SendMessageToGlobalPage | SafariExtension/GlobalPage.swift:109-143 | the script gets the name, the args and the id, given or default. The tab id is the registered id of the page's tab or of the active tab, and the table and retains change as `getTabId` changes them (`TabRegistry.Registers`). It is -1, with the table untouched, when there is no active window or tab |
| GlobalPage.ActiveWindowRequest.constructor | SafariExtension/GlobalPage.swift:231 | a request starts incomplete with no handler call |
| GlobalPage.ActiveWindowRequest.TimerFired | SafariExtension/GlobalPage.swift:233-239 | completes the request; calls the handler with nil only if it was not complete |
| GlobalPage.ActiveWindowRequest.HostCallback | SafariExtension/GlobalPage.swift:240-246 | completes the request; passes the window to the handler only if it was not complete |
| GlobalPage.Race | SafariExtension/GlobalPage.swift:230-247 | for any order of timer and callback events, the handler is called exactly once, with the first event's outcome |
| GlobalPage.EncodeSpaces | SafariExtension/GlobalPage.swift:265 | the result has no space and is no shorter than the input |
| GlobalPage.EncodeSpacesIdentity | SafariExtension/GlobalPage.swift:265 | a string without spaces is unchanged |
| GlobalPage.EncodeSpacesAppend | SafariExtension/GlobalPage.swift:265 | encoding distributes over concatenation, so each character is replaced on its own |
| GlobalPage.EncodeSpacesOfChar | SafariExtension/GlobalPage.swift:265 | a space becomes "%20" and any other character is kept |
| GlobalPage.UrlArgument | SafariExtension/GlobalPage.swift:260-268 | accepted exactly when args is an array whose first element is a string that parses once spaces are encoded; an empty array traps |
| GlobalPage.TabIdArgument | SafariExtension/GlobalPage.swift:305-310 | accepted exactly when args is an array whose first element is an integer; an empty array traps |
| GlobalPage.CloseTabById | SafariExtension/GlobalPage.swift:311-313 | the table is swept, and the tabs swept out are released. The tab to close is the stored one exactly when it survives the sweep |
| GlobalPage.LoadBuiltPath | SafariExtension/GlobalPage.swift:86-103 | a bundled path `dirs/name.ext` is looked up as resource `name` of type `ext` in `dirs`, then in "safari/" + `dirs`, and the file found is read |
| GlobalPage.Bootstrap | SafariExtension/GlobalPage.swift:87-106 | evaluates the files in order, each with its own contents. Stops at the first file that fails, with no context; loads completely exactly when every file loads |
| GlobalPage.GetFileContentsHandler | SafariExtension/GlobalPage.swift:376-398 | succeeds exactly when the path is a string whose file is found and read, replying with its contents under the message id; on failure there is no reply. An empty array or a path without a file name traps |
| GlobalPage.GetPrefsHandler | SafariExtension/GlobalPage.swift:400-404 | replies with the stored preferences, "{}" when none is stored |
| GlobalPage.SetPrefsHandler | SafariExtension/GlobalPage.swift:406-413 | stores a string argument and succeeds exactly then; anything else keeps the store |
| GlobalPage.PrefsRoundTrip | SafariExtension/GlobalPage.swift:400-413 | preferences read after a successful store are the stored string |
| GlobalPage.RepliesCarryMessageId | SafariExtension/GlobalPage.swift:174-404 | `getPrefs`, `getVersion`, `getBaseURI`, both locale handlers, `getDateFormatsJSON` and `getFileContents` answer under the request's own message id; `setPrefs` sends no reply |
| GlobalPage.LocaleFallsBackToEnglish | SafariExtension/GlobalPage.swift:317-356 | a language without its own messages.json gets the English one, so `getCurrentLocale` for it answers exactly as `getDefaultLocale` does |
| GlobalPage.CurrentLanguageCode | SafariExtension/GlobalPage.swift:336-339 | the first '-'-component of the first preferred language, else the current code, else "en"; a preferred language with no component traps |
| GlobalPage.ButtonArguments | SafariExtension/GlobalPage.swift:417-424 | accepted exactly for `[String, String, [[String]]]`; the casts run in order, so an array that ends early traps |
| GlobalPage.GlobalState.UpdateButtonHandler | SafariExtension/GlobalPage.swift:415-445 | stores the translators when the arguments are valid. It succeeds exactly when the png is found. On success with an active tab, the tab is registered as `getTabId` does; on every other path the tab table and retains are unchanged. It requests the toolbar update exactly when the given tab id is the active tab's id |
| GlobalPage.GlobalState.constructor | SafariExtension/GlobalPage.swift:16 | the translator list starts empty |
| GlobalPage.TabNoticesReachActivePages | SafariExtension/GlobalPage.swift:450-455 | one window's notices go exactly to its tabs' active pages, with name "globalAvailable" and `["args": []]` |
| GlobalPage.NoticesReachShownPages | SafariExtension/GlobalPage.swift:447-460 | the notices go exactly to the active pages of all tabs of all windows |
| GlobalPage.GlobalAvailableDispatches | SafariExtension/GlobalPage.swift:447-460 | the nested loops send exactly the notices, in window and tab order |
| ResourcePaths.TokenLength | SafariExtension/GlobalPage.swift:88-90 | the length of the leading component, bounded by the string |
| ResourcePaths.Split | SafariExtension/GlobalPage.swift:88-90 | every component is non-empty and free of the separator |
| ResourcePaths.SplitOfJoin | SafariExtension/GlobalPage.swift:88-90 | splitting the join of non-empty components gives back those components |
| ResourcePaths.SplitAtSeparator | SafariExtension/GlobalPage.swift:88-90 | splitting at a separator splits each side |
| ResourcePaths.SplitComponentsAreInfixes | SafariExtension/GlobalPage.swift:88-90 | every component is a contiguous part of the string |
| ResourcePaths.FileName | SafariExtension/GlobalPage.swift:90 | the last '/'-component, cut before its first '.'; non-empty and free of both separators |
| ResourcePaths.SplitResourcePath | SafariExtension/GlobalPage.swift:382-384 | the extension is the last '.'-component, the subpath the '/'-components but the last, and the file name as above |
| ResourcePaths.SplitOfBuiltPath | SafariExtension/GlobalPage.swift:88-90 | a path built from directories, a name and an extension splits back into exactly those parts |
| ResourcePaths.SchemaDataPath | SafariExtension/GlobalPage.swift:71 | "utilities/resource/zoteroTypeSchemaData.js" splits into "utilities/resource", "zoteroTypeSchemaData" and "js" |
| ExtensionHandler.MessageReceived | SafariExtension/SafariExtensionHandler.swift:29-53 | dropped exactly when "message" or "messageId" is not a string, or when onPageLoad has non-array args. onPageLoad is forwarded with the title (or "N/A") first and the original args after it. Any other message is forwarded with its args (possibly absent) unchanged |
| ExtensionHandler.PageLoadKeepsArguments | SafariExtension/SafariExtensionHandler.swift:39-45 | the page's own arguments follow the inserted title |
| ExtensionHandler.SlotIndex | SafariExtension/SafariExtensionHandler.swift:66 | the slot is the command's last character as a digit; anything else traps |
| ExtensionHandler.SlotLayout | SafariExtension/SafariExtensionHandler.swift:66-75 | translators occupy the slots before the preferences slot, exactly one slot is the preferences slot, and the slots after it are hidden |
| ExtensionHandler.SlotCensus | SafariExtension/SafariExtensionHandler.swift:66-75 | exactly one slot shows the preferences, and min(count, 9) slots show translators |
| ExtensionHandler.ValidateContextMenuItem | SafariExtension/SafariExtensionHandler.swift:65-76 | a translator slot shows the row's second string (a shorter row traps), the preferences slot shows "Zotero Preferences", the rest are hidden |
| ExtensionHandler.ContextMenuItemSelected | SafariExtension/SafariExtensionHandler.swift:78-85 | sends ["prefs"] exactly on the preferences slot; otherwise the row's first string, trapping when there is no row or it is empty |
| ExtensionHandler.SelectionMatchesLabel | SafariExtension/SafariExtensionHandler.swift:65-85 | every shown item can be selected. The preferences item sends ["prefs"], a translator item sends the id of the translator it shows, and a hidden item cannot be selected |
| Http.RequestWith | SafariExtension/HTTP.swift:21-43 | a missing or unparseable url answers [-1, "missing/incorrect url", nil] before the method is looked at; a missing method answers [-2, url, nil]. Otherwise the request uses the headers object and the UTF-8 bytes of a string body (decoding back to it; other bodies dropped). The response type defaults to "" and the timeout to 15000 ms |
| Http.DefaultsWithoutOptions | SafariExtension/HTTP.swift:34-39 | without an options object: no headers, no body, "" and 15000 ms |
| Http.Fold | SafariExtension/HTTP.swift:67 | header names compare by ASCII-lowercased form, keeping the length |
| Http.FoldIsIdempotent | SafariExtension/HTTP.swift:67 | folding a folded name changes nothing |
| Http.SetValue | SafariExtension/HTTP.swift:64-67 | sets one field, replacing any field of the same name in any case, and leaves the other fields and parts unchanged |
| Http.Describe | SafariExtension/HTTP.swift:67 | a string header value is sent as itself |
| Http.SetCallerHeaders | SafariExtension/HTTP.swift:65-69 | after the loop over the caller headers, every field is the User-Agent or a folded caller name. A caller-named field holds one of that name's values; with fold-distinct names, each caller header's own value |
| Http.BuildRequest | SafariExtension/HTTP.swift:57-71 | keeps url, timeout, method and body. The fields are the User-Agent and every caller header. A caller header, in any case and whatever the order, replaces the fixed User-Agent. Names that differ only in case keep one of their values. With distinct names each caller header has its own value |
| Http.CompleteRequest | SafariExtension/HTTP.swift:73-90 | no HTTP response gives ["error", {message, name: "SwiftError"}]. Otherwise [status, payload, headers, final URL or ""]: bytes for "arraybuffer", else the UTF-8 text, nil when absent or invalid |
| Http.TextAnswerRoundTrip | SafariExtension/HTTP.swift:87-88 | a body that is the UTF-8 encoding of a string reaches the script as that string |
| Http.ArrayBufferAnswerRoundTrip | SafariExtension/HTTP.swift:79-85 | an "arraybuffer" body reaches the script as its bytes, read back one by one as the same numbers. The headers reach it as an object with the same names, each read back as the same string |
| JsValue.AsStringTable | SafariExtension/GlobalPage.swift:420 | `as? [[String]]` succeeds exactly for an array of arrays of strings, giving those strings |
| JsValue.StringMapReadBack | SafariExtension/HTTP.swift:85 | the object a `[String: String]` becomes has the same keys, and each reads back as the string it was |
| JsValue.BytesReadBack | SafariExtension/HTTP.swift:80-85 | the array a `[UInt8]` becomes reads back, element by element, as the numbers it was made of |
| JsUtilities.BinaryString | SafariExtension/JSUtilities.swift:41-45 | one character per byte whose code point is the byte |
| JsUtilities.Atob | SafariExtension/JSUtilities.swift:37-47 | "" when the input, with non-alphabet characters ignored, is not valid Base64; otherwise one character per decoded byte, equal to it |
| JsUtilities.AtobOfEncode | SafariExtension/JSUtilities.swift:37-47 | decoding an encoding gives back the bytes' binary string |
| JsUtilities.Btoa | SafariExtension/JSUtilities.swift:50-64 | raises the exception and returns "" exactly when some character has no ASCII value; otherwise the Base64 of the code points |
| JsUtilities.AsciiRoundTrip | SafariExtension/JSUtilities.swift:37-63 | for ASCII input, `atob(btoa(s)) == s` and the encoding has length 4·⌈n/3⌉ (one character per scalar; see JsUtilities.Btoa under Left out) |
| JsUtilities.BtoaThenAtob | SafariExtension/JSUtilities.swift:37-63 | `btoa` then `atob` returns the input exactly for ASCII input, and "" with an exception otherwise (one character per scalar; see JsUtilities.Btoa under Left out) |
| JsUtilities.CodePointsOfBinaryString | SafariExtension/JSUtilities.swift:44 | a binary string's code points are its bytes |
| JsUtilities.AtobOfHighByte | SafariExtension/JSUtilities.swift:42-46 | `atob("gA==")` is U+0080, a Latin-1 character without an ASCII value |
| JsUtilities.BtoaOfAtobAsWritten | SafariExtension/JSUtilities.swift:53-58 | as written, `btoa(atob("gA=="))` raises the exception |
| JsUtilities.BtoaLatin1 | SafariExtension/JSUtilities.swift:53-57 | with the Latin-1 check, rejects exactly the characters above U+00FF |
| JsUtilities.BtoaLatin1OfAtob | SafariExtension/JSUtilities.swift:37-64 | with the Latin-1 check, `btoa(atob(x))` never raises and re-encodes the decoded bytes |
| JsUtilities.IntervalTable.constructor | SafariExtension/JSUtilities.swift:17 | the table starts empty |
| JsUtilities.IntervalTable.SetInterval | SafariExtension/JSUtilities.swift:68-82 | stores a timer with the first argument as callback, the delay and the repeat flag under the tag, and returns the tag |
| JsUtilities.IntervalTable.ClearInterval | SafariExtension/JSUtilities.swift:84-87 | removes the tag, invalidating its timer if there is one; an absent tag changes nothing |
| JsUtilities.ClearTwice | SafariExtension/JSUtilities.swift:84-87 | clearing twice equals clearing once |
| JsUtilities.BindingOf | SafariExtension/JSUtilities.swift:20-34 | exactly the four timer names are bound |
| JsUtilities.ClearTimeoutIsClearInterval | SafariExtension/JSUtilities.swift:30-34 | `clearTimeout` is the `clearInterval` block; `setInterval` repeats and `setTimeout` does not |
| JsUtilities.ToInt32 | SafariExtension/JSUtilities.swift:31 | the conversion lands in the 32-bit range and agrees with its input modulo 2^32 |
| JsUtilities.ToInt32Fixes | SafariExtension/JSUtilities.swift:31 | 32-bit values pass unchanged |
| JsUtilities.ToInt32LosesWideTags | SafariExtension/JSUtilities.swift:31 | the tag 2^32 becomes 0 |
| JsUtilities.SetThenClearAsWritten | SafariExtension/JSUtilities.swift:30-31 | as written, a timer stored under the hash 2^32 survives `clearInterval` of its own tag |
| JsUtilities.SetIntervalFromScript | SafariExtension/JSUtilities.swift:20-28 | with the tag folded into 32 bits, stores the timer under the tag returned to the script |
| JsUtilities.ClearIntervalFromScript | SafariExtension/JSUtilities.swift:30-34 | the script's value is converted by ToInt32, and that tag is cleared |
| JsUtilities.SetThenClear | SafariExtension/JSUtilities.swift:20-34 | with 32-bit tags, clearing the returned tag removes and invalidates exactly the new timer |
| Base64.Filter | SafariExtension/JSUtilities.swift:38 | `.ignoreUnknownCharacters` keeps only alphabet characters and '=' |
| Base64.FilterKeeps | SafariExtension/JSUtilities.swift:38 | a string of alphabet characters and '=' is kept whole |
| Base64.EncodeIsFiltered | SafariExtension/JSUtilities.swift:38 | an encoding passes the filter unchanged |
| Base64.IndexOfCharOf | SafariExtension/JSUtilities.swift:38 | each sextet's character maps back to it |
| Base64.EncodeLength | SafariExtension/JSUtilities.swift:63 | the padded encoding has length 4·⌈n/3⌉ |
| Base64.DecodeEncode | SafariExtension/JSUtilities.swift:38-63 | strict decoding of an encoding gives back the bytes |
| TextEncoding.TextEncoder.constructor | SafariExtension/TextEncoder.swift:37 | `encoding` is "utf-8" |
| TextEncoding.TextEncoder.Encode | SafariExtension/TextEncoder.swift:39-41 | the UTF-8 bytes of the scalars, decoding back to the input, with between n and 4n bytes |
| TextEncoding.EncodeScalar | SafariExtension/TextEncoder.swift:39-41 | one to four bytes; an ASCII scalar gives its one identical byte, any other scalar gives only bytes ≥ 0x80 |
| TextEncoding.EncodeAppend | SafariExtension/TextEncoder.swift:39-41 | `encode(a + b) == encode(a) + encode(b)` |
| TextEncoding.EncodeLength | SafariExtension/TextEncoder.swift:39-41 | n scalars give between n and 4n bytes |
| TextEncoding.EncodeAscii | SafariExtension/TextEncoder.swift:39-41 | an ASCII string encodes to its own code points |
| TextEncoding.LowBytesAreAscii | SafariExtension/TextEncoder.swift:39-41 | the output has exactly as many bytes below 0x80 as the input has ASCII scalars |
| TextEncoding.DecodeEncode | SafariExtension/TextEncoder.swift:39-41 | decoding the output gives back the input |
| TextEncoding.EncodeDecode | SafariExtension/TextEncoder.swift:39-41 | bytes that decode are the encoding of what they decode to |

## Left out

- SafariExtension/script.js is a DOM content script, and SafariExtensionViewController.swift is a UI singleton. Neither has bridge logic.
- `SafariExtensionHandler.toolbarItemClicked`, `popoverViewController`, the initializer's `Task` hop and the unused `ApiResponseData` struct are not modelled. They only call the host.
- `Swift.activate` has no member: it only calls the host and returns true, which `SendMessageToTabResult` covers for every locally handled command. The host calls that `openWindow` and `openTab` make past their guards are left out, including `openWindow`'s one-second close-polling loop and its `args[1]` read inside the completion. Only their argument guard, `UrlArgument`, is modelled. They return true when it accepts and false when it rejects. That Bool reaches the script as the `handlerResult` parameter of `SendMessageToTabResult`.
- `HTTP.jsRequest`, referenced at GlobalPage.swift:43, is not part of this model. It is not defined in HTTP.swift.
- Host enumeration and dispatch are inputs. `getAllWindows`, `getAllTabs`, `getActivePage`, `getContainingTab` and `dispatchMessageToScript` become snapshot parameters and returned `Dispatch` values.
- Concurrency is not modelled: each completion runs to its end before the next. The code has no lock, so nothing is claimed about interleavings on shared tables.
- Timer firing, wall-clock delays and floating-point conversions are not modelled. Delays and the HTTP timeout stay in integer milliseconds; the division by 1000 is not modelled.
- `Unmanaged` retain/release is a multiset of retained handles, not reference counts with autorelease pools.
- `console.log`, `onError`, the `isInspectable` flag and printing are left out.
- The preferences store, the bundle version, the base URI and the locale lists are parameters.
- GlobalPage.Bootstrap: takes the file list as a parameter. The fixed 33-entry list at GlobalPage.swift:51-85 is not restated; `ResourcePaths.SchemaDataPath` checks the one entry with a nested directory. It requires every path to have a file name, which is true for every entry of that list. The result of `evaluateScript` and script exceptions are not modelled.
- GlobalPage.RouteMessage: the tab id is `Option<int>`, as in the closure. The block type declares a non-optional `Int`, so in practice the "active tab" branch is reachable only through how the host bridges a missing argument.
- GlobalPage.SendMessageToGlobalPage: a tab whose hash value is -1 gets the same id as "no active tab". The model does not exclude this.
- TabRegistry.TabManager.GetTabId and PageRegistry.PageManager.GetPageId: hash collisions are not ruled out, as in the code. The retain balance is proved only for calls without a collision; `CollisionLeaksDisplacedTab` shows what happens otherwise.
- ExtensionHandler.SlotIndex: reads only ASCII digits. `wholeNumberValue` also accepts other Unicode digits, which the fixed command names never use.
- JsUtilities.IntervalTable.SetInterval: requires at least one argument. With none, `removeFirst` traps.
- JsUtilities.Btoa: treats each Unicode scalar as one character. Swift iterates grapheme clusters, so "\r\n" is one `Character` with ASCII value 10. That difference is not modelled.
- Http.Fold: folds ASCII letters only. Header-name comparison for non-ASCII names is left to the host.
- Http.Describe: only string values are fixed. The host's `"\(value)"` description of numbers, booleans, arrays and objects is a parameter.
- Http.ResolveUrl: URL parsing and percent decoding/encoding are parameters, not RFC 3986 parsers.
- `JSValue.toInt32()` on a non-number value, and the `JSContext.currentArguments()` cast, are not modelled; the script passes whole numbers.

## Findings

| source | as written | input that shows it | evidently intended | confidence | as-written member | corrected member |
|---|---|---|---|---|---|---|
| SafariExtension/JSUtilities.swift:31 | `setInterval` returns `UUID().hashValue`, a 64-bit value, but the `clearInterval`/`clearTimeout` binding looks the tag up as `Int(value.toInt32())` | a timer whose tag is 2^32: `clearInterval` of that tag clears tag 0 and the timer keeps running | the tag the script receives clears its own timer | not executed; medium, since JavaScript numbers above 2^53 also lose precision on the way | JsUtilities.SetThenClearAsWritten | JsUtilities.SetThenClear |
| SafariExtension/JSUtilities.swift:53-58 | `btoa` accepts only characters with an ASCII value, while its own error message and the JavaScript API it replaces accept Latin-1 | `btoa(atob("gA=="))`: `atob` gives U+0080, which `btoa` then rejects | every string `atob` produces is accepted by `btoa` (characters up to U+00FF) | not executed; medium | JsUtilities.BtoaOfAtobAsWritten | JsUtilities.BtoaLatin1OfAtob |
