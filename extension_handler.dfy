/**
 * The native handler of the Safari app extension: the envelope check on
 * messages that content scripts send, and the ten placeholder items of the
 * page's context menu, which are labelled from, and act on, the translator
 * list that `updateButton` last stored.
 */
module ExtensionHandler {
  import opened Wrappers
  import opened JsValue

  const OnPageLoad := "Connector_Browser.onPageLoad"
  /** The title inserted when the host reports none. */
  const UntitledPage := "N/A"

  // ---------------------------------------------------------------------
  // messageReceived
  // ---------------------------------------------------------------------

  /** A call of `sendMessageToGlobalPage(name:args:id:page:)`. */
  datatype Forward<P> = Forward(name: string, args: Option<Value>, id: string, page: P)

  /**
   * `messageReceived`: `userInfo` must carry a String "message" and a String
   * "messageId"; "args" is passed on as found (possibly absent). For an
   * onPageLoad message the args must be an array, and the page title, which
   * the host reports asynchronously as `title`, is inserted in front of them.
   */
  function MessageReceived<P>(userInfo: Option<map<string, Value>>, page: P, title: Option<string>): (r: Option<Forward<P>>)
    ensures r.None? <==>
      (AsString(Lookup(userInfo, "message")).None? ||
       AsString(Lookup(userInfo, "messageId")).None? ||
       (AsString(Lookup(userInfo, "message")) == Some(OnPageLoad) && AsArray(Lookup(userInfo, "args")).None?))
    ensures r.Some? ==>
      Some(r.value.name) == AsString(Lookup(userInfo, "message")) &&
      Some(r.value.id) == AsString(Lookup(userInfo, "messageId")) &&
      r.value.page == page
    ensures r.Some? && r.value.name != OnPageLoad ==> r.value.args == Lookup(userInfo, "args")
    ensures r.Some? && r.value.name == OnPageLoad ==>
      var original := AsArray(Lookup(userInfo, "args")).value;
      r.value.args.Some? && r.value.args.value.Arr? &&
      |r.value.args.value.items| == |original| + 1 &&
      r.value.args.value.items[0] == Str(GetOr(title, UntitledPage)) &&
      r.value.args.value.items[1..] == original
  {
    var message := AsString(Lookup(userInfo, "message"));
    var messageId := AsString(Lookup(userInfo, "messageId"));
    var args := Lookup(userInfo, "args");
    if message.None? || messageId.None? then None
    else if message.value == OnPageLoad then
      match AsArray(args)
      case None => None
      case Some(items) =>
        Some(Forward(message.value, Some(Arr([Str(GetOr(title, UntitledPage))] + items)), messageId.value, page))
    else
      Some(Forward(message.value, args, messageId.value, page))
  }

  /** Forwarding an onPageLoad message keeps the page's own arguments after the title. */
  lemma PageLoadKeepsArguments<P>(items: seq<Value>, id: string, page: P, title: Option<string>)
    ensures var userInfo := Some(map["message" := Str(OnPageLoad), "messageId" := Str(id), "args" := Arr(items)]);
      var r := MessageReceived(userInfo, page, title);
      r.Some? && r.value.args.Some? && r.value.args.value.Arr? &&
      r.value.args.value.items[1..] == items
  {
    var userInfo := Some(map["message" := Str(OnPageLoad), "messageId" := Str(id), "args" := Arr(items)]);
    assert Lookup(userInfo, "message") == Some(Str(OnPageLoad));
    assert Lookup(userInfo, "messageId") == Some(Str(id));
    assert Lookup(userInfo, "args") == Some(Arr(items));
  }

  // ---------------------------------------------------------------------
  // The context-menu slots
  // ---------------------------------------------------------------------

  /** There are ten placeholder items, with commands ending in 0 .. 9. */
  const SlotCount := 10
  const PreferencesLabel := "Zotero Preferences"
  const ContextMenuMessage := "onContextMenuItem"

  /** The slot of a command: the last character read as a digit; anything else traps. */
  function SlotIndex(command: string): (r: Guard<nat>)
    ensures r.Crashed? <==> command == [] || !('0' <= command[|command| - 1] <= '9')
    ensures r.Accepted? ==> r.value < SlotCount && command[|command| - 1] as int == '0' as int + r.value
    ensures !r.Rejected?
  {
    if command == [] || !('0' <= command[|command| - 1] <= '9') then Crashed
    else Accepted(command[|command| - 1] as int - '0' as int)
  }

  /** What a slot is for, given how many translators the page has. */
  datatype SlotKind = HiddenSlot | TranslatorSlot | PreferencesSlot

  function KindOf(index: nat, count: nat): SlotKind {
    if index < count && index < 9 then TranslatorSlot
    else if index == count || count > 9 then PreferencesSlot
    else HiddenSlot
  }

  function Min(a: nat, b: nat): nat {
    if a < b then a else b
  }

  /** The one slot that leads to the preferences: right after the translators, at most the last slot. */
  function PreferencesSlotOf(count: nat): (r: nat)
    ensures r < SlotCount
    ensures r <= count
  {
    Min(count, 9)
  }

  /**
   * For every translator count, the translators take the slots before the
   * preferences slot, the preferences slot is the only one of its kind, and
   * the slots after it are hidden.
   */
  lemma SlotLayout(index: nat, count: nat)
    requires index < SlotCount
    ensures KindOf(index, count) == TranslatorSlot <==> index < PreferencesSlotOf(count)
    ensures KindOf(index, count) == PreferencesSlot <==> index == PreferencesSlotOf(count)
    ensures KindOf(index, count) == HiddenSlot <==> index > PreferencesSlotOf(count)
  {
  }

  /** The slots 0 .. n-1. */
  function Slots(n: nat): (r: set<nat>)
    ensures forall i :: i in r <==> 0 <= i < n
  {
    if n == 0 then {} else Slots(n - 1) + {n - 1}
  }

  lemma {:induction false} SlotsSize(n: nat)
    ensures |Slots(n)| == n
  {
    if n > 0 {
      SlotsSize(n - 1);
      assert Slots(n) == Slots(n - 1) + {n - 1};
      assert n - 1 !in Slots(n - 1);
    }
  }

  /** Exactly one slot shows the preferences, and at most nine show translators. */
  lemma SlotCensus(count: nat)
    ensures |set i: nat | i < SlotCount && KindOf(i, count) == PreferencesSlot| == 1
    ensures |set i: nat | i < SlotCount && KindOf(i, count) == TranslatorSlot| == Min(count, 9)
  {
    var prefs := set i: nat | i < SlotCount && KindOf(i, count) == PreferencesSlot;
    var shown := set i: nat | i < SlotCount && KindOf(i, count) == TranslatorSlot;
    forall i: nat | i < SlotCount {
      SlotLayout(i, count);
    }
    assert prefs == {PreferencesSlotOf(count)};
    assert shown == Slots(Min(count, 9));
    SlotsSize(Min(count, 9));
  }

  /** `validationHandler(shouldHide, text)`: an item is shown with a text, or hidden. */
  datatype MenuItem = Shown(text: string) | Hidden

  /**
   * `validateContextMenuItem`: a translator slot shows the translator's
   * label (its second string, which traps when the row is shorter), the
   * preferences slot shows "Zotero Preferences", the rest are hidden.
   */
  function ValidateContextMenuItem(command: string, translators: seq<seq<string>>): (r: Guard<MenuItem>)
    ensures SlotIndex(command).Crashed? ==> r.Crashed?
    ensures SlotIndex(command).Accepted? ==>
      var i := SlotIndex(command).value;
      match KindOf(i, |translators|)
      case TranslatorSlot =>
        (r.Crashed? <==> |translators[i]| < 2) && (r.Accepted? ==> r.value == Shown(translators[i][1]))
      case PreferencesSlot => r == Accepted(Shown(PreferencesLabel))
      case HiddenSlot => r == Accepted(Hidden)
  {
    match SlotIndex(command)
    case Crashed => Crashed
    case Rejected => Crashed
    case Accepted(index) =>
      if index < |translators| && index < 9 then
        if |translators[index]| < 2 then Crashed else Accepted(Shown(translators[index][1]))
      else if index == |translators| || |translators| > 9 then
        Accepted(Shown(PreferencesLabel))
      else
        Accepted(Hidden)
  }

  /** The arguments with which a selected item messages the global script. */
  const PreferencesArgs := Arr([Str("prefs")])

  /**
   * `contextMenuItemSelected`: the preferences slot sends ["prefs"]; any
   * other slot sends its translator's id (the row's first string), which
   * traps when the slot has no translator or the row is empty.
   */
  function ContextMenuItemSelected(command: string, translators: seq<seq<string>>): (r: Guard<Value>)
    ensures SlotIndex(command).Crashed? ==> r.Crashed?
    ensures SlotIndex(command).Accepted? ==>
      var i := SlotIndex(command).value;
      (r == Accepted(PreferencesArgs) <==> KindOf(i, |translators|) == PreferencesSlot) &&
      (r.Crashed? <==> KindOf(i, |translators|) != PreferencesSlot && (i >= |translators| || |translators[i]| == 0)) &&
      (r.Accepted? && KindOf(i, |translators|) != PreferencesSlot ==> r.value == Str(translators[i][0]))
  {
    match SlotIndex(command)
    case Crashed => Crashed
    case Rejected => Crashed
    case Accepted(index) =>
      var count := |translators|;
      if index == count || (count > 9 && index == 9) then Accepted(PreferencesArgs)
      else if index >= count || |translators[index]| == 0 then Crashed
      else Accepted(Str(translators[index][0]))
  }

  /**
   * The labels and the selections agree: every item that is shown can be
   * selected without a trap, the one labelled as the preferences sends
   * ["prefs"], and a translator item sends the id of the translator whose
   * label it shows. A hidden item cannot be selected.
   */
  lemma SelectionMatchesLabel(command: string, translators: seq<seq<string>>)
    requires SlotIndex(command).Accepted?
    ensures var i := SlotIndex(command).value;
      var item := ValidateContextMenuItem(command, translators);
      var action := ContextMenuItemSelected(command, translators);
      (item.Accepted? && item.value.Shown? ==> action.Accepted?) &&
      (KindOf(i, |translators|) == PreferencesSlot ==>
        item == Accepted(Shown(PreferencesLabel)) && action == Accepted(PreferencesArgs)) &&
      (KindOf(i, |translators|) == TranslatorSlot && |translators[i]| >= 2 ==>
        item == Accepted(Shown(translators[i][1])) && action == Accepted(Str(translators[i][0]))) &&
      (item == Accepted(Hidden) ==> action.Crashed?)
  {
    var i := SlotIndex(command).value;
    SlotLayout(i, |translators|);
  }
}
