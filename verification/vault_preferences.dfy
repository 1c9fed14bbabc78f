// Per-vault feature overrides. Each feature has a three-state check box:
// checked enables it, unchecked disables it, and the partial state defers to
// the application-wide setting.

module VaultPreferences {
  import opened Strings

  datatype CheckState = Unchecked | PartiallyChecked | Checked

  /** An override as stored: `None` means "use the global setting". */
  type Override = Option<bool>

  /** How a stored override is shown. */
  function ToCheckState(v: Override): (r: CheckState)
    ensures r == PartiallyChecked <==> v.None?
    ensures r == Checked <==> v == Some(true)
  {
    match v
    case None => PartiallyChecked
    case Some(b) => if b then Checked else Unchecked
  }

  /** The override a check box stands for. */
  function CheckboxValue(s: CheckState): (r: Override)
    ensures r.None? <==> s == PartiallyChecked
    ensures r == Some(true) <==> s == Checked
  {
    if s == PartiallyChecked then None else Some(s == Checked)
  }

  /** Showing an override and reading it back gives it unchanged, and the
      other way round: the two mappings are inverse bijections. */
  lemma TriStateRoundTrip(v: Override, s: CheckState)
    ensures CheckboxValue(ToCheckState(v)) == v
    ensures ToCheckState(CheckboxValue(s)) == s
  {
  }

  /** The six check boxes of the dialog. */
  datatype Boxes = Boxes(
    tasks: CheckState,
    calendar: CheckState,
    linkNavigator: CheckState,
    tags: CheckState,
    remoteVaults: CheckState,
    aiChats: CheckState)

  /** The six stored overrides. */
  datatype Overrides = Overrides(
    tasks: Override,
    calendar: Override,
    linkNavigator: Override,
    tags: Override,
    remoteVaults: Override,
    aiChats: Override)

  const Keys: set<string> := {"tasks", "calendar", "link_navigator", "tags", "remote_vaults", "ai_chats"}

  /** The dialog's boxes, filled from the stored overrides. */
  function Load(o: Overrides): (r: Boxes)
    ensures CheckboxValue(r.tasks) == o.tasks && CheckboxValue(r.calendar) == o.calendar
    ensures CheckboxValue(r.linkNavigator) == o.linkNavigator && CheckboxValue(r.tags) == o.tags
    ensures CheckboxValue(r.remoteVaults) == o.remoteVaults && CheckboxValue(r.aiChats) == o.aiChats
  {
    Boxes(ToCheckState(o.tasks), ToCheckState(o.calendar), ToCheckState(o.linkNavigator),
          ToCheckState(o.tags), ToCheckState(o.remoteVaults), ToCheckState(o.aiChats))
  }

  /** The values the boxes stand for, under the six keys. */
  function CollectValues(b: Boxes): (r: map<string, Override>)
    ensures r.Keys == Keys
    ensures r["tasks"] == CheckboxValue(b.tasks) && r["calendar"] == CheckboxValue(b.calendar)
    ensures r["link_navigator"] == CheckboxValue(b.linkNavigator) && r["tags"] == CheckboxValue(b.tags)
    ensures r["remote_vaults"] == CheckboxValue(b.remoteVaults) && r["ai_chats"] == CheckboxValue(b.aiChats)
  {
    KeyedValues(CheckboxValue(b.tasks), CheckboxValue(b.calendar), CheckboxValue(b.linkNavigator),
                CheckboxValue(b.tags), CheckboxValue(b.remoteVaults), CheckboxValue(b.aiChats))
  }

  /** The six values under their keys, in the dialog's order. */
  function KeyedValues(tasks: Override, calendar: Override, linkNavigator: Override,
                       tags: Override, remoteVaults: Override, aiChats: Override): (r: map<string, Override>)
    ensures r.Keys == Keys
    ensures r["tasks"] == tasks && r["calendar"] == calendar && r["link_navigator"] == linkNavigator
    ensures r["tags"] == tags && r["remote_vaults"] == remoteVaults && r["ai_chats"] == aiChats
  {
    map["tasks" := tasks, "calendar" := calendar, "link_navigator" := linkNavigator,
        "tags" := tags, "remote_vaults" := remoteVaults, "ai_chats" := aiChats]
  }

  /** Collecting loses nothing: equal collections come from equal boxes. */
  lemma CollectInjective(a: Boxes, b: Boxes)
    ensures CollectValues(a) == CollectValues(b) <==> a == b
  {
    if CollectValues(a) == CollectValues(b) {
      TriStateRoundTrip(None, a.tasks);
      TriStateRoundTrip(None, b.tasks);
      TriStateRoundTrip(None, a.calendar);
      TriStateRoundTrip(None, b.calendar);
      TriStateRoundTrip(None, a.linkNavigator);
      TriStateRoundTrip(None, b.linkNavigator);
      TriStateRoundTrip(None, a.tags);
      TriStateRoundTrip(None, b.tags);
      TriStateRoundTrip(None, a.remoteVaults);
      TriStateRoundTrip(None, b.remoteVaults);
      TriStateRoundTrip(None, a.aiChats);
      TriStateRoundTrip(None, b.aiChats);
    }
  }

  /** "Use Global Defaults": every box goes to the partial state. */
  function ResetToGlobal(b: Boxes): (r: Boxes)
    ensures forall k :: k in Keys ==> CollectValues(r)[k] == None
  {
    Boxes(PartiallyChecked, PartiallyChecked, PartiallyChecked, PartiallyChecked, PartiallyChecked, PartiallyChecked)
  }

  /** The dialog: its boxes and the values collected when it opened. */
  datatype Dialog = Dialog(boxes: Boxes, initial: map<string, Override>)

  function Open(o: Overrides): (r: Dialog)
    ensures r.initial == CollectValues(r.boxes)
  {
    var b := Load(o);
    Dialog(b, CollectValues(b))
  }

  /** Accepting saves all six values, every time, and asks to reopen the
      vault exactly when they differ from those at opening. */
  function Accept(d: Dialog): (r: (Overrides, bool))
    ensures var v := CollectValues(d.boxes);
      r.0 == Overrides(v["tasks"], v["calendar"], v["link_navigator"], v["tags"], v["remote_vaults"], v["ai_chats"])
    ensures r.1 <==> CollectValues(d.boxes) != d.initial
  {
    var v := CollectValues(d.boxes);
    (Overrides(v["tasks"], v["calendar"], v["link_navigator"], v["tags"], v["remote_vaults"], v["ai_chats"]), v != d.initial)
  }

  /** Opening and accepting without touching anything stores the same
      overrides again and asks for nothing. */
  lemma UntouchedAccept(o: Overrides)
    ensures Accept(Open(o)) == (o, false)
  {
  }

  /** Resetting a dialog that had any override asks to reopen the vault,
      and stores "use global" everywhere. */
  lemma ResetThenAccept(o: Overrides)
    requires o != Overrides(None, None, None, None, None, None)
    ensures var d := Open(o);
      Accept(d.(boxes := ResetToGlobal(d.boxes))) == (Overrides(None, None, None, None, None, None), true)
  {
    var d := Open(o);
    var reset := ResetToGlobal(d.boxes);
    CollectInjective(reset, d.boxes);
    assert reset != d.boxes;
  }
}
