/**
 * The settings tab of the plugin: the rule list it edits in place (add, remove with a one-step undo,
 * undo, dismiss, move up and down, field edits), the entries it renders with the removed rule shown
 * back at its old place, and the font-size fallback.
 */
module Plugin {
  import opened Wrappers
  import opened JsStrings
  import opened JsArrays
  import opened Types
  import opened Utils

  /** The path font size in effect: the setting, or the default when it is empty. */
  function FontSizeOrDefault(fontSize: Str): (r: Str)
    ensures r != []
    ensures fontSize != [] ==> r == fontSize
    ensures fontSize == [] ==> r == DefaultFontSize
  {
    if fontSize != [] then fontSize else DefaultFontSize
  }

  /** The last removed rule and the index it was removed from. */
  datatype UndoEntry = UndoEntry(index: nat, setting: PathSettings)

  /** The six "add" buttons of the tab. */
  datatype AddChoice = ExactPath | ExactFolder | OtherPath | OtherFolder | Text | RegularExpression

  /**
   * The rule an "add" button appends: the two dropdown buttons copy the selected path or folder
   * name into both pattern and replacement; the other four add a blank rule of their kind.
   */
  function NewRule(choice: AddChoice, selected: Str): (r: PathSettings)
    ensures choice in {ExactPath, ExactFolder} ==> r.pattern == r.replace == selected
    ensures choice !in {ExactPath, ExactFolder} ==> r.pattern == r.replace == []
    ensures r.kind == match choice
      case ExactPath => ExactTag
      case ExactFolder => FolderTag
      case OtherPath => ExactTag
      case OtherFolder => FolderTag
      case Text => TextTag
      case RegularExpression => RegExpTag
  {
    match choice
    case ExactPath => PathSettings(ExactTag, selected, selected)
    case ExactFolder => PathSettings(FolderTag, selected, selected)
    case OtherPath => PathSettings(ExactTag, "", "")
    case OtherFolder => PathSettings(FolderTag, "", "")
    case Text => PathSettings(TextTag, "", "")
    case RegularExpression => PathSettings(RegExpTag, "", "")
  }

  /**
   * A rule just added by any of the buttons changes no title: the dropdown rules map a path or a
   * folder name to itself, and the blank rules have an empty pattern.
   */
  lemma AddedRuleKeepsTitles(rules: seq<PathSettings>, choice: AddChoice, selected: Str, path: Str, re: RegExpReplace)
    ensures ApplyPathSettings(rules + [NewRule(choice, selected)], path, re) == ApplyPathSettings(rules, path, re)
  {
    var rule := NewRule(choice, selected);
    LastRuleSeesPriorOutput(rules, rule, path, re);
    match ApplyPathSettings(rules, path, re)
    case Err(e) =>
    case Ok(p) =>
      if rule.kind == FolderTag && rule.pattern != [] {
        var segs := Split(p);
        assert ReplaceSegments(segs, rule.pattern, rule.replace) == segs;
        JoinSplit(p);
      }
  }

  /** The handler's two splices of "move down" exchange the rule with the one after it. */
  lemma MoveDownSplices<T>(s: seq<T>, i: nat)
    requires i + 1 < |s|
    ensures Splice(Splice(s, i, 1, []), i + 1, 0, [s[i]]) == Swap(s, i, i + 1)
  {
    var t := Splice(s, i, 1, []);
    SpliceRemove(s, i);
    SpliceInsert(t, i + 1, s[i]);
    var r := t[..i + 1] + [s[i]] + t[i + 1..];
    assert |r| == |s|;
    assert forall k :: 0 <= k < |s| ==> r[k] == Swap(s, i, i + 1)[k];
  }

  /** The handler's two splices of "move up" exchange the rule with the one before it. */
  lemma MoveUpSplices<T>(s: seq<T>, i: nat)
    requires 0 < i < |s|
    ensures Splice(Splice(s, i, 1, []), i - 1, 0, [s[i]]) == Swap(s, i - 1, i)
  {
    var t := Splice(s, i, 1, []);
    SpliceRemove(s, i);
    SpliceInsert(t, i - 1, s[i]);
    var r := t[..i - 1] + [s[i]] + t[i - 1..];
    assert |r| == |s|;
    assert forall k :: 0 <= k < |s| ==> r[k] == Swap(s, i - 1, i)[k];
  }

  /**
   * Without its guard, "move up" on the first of at least three rules would put it just before the
   * last one, because `splice(-1, ...)` counts from the end; the button is disabled there.
   */
  lemma MoveUpAtFirstUnguarded<T>(s: seq<T>)
    requires |s| >= 3
    ensures Splice(Splice(s, 0, 1, []), -1, 0, [s[0]]) == s[1..|s| - 1] + [s[0], s[|s| - 1]]
  {
    var r := Splice(Splice(s, 0, 1, []), -1, 0, [s[0]]);
    assert r == s[1..|s| - 1] + [s[0]] + s[|s| - 1..];
    assert s[|s| - 1..] == [s[|s| - 1]];
  }

  /** On the last rule the splices of "move down" leave the list as it was, since the insert index is clamped. */
  lemma MoveDownAtLastUnguarded<T>(s: seq<T>)
    requires |s| >= 1
    ensures Splice(Splice(s, |s| - 1, 1, []), |s|, 0, [s[|s| - 1]]) == s
  {
  }

  /** One rendered entry: a live rule with its index, or the removed rule shown with an undo button. */
  datatype Entry = Live(index: nat, setting: PathSettings) | Removed(index: nat, setting: PathSettings)

  /** `Array.from(list.entries())`: each rule paired with its index. */
  function Enumerate(s: seq<PathSettings>): (r: seq<Entry>)
    ensures |r| == |s|
    ensures forall k :: 0 <= k < |s| ==> r[k] == Live(k, s[k])
  {
    seq(|s|, k requires 0 <= k < |s| => Live(k, s[k]))
  }

  /** The state of the settings tab: the rule list, the font size and the undo slot. */
  class SettingTab {
    var pathSettings: seq<PathSettings>
    var fontSize: Str
    var undoEntry: Option<UndoEntry>

    /** An undo entry can always be put back: its index is at most the length of the list. */
    predicate Valid()
      reads this
    {
      undoEntry.Some? ==> undoEntry.value.index <= |pathSettings|
    }

    /** The tab opens on the loaded settings with nothing to undo. */
    constructor (settings: seq<PathSettings>, size: Str)
      ensures Valid()
      ensures pathSettings == settings && fontSize == size && undoEntry == None
    {
      pathSettings := settings;
      fontSize := size;
      undoEntry := None;
    }

    /** The font-size dropdown stores the chosen value. */
    method SetFontSize(value: Str)
      requires Valid()
      modifies this
      ensures Valid()
      ensures fontSize == value
      ensures pathSettings == old(pathSettings) && undoEntry == old(undoEntry)
    {
      fontSize := value;
    }

    /** Every "add" button appends exactly one rule at the end and forgets the undo entry. */
    method Add(choice: AddChoice, selected: Str)
      requires Valid()
      modifies this
      ensures Valid()
      ensures pathSettings == old(pathSettings) + [NewRule(choice, selected)]
      ensures undoEntry == None && fontSize == old(fontSize)
    {
      pathSettings := pathSettings + [NewRule(choice, selected)];
      undoEntry := None;
    }

    /** The trash button removes the rule at `index` and remembers it, with its index, for undo. */
    method Remove(index: nat)
      requires Valid() && index < |pathSettings|
      modifies this
      ensures Valid()
      ensures pathSettings == RemoveAt(old(pathSettings), index)
      ensures undoEntry == Some(UndoEntry(index, old(pathSettings)[index]))
      ensures fontSize == old(fontSize)
    {
      var removed := pathSettings[index];
      SpliceRemove(pathSettings, index);
      pathSettings := Splice(pathSettings, index, 1, []);
      undoEntry := Some(UndoEntry(index, removed));
    }

    /** The undo button puts the removed rule back at its old index and clears the undo entry. */
    method Undo()
      requires Valid()
      modifies this
      ensures Valid()
      ensures pathSettings == match old(undoEntry)
        case None => old(pathSettings)
        case Some(e) => InsertAt(old(pathSettings), e.index, e.setting)
      ensures undoEntry == None && fontSize == old(fontSize)
    {
      match undoEntry
      case None =>
      case Some(e) =>
        SpliceInsert(pathSettings, e.index, e.setting);
        pathSettings := Splice(pathSettings, e.index, 0, [e.setting]);
        undoEntry := None;
    }

    /** The cross button forgets the undo entry and leaves the rules alone. */
    method DismissUndo()
      requires Valid()
      modifies this
      ensures Valid()
      ensures pathSettings == old(pathSettings) && fontSize == old(fontSize) && undoEntry == None
    {
      undoEntry := None;
    }

    /** "Move down": disabled on the last rule, otherwise exchanges the rule with the next one. */
    method MoveDown(index: nat)
      requires Valid() && index < |pathSettings|
      modifies this
      ensures Valid()
      ensures pathSettings == if index + 1 < |old(pathSettings)|
        then Swap(old(pathSettings), index, index + 1) else old(pathSettings)
      ensures undoEntry == old(undoEntry) && fontSize == old(fontSize)
    {
      if index < |pathSettings| - 1 {
        var moved := pathSettings[index];
        MoveDownSplices(pathSettings, index);
        pathSettings := Splice(pathSettings, index, 1, []);
        pathSettings := Splice(pathSettings, index + 1, 0, [moved]);
      }
    }

    /** "Move up": disabled on the first rule, otherwise exchanges the rule with the previous one. */
    method MoveUp(index: nat)
      requires Valid() && index < |pathSettings|
      modifies this
      ensures Valid()
      ensures pathSettings == if index > 0 then Swap(old(pathSettings), index - 1, index) else old(pathSettings)
      ensures undoEntry == old(undoEntry) && fontSize == old(fontSize)
    {
      if index != 0 {
        var moved := pathSettings[index];
        MoveUpSplices(pathSettings, index);
        pathSettings := Splice(pathSettings, index, 1, []);
        pathSettings := Splice(pathSettings, index - 1, 0, [moved]);
      }
    }

    /** The type dropdown of a rule stores the new kind tag in that rule only. */
    method SetKind(index: nat, value: Str)
      requires Valid() && index < |pathSettings|
      modifies this
      ensures Valid()
      ensures pathSettings == old(pathSettings)[index := old(pathSettings)[index].(kind := value)]
      ensures undoEntry == old(undoEntry) && fontSize == old(fontSize)
    {
      pathSettings := pathSettings[index := pathSettings[index].(kind := value)];
    }

    /** The match field of a rule stores the new pattern in that rule only. */
    method SetPattern(index: nat, value: Str)
      requires Valid() && index < |pathSettings|
      modifies this
      ensures Valid()
      ensures pathSettings == old(pathSettings)[index := old(pathSettings)[index].(pattern := value)]
      ensures undoEntry == old(undoEntry) && fontSize == old(fontSize)
    {
      pathSettings := pathSettings[index := pathSettings[index].(pattern := value)];
    }

    /** The replacement field of a rule stores the new replacement in that rule only. */
    method SetReplace(index: nat, value: Str)
      requires Valid() && index < |pathSettings|
      modifies this
      ensures Valid()
      ensures pathSettings == old(pathSettings)[index := old(pathSettings)[index].(replace := value)]
      ensures undoEntry == old(undoEntry) && fontSize == old(fontSize)
    {
      pathSettings := pathSettings[index := pathSettings[index].(replace := value)];
    }

    /**
     * The entries the tab renders: every rule with its index, and, when there is an undo entry,
     * the removed rule spliced in at the index it was removed from.
     */
    method RenderEntries() returns (entries: seq<Entry>)
      requires Valid()
      ensures undoEntry.None? ==> entries == Enumerate(pathSettings)
      ensures undoEntry.Some? ==>
        var e := undoEntry.value;
        && |entries| == |pathSettings| + 1
        && entries[e.index] == Removed(e.index, e.setting)
        && (forall k :: 0 <= k < e.index ==> entries[k] == Live(k, pathSettings[k]))
        && (forall k :: e.index < k < |entries| ==> entries[k] == Live(k - 1, pathSettings[k - 1]))
    {
      entries := Enumerate(pathSettings);
      if undoEntry.Some? {
        var e := undoEntry.value;
        SpliceInsert(entries, e.index, Removed(e.index, e.setting));
        entries := Splice(entries, e.index, 0, [Removed(e.index, e.setting)]);
      }
    }
  }

  /** Removing a rule and then undoing restores the rule list exactly, and leaves nothing to undo. */
  method RemoveThenUndo(tab: SettingTab, index: nat)
    requires tab.Valid() && index < |tab.pathSettings|
    modifies tab
    ensures tab.Valid()
    ensures tab.pathSettings == old(tab.pathSettings) && tab.undoEntry == None
  {
    ghost var before := tab.pathSettings;
    tab.Remove(index);
    tab.Undo();
    RemoveInsertInverse(before, index, before[index]);
  }

  /** Moving a rule down and then back up restores the list; each move only reorders it. */
  method MoveDownThenUp(tab: SettingTab, index: nat)
    requires tab.Valid() && index + 1 < |tab.pathSettings|
    modifies tab
    ensures tab.Valid()
    ensures tab.pathSettings == old(tab.pathSettings) && tab.undoEntry == old(tab.undoEntry)
  {
    ghost var before := tab.pathSettings;
    tab.MoveDown(index);
    assert multiset(tab.pathSettings) == multiset(before);
    tab.MoveUp(index + 1);
    assert |tab.pathSettings| == |before|;
    assert forall k :: 0 <= k < |before| ==> tab.pathSettings[k] == before[k];
  }
}
