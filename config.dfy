/**
 * config_handler and the record it fills: the launcher's config, its menus
 * and gamepad controls, and the three cursors the C code keeps as globals
 * (`menu`, `entry` and `current_gamepad_control`), held here as indices.
 * The ini parser calls the handler once per (section, key, value) line.
 */
module ConfigHandler {
  import opened Wrappers
  import CStrings
  import SettingsSection
  import Gamepad
  import Menus

  class Config {
    const lim: SettingsSection.Limits
    var settings: SettingsSection.Settings
    var menus: seq<Menus.Menu>
    var numMenus: nat
    var controls: seq<Gamepad.Control>
    /** `menu`: the index of the last menu created, -1 while there is none. */
    var menuCursor: int
    /** `entry`: the index of the last entry appended to the current menu. */
    var entryCursor: int
    /** `current_gamepad_control`: the index of the tail control, -1 while there is none. */
    var controlCursor: int

    ghost predicate Valid()
      reads this
    {
      && numMenus == |menus|
      && menuCursor == |menus| - 1
      && (menus != [] && menus[|menus| - 1].entries != [] ==> entryCursor == |menus[|menus| - 1].entries| - 1)
      && Menus.Counted(menus)
      && Menus.DistinctNames(menus)
      && Menus.EntriesComplete(menus)
      && controlCursor == |controls| - 1
      && Gamepad.Bound(controls)
      && SettingsSection.InBounds(settings, lim)
    }

    /** The record before the first line: the defaults, no menus, no controls. */
    constructor (lim: SettingsSection.Limits, defaults: SettingsSection.Settings)
      requires SettingsSection.InBounds(defaults, lim)
      ensures Valid()
      ensures this.lim == lim && settings == defaults && menus == [] && controls == []
    {
      this.lim := lim;
      settings := defaults;
      menus := [];
      numMenus := 0;
      controls := [];
      menuCursor := -1;
      entryCursor := -1;
      controlCursor := -1;
    }

    /**
     * config_handler: one (section, key, value) line of the ini file. The
     * Settings section writes the settings record, the Gamepad section its
     * scalar keys or a new control, and any other section names a menu that
     * receives the line as an entry. It always returns 0.
     * The value of a path key is not empty: copy_string would leave a NULL
     * for clean_path. A menu section is named (copy_string leaves a NULL
     * name for "", which the next menu scan compares), and an empty line for
     * a menu that already has entries is excluded as SafeLine says.
     */
    method Handle(section: string, key: SettingsSection.Key, name: string, value: string) returns (r: int)
      requires Valid()
      requires section == "Settings" && SettingsSection.IsPathKey(key) && key != SettingsSection.GamepadMappingsFile ==> value != ""
      requires section == "Gamepad" && key == SettingsSection.GamepadMappingsFile ==> value != ""
      requires section != "Settings" && section != "Gamepad" ==> section != "" && Menus.SafeLine(menus, section, value)
      modifies this
      ensures Valid() && r == 0
      ensures section == "Settings" ==>
        && settings == SettingsSection.ApplySetting(old(settings), lim, key, value)
        && menus == old(menus) && controls == old(controls)
      ensures section == "Gamepad" && key.Bind? ==>
        && controls == Gamepad.AddControl(old(controls), Gamepad.BindingOf(key.binding).0, Gamepad.BindingOf(key.binding).1, name, value)
        && settings == old(settings) && menus == old(menus)
      ensures section == "Gamepad" && !key.Bind? ==>
        && settings == SettingsSection.ApplyGamepadSetting(old(settings), lim, key, value)
        && menus == old(menus) && controls == old(controls)
      ensures section != "Settings" && section != "Gamepad" ==>
        && menus == Menus.MenuLine(old(menus), section, value)
        && settings == old(settings) && controls == old(controls)
    {
      if section == "Settings" {
        SettingsSection.ApplySettingKeepsBounds(settings, lim, key, value);
        settings := SettingsSection.ApplySetting(settings, lim, key, value);
      } else if section == "Gamepad" {
        if key.Bind? {
          var (kind, index) := Gamepad.BindingOf(key.binding);
          AddGamepadControl(kind, index, name, value);
        } else {
          SettingsSection.ApplyGamepadSettingKeepsBounds(settings, lim, key, value);
          settings := SettingsSection.ApplyGamepadSetting(settings, lim, key, value);
        }
      } else {
        HandleMenuLine(section, value);
      }
      return 0;
    }

    /** create_menu, linked after the current menu, which it then becomes. */
    method CreateMenu(name: string)
      requires Valid()
      requires Menus.GetMenu(menus, name).None?
      modifies this
      ensures Valid()
      ensures menus == old(menus) + [Menus.NewMenu(name)]
      ensures numMenus == old(numMenus) + 1
      ensures settings == old(settings) && controls == old(controls)
    {
      menus := menus + [Menus.NewMenu(name)];
      numMenus := numMenus + 1;
      menuCursor := menuCursor + 1;
    }

    /** add_gamepad_control: nothing for an empty command, else a new tail node. */
    method AddGamepadControl(kind: Gamepad.ControlType, index: nat, labelText: string, cmd: string)
      requires Valid()
      modifies this
      ensures Valid()
      ensures controls == Gamepad.AddControl(old(controls), kind, index, labelText, cmd)
      ensures settings == old(settings) && menus == old(menus)
    {
      if cmd == "" {
        return;
      }
      Gamepad.AddControlKeepsBound(controls, kind, index, labelText, cmd);
      controls := controls + [Gamepad.NewControl(kind, index, labelText, cmd)];
      controlCursor := controlCursor + 1;
    }

    /**
     * One line of a menu section: find the section's menu or create it, then
     * parse the value into an entry of the current menu.
     */
    method HandleMenuLine(section: string, value: string)
      requires Valid()
      requires Menus.SafeLine(menus, section, value)
      modifies this
      ensures Valid()
      ensures menus == Menus.MenuLine(old(menus), section, value)
      ensures settings == old(settings) && controls == old(controls)
    {
      FindOrCreateMenu(section);
      Menus.MenuLineAfterWithMenu(old(menus), section, value);
      Menus.SafeLineAfterWithMenu(old(menus), section, value);
      AddMenuEntry(section, value);
    }

    /** The menu scan of config_handler, and create_menu when the name is new. */
    method FindOrCreateMenu(section: string)
      requires Valid()
      modifies this
      ensures Valid()
      ensures menus == Menus.WithMenu(old(menus), section)
      ensures settings == old(settings) && controls == old(controls)
    {
      var k := 0;
      while k < |menus| && menus[k].name != section
        invariant 0 <= k <= |menus|
        invariant forall j :: 0 <= j < k ==> menus[j].name != section
      {
        k := k + 1;
      }
      if k == |menus| {
        CreateMenu(section);
        assert menus[|menus| - 1].name == section;
      }
    }

    /**
     * The entry part of a menu line: append a draft entry to the current menu
     * when the value has a token, fill it from up to three tokens, then roll
     * it back or commit it.
     */
    method AddMenuEntry(section: string, value: string)
      requires Valid()
      requires Menus.GetMenu(menus, section).Some?
      requires Menus.SafeLine(menus, section, value)
      modifies this
      ensures Valid()
      ensures menus == Menus.MenuLine(old(menus), section, value)
      ensures settings == old(settings) && controls == old(controls)
    {
      ghost var ms := menus;
      var ts := CStrings.Tokens(value);
      var m := menuCursor;
      var cur := menus[m];
      if ts != [] {
        cur := cur.(entries := cur.entries + [Menus.Entry("", "", "")]);
        entryCursor := |cur.entries| - 1;
      }
      var e, i := FillEntry(ts);
      if ts != [] {
        cur := cur.(entries := cur.entries[entryCursor := e]);
      }

      ghost var n0 := |ms[m].entries|;
      assert Menus.WithMenu(ms, section) == ms;
      Menus.EntryOfFields(value);
      if i != 3 || cur.entries[|cur.entries| - 1].cmd == Menus.SELECT_CMD {
        assert Menus.EntryOf(value).None?;
        if cur.numEntries == 0 {
          cur := cur.(entries := []);
          entryCursor := -1;
        } else {
          cur := cur.(entries := cur.entries[..|cur.entries| - 1]);
          entryCursor := entryCursor - 1;
        }
        assert cur == ms[m];
      } else {
        assert cur.entries[n0] == e;
        assert e == Menus.EntryOf(value).value;
        assert cur.entries == ms[m].entries + [e];
        cur := cur.(numEntries := cur.numEntries + 1);
        assert cur == Menus.AddEntry(ms[m], e);
      }
      menus := menus[m := cur];
      assert menus == Menus.MenuLine(ms, section, value);
      Menus.MenuLineKeepsCounts(ms, section, value);
      Menus.MenuLineKeepsNamesDistinct(ms, section, value);
      Menus.MenuLineKeepsEntriesComplete(ms, section, value);
    }
  }

  /** The draft entry after i of its fields have been copied from the tokens. */
  predicate DraftHolds(e: Menus.Entry, ts: seq<string>, i: nat)
    requires i <= |ts|
  {
    && (i > 0 ==> e.title == ts[0])
    && (i > 1 ==> e.iconPath == CStrings.CleanPath(ts[1]))
    && (i > 2 ==> e.cmd == ts[2])
  }

  /**
   * The token loop of config_handler: copy up to three tokens into the new
   * entry, the second one cleaned as a path. `i` ends at the number of
   * tokens copied.
   */
  method FillEntry(ts: seq<string>) returns (e: Menus.Entry, i: nat)
    requires forall k :: 0 <= k < |ts| ==> ts[k] != []
    ensures i == (if |ts| < 3 then |ts| else 3)
    ensures DraftHolds(e, ts, i)
  {
    e := Menus.Entry("", "", "");
    i := 0;
    while i < 3 && i < |ts|
      invariant i <= 3 && i <= |ts|
      invariant DraftHolds(e, ts, i)
    {
      var copy := CStrings.CopyString(ts[i]);
      if i == 0 {
        e := e.(title := copy.value);
      } else if i == 1 {
        e := e.(iconPath := CStrings.CleanPath(copy.value));
      } else {
        e := e.(cmd := copy.value);
      }
      i := i + 1;
    }
  }

}
