/**
 * The menu sections of the config file: any section other than Settings and
 * Gamepad names a menu, and each of its lines is "title;icon;command". This
 * module states on values what the handler does to the menu list; the
 * config record in ConfigHandler carries it out step by step.
 */
module Menus {
  import opened Wrappers
  import CStrings

  /** One launcher entry. Each field is a copy of a non-empty token. */
  datatype Entry = Entry(title: string, iconPath: string, cmd: string)

  /**
   * A menu: its name, its entries in file order (each entry's `previous`
   * link is the one before it), and num_entries, the committed count.
   */
  datatype Menu = Menu(name: string, entries: seq<Entry>, numEntries: nat)

  /** The command that marks a line as a submenu selector, not an entry. */
  const SELECT_CMD: string := ":select"

  /** The index of the first menu called `name`, or None: get_menu. */
  function GetMenu(menus: seq<Menu>, name: string): (r: Option<nat>)
    ensures r.Some? ==> r.value < |menus| && menus[r.value].name == name
    ensures r.Some? ==> forall k :: 0 <= k < r.value ==> menus[k].name != name
    ensures r.None? <==> forall k :: 0 <= k < |menus| ==> menus[k].name != name
  {
    GetMenuFrom(menus, name, 0)
  }

  function GetMenuFrom(menus: seq<Menu>, name: string, i: nat): (r: Option<nat>)
    requires i <= |menus|
    ensures r.Some? ==> i <= r.value < |menus| && menus[r.value].name == name
    ensures r.Some? ==> forall k :: i <= k < r.value ==> menus[k].name != name
    ensures r.None? <==> forall k :: i <= k < |menus| ==> menus[k].name != name
    decreases |menus| - i
  {
    if i == |menus| then None
    else if menus[i].name == name then Some(i)
    else GetMenuFrom(menus, name, i + 1)
  }

  /**
   * What create_menu returns: a menu found under its name, with no entries
   * and a count of zero, so every menu invariant below holds for it.
   */
  function NewMenu(name: string): (m: Menu)
    ensures m.name == name && m.entries == [] && m.numEntries == 0
    ensures GetMenu([m], name) == Some(0)
    ensures Counted([m]) && DistinctNames([m]) && EntriesComplete([m])
  {
    Menu(name, [], 0)
  }

  /**
   * The entry a line's value yields: the first three tokens of the value split
   * on ';', the icon path cleaned, and only when the command is not ":select".
   */
  function EntryOf(value: string): (r: Option<Entry>)
    ensures r.Some? ==> EntryComplete(r.value)
    ensures r.Some? ==> ';' !in r.value.title && ';' !in r.value.cmd
  {
    var ts := CStrings.Tokens(value);
    if |ts| >= 3 && ts[2] != SELECT_CMD then Some(Entry(ts[0], CStrings.CleanPath(ts[1]), ts[2]))
    else None
  }

  /**
   * A committed entry appended at the tail: the entries before it stay, and
   * a count that matched the entries still matches.
   */
  function AddEntry(m: Menu, e: Entry): (r: Menu)
    ensures r.name == m.name && r.entries == m.entries + [e] && r.numEntries == m.numEntries + 1
    ensures |r.entries| == |m.entries| + 1 && r.entries[|m.entries|] == e
    ensures m.numEntries == |m.entries| ==> r.numEntries == |r.entries|
  {
    m.(entries := m.entries + [e], numEntries := m.numEntries + 1)
  }

  /** The menu list once the section's menu exists: a new one is created after the last. */
  function WithMenu(menus: seq<Menu>, section: string): (r: seq<Menu>)
    ensures r != [] && |menus| <= |r| <= |menus| + 1 && r[..|menus|] == menus
    ensures |r| == |menus| + 1 <==> GetMenu(menus, section).None?
    ensures GetMenu(r, section).Some?
  {
    if GetMenu(menus, section).None? then
      var r := menus + [NewMenu(section)];
      assert r[|menus|].name == section;
      r
    else menus
  }

  /**
   * One line of a menu section. The menu list gains the section's menu if no
   * menu has that name; the entry, if the line makes one, then goes to the
   * last menu, which is the current one whether or not it is the section's.
   */
  function MenuLine(menus: seq<Menu>, section: string, value: string): (r: seq<Menu>)
    ensures |menus| <= |r| <= |menus| + 1
    ensures forall k :: 0 <= k < |menus| ==> r[k].name == menus[k].name
    ensures GetMenu(r, section).Some?
  {
    var ms := WithMenu(menus, section);
    match EntryOf(value)
    case None => ms
    case Some(e) =>
      var r := ms[|ms| - 1 := AddEntry(ms[|ms| - 1], e)];
      assert forall k :: 0 <= k < |r| ==> r[k].name == ms[k].name;
      assert r[GetMenu(ms, section).value].name == section;
      r
  }

  /**
   * The line can be handled without touching freed or unset memory: it has a
   * token, or the menu that receives it has no entries yet.
   */
  predicate SafeLine(menus: seq<Menu>, section: string, value: string) {
    CStrings.Tokens(value) != [] || GetMenu(menus, section).None? || menus[|menus| - 1].numEntries == 0
  }

  /** Every menu's count equals its number of entries. */
  predicate Counted(menus: seq<Menu>) {
    forall k :: 0 <= k < |menus| ==> menus[k].numEntries == |menus[k].entries|
  }

  /** No two menus share a name. */
  predicate DistinctNames(menus: seq<Menu>) {
    forall i, j :: 0 <= i < j < |menus| ==> menus[i].name != menus[j].name
  }

  /** An entry with its three fields that is not a ":select" line. */
  predicate EntryComplete(e: Entry) {
    e.title != [] && e.iconPath != [] && e.cmd != [] && e.cmd != SELECT_CMD
  }

  /** Every committed entry is complete. */
  predicate EntriesComplete(menus: seq<Menu>) {
    forall k, j :: 0 <= k < |menus| && 0 <= j < |menus[k].entries| ==> EntryComplete(menus[k].entries[j])
  }

  /**
   * A line becomes an entry exactly when it has at least three tokens and the
   * third is not ":select"; the entry holds the first three, further tokens
   * are ignored.
   */
  lemma EntryOfFields(value: string)
    ensures var ts := CStrings.Tokens(value);
      && (EntryOf(value).Some? <==> |ts| >= 3 && ts[2] != SELECT_CMD)
      && (EntryOf(value).Some? ==> EntryOf(value).value == Entry(ts[0], CStrings.CleanPath(ts[1]), ts[2]))
  {
  }

  /**
   * Writing an entry out as "title;icon;command" and reading the line back
   * gives the entry, whatever fields follow the third.
   */
  lemma EntryRoundTrip(fields: seq<string>)
    requires |fields| >= 3
    requires forall i :: 0 <= i < |fields| ==> fields[i] != [] && ';' !in fields[i]
    requires fields[2] != SELECT_CMD
    ensures EntryOf(CStrings.JoinFields(fields)) == Some(Entry(fields[0], CStrings.CleanPath(fields[1]), fields[2]))
  {
    CStrings.TokensOfJoinFields(fields);
  }

  /** A ":select" line, or one with fewer than three fields, is no entry. */
  lemma SelectLineIsNoEntry(title: string, icon: string)
    requires title != [] && icon != [] && ';' !in title && ';' !in icon
    ensures EntryOf(CStrings.JoinFields([title, icon, SELECT_CMD])) == None
    ensures EntryOf(CStrings.JoinFields([title, icon])) == None
  {
    CStrings.TokensOfJoinFields([title, icon, SELECT_CMD]);
    CStrings.TokensOfJoinFields([title, icon]);
  }

  /**
   * A menu is created exactly when no menu has the section's name; it is
   * appended after the others, named after the section and empty, and the
   * menus before it keep their names.
   */
  lemma MenuCreatedIffNew(menus: seq<Menu>, section: string, value: string)
    ensures var r := MenuLine(menus, section, value);
      && |r| == |menus| + (if GetMenu(menus, section).None? then 1 else 0)
      && (forall k :: 0 <= k < |menus| ==> r[k].name == menus[k].name)
      && (GetMenu(menus, section).None? ==>
            && r[|menus|].name == section
            && r[|menus|].entries == (match EntryOf(value) case Some(e) => [e] case None => []))
  {
  }

  /**
   * Only the last menu changes: an accepted line appends its entry there and
   * adds one to its count; any other line leaves every entry list and count
   * as it was.
   */
  lemma EntryGoesToLastMenu(menus: seq<Menu>, section: string, value: string)
    ensures var ms := WithMenu(menus, section);
      var r := MenuLine(menus, section, value);
      && |r| == |ms|
      && (forall k :: 0 <= k < |ms| - 1 ==> r[k] == ms[k])
      && (EntryOf(value).Some? ==>
            r[|ms| - 1].entries == ms[|ms| - 1].entries + [EntryOf(value).value]
            && r[|ms| - 1].numEntries == ms[|ms| - 1].numEntries + 1)
      && (EntryOf(value).None? ==> r == ms)
  {
  }

  /**
   * The re-opened section: when the section names a menu that is not the
   * last one, that menu is left alone and the entry goes to the last menu.
   */
  lemma ReopenedSectionFeedsLastMenu(menus: seq<Menu>, section: string, value: string, k: nat)
    requires k < |menus| - 1 && menus[k].name == section
    requires EntryOf(value).Some?
    ensures var r := MenuLine(menus, section, value);
      && |r| == |menus|
      && r[k] == menus[k]
      && r[|menus| - 1].entries == menus[|menus| - 1].entries + [EntryOf(value).value]
  {
    assert GetMenu(menus, section).Some?;
  }

  /** Once the section's menu exists, handling the line creates no other. */
  lemma MenuLineAfterWithMenu(menus: seq<Menu>, section: string, value: string)
    ensures MenuLine(WithMenu(menus, section), section, value) == MenuLine(menus, section, value)
  {
    var ms := WithMenu(menus, section);
    assert ms[|ms| - 1].name == section || GetMenu(menus, section).Some?;
    assert GetMenu(ms, section).Some?;
  }

  /**
   * A safe line stays safe once its menu exists: a menu it creates has no
   * entries.
   */
  lemma SafeLineAfterWithMenu(menus: seq<Menu>, section: string, value: string)
    requires SafeLine(menus, section, value)
    ensures GetMenu(WithMenu(menus, section), section).Some?
    ensures SafeLine(WithMenu(menus, section), section, value)
  {
    var ms := WithMenu(menus, section);
    assert ms[|ms| - 1].name == section || GetMenu(menus, section).Some?;
  }

  /** Counts keep matching entry lists. */
  lemma MenuLineKeepsCounts(menus: seq<Menu>, section: string, value: string)
    requires Counted(menus)
    ensures Counted(MenuLine(menus, section, value))
  {
  }

  /** Names stay distinct, since a name is added only when it is missing. */
  lemma MenuLineKeepsNamesDistinct(menus: seq<Menu>, section: string, value: string)
    requires DistinctNames(menus)
    ensures DistinctNames(MenuLine(menus, section, value))
  {
    var ms := WithMenu(menus, section);
    var r := MenuLine(menus, section, value);
    assert forall k :: 0 <= k < |r| ==> r[k].name == ms[k].name;
  }

  /** No line can commit an incomplete or ":select" entry. */
  lemma MenuLineKeepsEntriesComplete(menus: seq<Menu>, section: string, value: string)
    requires EntriesComplete(menus)
    ensures EntriesComplete(MenuLine(menus, section, value))
  {
    var ms := WithMenu(menus, section);
    assert EntriesComplete(ms) by {
      forall k, j | 0 <= k < |ms| && 0 <= j < |ms[k].entries|
        ensures EntryComplete(ms[k].entries[j])
      {
        assert k < |menus|;
      }
    }
    match EntryOf(value)
    case None =>
    case Some(e) =>
      var last := |ms| - 1;
      var r := ms[last := AddEntry(ms[last], e)];
      assert MenuLine(menus, section, value) == r;
      forall k, j | 0 <= k < |r| && 0 <= j < |r[k].entries|
        ensures EntryComplete(r[k].entries[j])
      {
        if k != last || j < |ms[last].entries| {
          assert r[k].entries[j] == ms[k].entries[j];
        }
      }
  }

  /** A file's first menu line: "Games" with one Steam entry. */
  lemma FirstGamesLine()
    ensures MenuLine([], "Games", "Steam;\"steam.png\";steam") ==
      [Menu("Games", [Entry("Steam", "steam.png", "steam")], 1)]
  {
    var e := Entry("Steam", "steam.png", "steam");
    SteamLineEntry();
    var ms := WithMenu([], "Games");
    assert ms == [NewMenu("Games")];
    var m := AddEntry(NewMenu("Games"), e);
    assert m == Menu("Games", [e], 1);
  }

  lemma SteamLineEntry()
    ensures EntryOf("Steam;\"steam.png\";steam") == Some(Entry("Steam", "steam.png", "steam"))
  {
    var title, icon, cmd := "Steam", "\"steam.png\"", "steam";
    assert CStrings.JoinFields([icon, cmd]) == icon + ";" + cmd by {
      assert [icon, cmd][1..] == [cmd];
    }
    assert CStrings.JoinFields([title, icon, cmd]) == title + ";" + (icon + ";" + cmd) by {
      assert [title, icon, cmd][1..] == [icon, cmd];
    }
    assert title + ";" + (icon + ";" + cmd) == "Steam;\"steam.png\";steam";
    EntryRoundTrip([title, icon, cmd]);
    UnquotedIcon();
  }

  lemma UnquotedIcon()
    ensures CStrings.CleanPath("\"steam.png\"") == "steam.png"
  {
    CStrings.CleanPathOfQuoted("steam.png");
    assert "\"steam.png\"" == ['"'] + "steam.png" + ['"'];
  }
}
