# flex-launcher: the utility core, modelled in Dafny

flex-launcher is a customizable application launcher for Linux and Windows. It
reads an INI-style config file. Its `src/util.c` holds two things:
- the handler the ini parser calls once per (section, key, value) line, which
  fills the launcher's config record, its linked lists of menus and entries,
  and its list of gamepad controls;
- the small C helpers that handler and the rest of the launcher rely on.

This project models that file:

| module | file | models |
|---|---|---|
| `Wrappers` | wrappers.dfy | `Option`, which stands for a pointer that may be NULL |
| `CNumbers` | cnumbers.dfy | the C library conversions the handler uses: `atoi`, `strtoul(…, 16)`, the unsigned casts to `Uint16` and `Uint32` |
| `CStrings` | cstrings.dfy | `copy_string`, `convert_bool`, `clean_path` (as a function on values and as an in-place method on a `char` array), the `strtok(value, ";")` split of menu lines, and `join_paths` (a loop proved against a specification of the joined text) |
| `Colors` | colors.dfy | `hex_to_color` |
| `Utf8` | utf8.dfy | `utf8_length` and `utf8_truncate` (in place, on a byte array) |
| `Shuffle` | shuffle.dfy | `random_array`, the Fisher–Yates shuffle, in place on an `array<int>` |
| `Arguments` | arguments.dfy | the command-line scan of `handle_arguments` |
| `Gamepad` | gamepad.dfy | the 25 binding keys of the Gamepad section and `add_gamepad_control` |
| `SettingsSection` | settings.dfy | every key of the Settings section and the scalar keys of the Gamepad section, with the validation each applies |
| `Menus` | menus.dfy | `get_menu`, `create_menu`, and what one menu line does to the menu list, stated on values |
| `ConfigHandler` | config.dfy | `config_handler` itself: a class whose fields are the config record and the three global cursors (`menu`, `entry`, `current_gamepad_control`); its methods update them step by step and are proved against the `Menus`, `Gamepad` and `SettingsSection` functions |

The config record keeps an invariant, `ConfigHandler.Config.Valid`, across
every line. It says:
- every menu's `num_entries` equals its number of entries;
- menu names are distinct;
- every committed entry has a title, an icon and a command, and the command
  is not `:select`;
- every gamepad control has a command;
- every validated setting lies in its bounds.

Two parameters stand in for parts of the program outside this file:
- The header's constants (`MIN_*`, `MAX_*`, `PERCENT_MAX_CHARS`, `DEFAULT_*`,
  `MAX_PATH_BYTES`) are parameters: `SettingsSection.Limits`, and
  `maxPathBytes` of `JoinPaths`.
- The values `rand()` returns are an input of `RandomArray`.

## Model

| member | source | states |
|---|---|---|
| CNumbers.ToUint16 | src/util.c:64-65 | the `(Uint16)` cast of an `atoi` result is below 2^16 and leaves values already in range unchanged |
| CNumbers.ToUint32 | src/util.c:40-41 | the `(unsigned int)` cast is below 2^32 and leaves values already in range unchanged |
| CNumbers.HexToUint32 | src/util.c:394 | `(Uint32) strtoul(text, NULL, 16)` is below 2^32 (its value on hex digits is `Colors.HexToUint32OfDigits`) |
| CNumbers.Atoi | src/util.c:82-93 | `atoi`: a negative result needs a minus sign after the leading white space, and a result other than 0 needs at least one digit |
| CNumbers.AtoiOfDigits | src/util.c:40-41 | `atoi` of a string of decimal digits is the value of those digits |
| CNumbers.AtoiOfDecimal | src/util.c:82-93 | `atoi` reads back the decimal text of any n, and of -n and +n |
| CStrings.CopyString | src/util.c:434-444 | the copy is NULL exactly when the source is empty, and is otherwise the source's text |
| CStrings.CopyStringRoundTrip | src/util.c:434-444 | reading a copy back gives the source, NULL reading as the empty string, and copying it again changes nothing |
| CStrings.ConvertBool | src/util.c:420-431 | "true" gives true and "false" gives false; a result other than the default comes only from the text of that boolean |
| CStrings.ConvertBoolSpec | src/util.c:420-431 | "true" and "false" read back as their booleans whatever the default; any other text gives the default; a result other than the default comes only from the opposite literal |
| CStrings.CleanPath | src/util.c:377-386 | the text changes exactly when it is at least 3 long and enclosed in '"', and then quoting the result gives the text back; any other text is kept; a non-empty text never cleans to "" |
| CStrings.CleanPathOfQuoted | src/util.c:377-386 | quoting a non-empty path and cleaning it gives the path back |
| CStrings.CleanPathStripsAtMostOnePair | src/util.c:377-386 | at most one enclosing pair of quotes is removed; text that is not enclosed, or is shorter than 3, is unchanged |
| CStrings.CleanPathInPlace | src/util.c:377-386 | on the buffer: an enclosed string moves one place left over the closing quote, leaving two terminators; the buffer then holds the cleaned text, NUL-terminated; any other buffer is unchanged |
| CStrings.FieldEnd | src/util.c:313 | the index of the first ';' (or the end): no ';' before it, a ';' at it |
| CStrings.Tokens | src/util.c:313-347 | every token `strtok(value, ";")` yields is non-empty and holds no ';' |
| CStrings.TokensOfJoinFields | src/util.c:313-347 | splitting fields joined with ';' gives the fields back, when they are non-empty and hold no ';' |
| CStrings.TokensSkipEmptyFields | src/util.c:313-347 | a leading ';' is skipped; there are no tokens exactly when the text is only ';' characters |
| CStrings.TokensEmpty | src/util.c:313-347 | there are no tokens exactly when every character is ';' |
| CStrings.Truncate | src/util.c:460-475 | the first n characters, as `strncpy`/`strncat` limited to n bytes copy them |
| CStrings.CopySegment | src/util.c:458-475 | one copy step keeps the earlier buffer as a prefix; when the segment fits, the characters added plus the bytes left equal the room, and when it does not the buffer is filled to exactly the room; the count goes down by the segment's full length |
| CStrings.PartialGrows | src/util.c:456-483 | the joined text of fewer segments is a prefix of the joined text of more |
| CStrings.JoinPaths | src/util.c:447-486 | the buffer is the joined text, in which every later segment loses one leading separator and '/' follows each non-last segment unless one is there, cut to MAX_PATH_BYTES - 1 characters |
| CStrings.JoinedTwo | src/util.c:447-486 | two paths join as the first, a '/' unless it already ends in a separator, then the second without its leading separator |
| CStrings.JoinedEndsWithLastSegment | src/util.c:477-481 | no separator is added after the last segment: the joined text ends with it |
| Colors.HexToColor | src/util.c:389-417 | the text is accepted exactly when it has 6 or 8 characters and `strtoul` gives a non-zero value; a rejected text leaves the colour unchanged; alpha is never written |
| Colors.HexToUint32OfDigits | src/util.c:394 | on 1 to 8 hex digits, `strtoul` in base 16 gives their value |
| Colors.SixDigitColor | src/util.c:408-412 | "RRGGBB" sets red, green and blue to the three digit pairs |
| Colors.EightDigitColor | src/util.c:402-406 | "RRGGBBAA" sets red, green and blue to the first three digit pairs; the fourth pair is ignored |
| Colors.AcceptedIffNonzeroDigit | src/util.c:393-399 | a 6- or 8-digit hex text is accepted exactly when some digit is not '0' |
| Colors.AllZeroLiteralsRejected | src/util.c:392-398 | "000000" and "00000000" are rejected and leave the colour unchanged |
| Colors.HexValueZero | src/util.c:394-397 | hex digits have value 0 exactly when they are all '0' |
| Utf8.SequenceLengthClasses | src/util.c:510-525 | a lead byte gives no step for a continuation byte or 11111xxx, and one byte exactly for ASCII |
| Utf8.Utf8Length | src/util.c:506-530 | the character count is at most the byte count, and is 0 exactly for the empty string |
| Utf8.AsciiLength | src/util.c:506-530 | a text of ASCII bytes has as many characters as bytes |
| Utf8.Utf8LengthCountsLeads | src/util.c:506-530 | the count `utf8_length` computes by stepping over characters equals the number of bytes that are not continuation bytes |
| Utf8.AppendLength | src/util.c:506-530 | the length of a concatenation is the sum of the lengths |
| Utf8.LastCharacter | src/util.c:543-554 | the last character starts at a byte that is not a continuation byte, only continuation bytes follow it, and it is one byte long exactly when that byte is ASCII |
| Utf8.DropLast | src/util.c:543-554 | removing the last character leaves a well-formed text one character shorter |
| Utf8.CutFacts | src/util.c:543-554 | after stepping back over k characters from the end, what remains before the cut is well formed and k characters shorter |
| Utf8.StepBack | src/util.c:544-553 | from the cut after c characters, one pass of the walk back reaches the cut after c + 1: the nearest earlier byte that is not a continuation, and the byte just before exactly when that is ASCII |
| Utf8.StepOver | src/util.c:544-553 | one pass of the do-while loop moves the pointer from the cut after c characters to the cut after c + 1 |
| Utf8.WalkBack | src/util.c:539-554 | the walk back stops at the cut after `spaces` characters (at least one, as a do-while loop) |
| Utf8.CDiv | src/util.c:536-537 | C's truncating `/`: the magnitude q of the quotient is the largest with q * abs(b) <= abs(a), and the quotient is negative only when exactly one operand is |
| Utf8.Utf8Truncate | src/util.c:533-563 | when more than two bytes lie after the cut, they are overwritten by "..." and a terminator; otherwise the buffer is unchanged |
| Utf8.WriteEllipsis | src/util.c:557-562 | the four byte writes replace a four-byte window with "...\0" |
| Utf8.TruncatedText | src/util.c:557-562 | the text kept before the ellipsis plus the three dots is well formed, with the original length - k + 3 characters |
| Shuffle.Iota | src/util.c:567-570 | the first loop leaves slot i holding i |
| Shuffle.Swap | src/util.c:578-580 | the two slots exchange their values and every other slot keeps its value |
| Shuffle.Partner | src/util.c:577 | the slot pass i swaps with lies in [i, n) |
| Shuffle.SwapPermutes | src/util.c:578-580 | a swap permutes the array |
| Shuffle.ShufflePermutes | src/util.c:576-581 | the passes of the shuffle together permute the array |
| Shuffle.RandomArray | src/util.c:565-582 | the array ends as the identity with the swaps the given rand() results choose |
| Shuffle.ShuffledIsPermutation | src/util.c:565-582 | whatever rand() returns, the result is a permutation of 0 .. n - 1: each index appears exactly once and every value is an index |
| Shuffle.IotaCounts | src/util.c:567-570 | each index 0 .. n - 1 appears exactly once in the filled array |
| Shuffle.IotaRange | src/util.c:567-570 | the filled array holds only indices 0 .. n - 1 |
| Shuffle.ShortArrayUnshuffled | src/util.c:576 | arrays of 0 or 1 element are left as filled |
| Arguments.FirstRejected | src/util.c:593-616 | the scan stops at the first argument that is neither a flag nor the argument after -c/--config, or runs to the end |
| Arguments.ScanArguments | src/util.c:589-634 | the scan stops at the first rejected argument with ERROR_QUIT; otherwise: NO_ERROR_QUIT if -v or -h was seen and there is no path; NO_ERROR if there is a path; else it goes on to search for a config file; debug is set by any -d before the stop |
| Arguments.SeenStep | src/util.c:602-610 | each argument adds its own -d, -h or -v to what was seen before it |
| Arguments.PathIsFirstMarked | src/util.c:596-598 | with no path on entry, a path is set exactly when some non-empty argument follows -c/--config, and it is the first such |
| Arguments.CallerPathKept | src/util.c:596 | a path set before the scan is never replaced |
| Arguments.RejectedStops | src/util.c:611-615 | the first rejected argument is where the scan stops |
| Arguments.ConfigOnly | src/util.c:596-601 | "prog -c file.ini" takes "file.ini" as the path and runs to the end |
| Arguments.UnknownOption | src/util.c:611-615 | "prog -x" stops at "-x" |
| Gamepad.BindingRoundTrip | src/util.c:207-281 | each binding key's (type, index) pair maps back to that key |
| Gamepad.BindingsDistinct | src/util.c:207-281 | no two binding keys bind the same (type, index) pair |
| Gamepad.BindingOf | src/util.c:207-281 | axis bindings use the six SDL axes and button bindings the fifteen SDL buttons; only stick axes are bound in the negative direction |
| Gamepad.NewControl | src/util.c:679-685 | the node has the given type and index and repeat 0; its label and command read back as the given texts, and each is NULL exactly when its text is empty |
| Gamepad.AddControl | src/util.c:663-688 | an empty command adds nothing; otherwise the list gains exactly one node at its tail, the nodes before it are unchanged, and the new node is `NewControl` of the arguments: the type, the index, repeat 0, and copies of label and command |
| Gamepad.AddControlKeepsBound | src/util.c:663-688 | every node holds a command and a repeat of 0, and a new node holds the given command |
| SettingsSection.PositiveOrZeroNotNegative | src/util.c:99-100 | a value accepted as "positive or the literal 0" is never negative |
| SettingsSection.PaddingValue | src/util.c:105-116 | a padding is stored exactly when its `atoi` value is positive or the text is "0", and the stored value is not negative |
| SettingsSection.PathValue | src/util.c:32-35 | the stored path is never NULL or empty, and is the value itself unless the value is that path enclosed in one pair of quotes |
| SettingsSection.BackgroundModeOf | src/util.c:46-56 | "Image" and "Slideshow" select their modes exactly; anything else selects a plain colour |
| SettingsSection.OversizeModeOf | src/util.c:163-171 | "Shrink" and "None" select their modes exactly; no word selects truncation |
| SettingsSection.OnLaunchOf | src/util.c:172-183 | "None" and "Blank" select their actions exactly; anything else hides the launcher |
| SettingsSection.ApplySetting | src/util.c:31-190 | no key of the Settings section writes a Gamepad field or the alpha of a colour; the rule of each key is stated by the group lemmas below, its bounds by `ApplySettingKeepsBounds` |
| SettingsSection.ApplyGamepadSetting | src/util.c:193-206 | a scalar Gamepad key changes only the three Gamepad fields, and a device index is stored only when it is not negative |
| SettingsSection.NumericKeysChecked | src/util.c:40-130 | the font size takes the `Uint32` cast of `atoi`; icon size and corner radius take the `Uint16` cast and the slideshow times the `Uint32` cast, each stored only inside its MIN..MAX range; max buttons is stored only when positive, title padding only when not negative; a refused value changes nothing, a stored one no other field |
| SettingsSection.PaddingKeysChecked | src/util.c:94-116 | each highlight padding is stored exactly when its value is positive or the literal "0", so never negative; icon spacing stores a value with '%' and fewer than 6 characters as a percentage, else a positive-or-"0" number, and ignores anything else |
| SettingsSection.ApplySettingKeepsBounds | src/util.c:31-190 | no key of the Settings section can store a value outside the bounds its validation enforces |
| SettingsSection.ApplyGamepadSettingKeepsBounds | src/util.c:193-206 | the scalar Gamepad keys keep those bounds too; the device index is never negative |
| SettingsSection.PaddingExamples | src/util.c:105-116 | "0" is stored; "-3", "abc" and "00" leave the setting unchanged |
| SettingsSection.AtoiExamples | src/util.c:106 | `atoi` gives 0 for "0", "abc" and "00", and -3 for "-3" |
| SettingsSection.PercentKeysChecked | src/util.c:131-162 | each of the three opacities is stored exactly when it has '%', no '.', and fits PERCENT_MAX_CHARS; the button centerline only has to fit; nothing else changes |
| SettingsSection.ModeKeys | src/util.c:46-183 | background mode and on_launch always write the mode their word selects, so unknown words select colour mode and hiding; the oversize mode changes only for "Shrink" and "None" and otherwise the settings are unchanged |
| SettingsSection.BooleanKeys | src/util.c:150-196 | scroll indicators, reset on back, esc quit and gamepad enabled store true for "true", false for "false", and their DEFAULT_* otherwise, and change no other field |
| SettingsSection.ColorKeys | src/util.c:43-155 | for the title, background, highlight and scroll-indicator colours: only the key's own colour changes, its alpha never does, and a rejected colour text leaves the settings unchanged |
| SettingsSection.PathKeys | src/util.c:32-206 | the background image, title font, slideshow directory and gamepad mappings file store the cleaned copy of their value and change no other field |
| SettingsSection.SettingsIgnoresForeignKeys | src/util.c:31-190 | a Gamepad-section key or an unrecognised key in the Settings section changes nothing |
| SettingsSection.GamepadIgnoresOtherKeys | src/util.c:193-206 | any key other than the three scalar Gamepad keys leaves the settings unchanged there |
| Menus.GetMenu | src/util.c:726-734 | the index of the first menu with the name, or none exactly when no menu has it |
| Menus.GetMenuFrom | src/util.c:728-733 | the search from menu i finds the first match at or after i, or none exactly when there is none |
| Menus.NewMenu | src/util.c:737-751 | a created menu is found under its name, has no entries and a count of 0, and so meets every menu invariant: matching count, distinct names, complete entries |
| Menus.AddEntry | src/util.c:362-370 | the entry lands at the tail after the existing entries, and a count that matched the entries still matches |
| Menus.WithMenu | src/util.c:288-308 | after the menu scan some menu has the section's name; the old menus are kept in order and one is added exactly when none had that name |
| Menus.EntryOf | src/util.c:313-351 | an accepted entry is complete (non-empty title, icon path and command, not ":select"), and its title and command hold no ';' |
| Menus.MenuLine | src/util.c:284-371 | after one menu line the section's menu exists, at most one menu was added, and the old menus keep their names; where the entry goes is `EntryGoesToLastMenu` |
| Menus.EntryOfFields | src/util.c:313-351 | a line becomes an entry exactly when it has at least three tokens and the third is not ":select"; the entry is the title, the cleaned icon path and the command |
| Menus.EntryRoundTrip | src/util.c:313-351 | an entry written as "title;icon;command" (with any further fields) reads back as that entry |
| Menus.SelectLineIsNoEntry | src/util.c:351 | a ":select" line and a line of two fields make no entry |
| Menus.MenuCreatedIffNew | src/util.c:288-308 | a menu is created exactly when none has the section's name; it is appended, named after the section, and holds at most the line's entry |
| Menus.EntryGoesToLastMenu | src/util.c:284-371 | only the last menu changes: an accepted line appends its entry and adds one to its count; any other line leaves all menus as they were |
| Menus.ReopenedSectionFeedsLastMenu | src/util.c:293-308 | when a section re-opens an earlier menu, that menu is untouched and the entry goes to the last menu |
| Menus.MenuLineAfterWithMenu | src/util.c:288-308 | once the section's menu exists, the scan creates no other |
| Menus.SafeLineAfterWithMenu | src/util.c:288-308 | a line that is safe stays safe after its menu is created, since a new menu has no entries |
| Menus.MenuLineKeepsCounts | src/util.c:349-370 | each menu's count keeps equal to its number of entries |
| Menus.MenuLineKeepsNamesDistinct | src/util.c:288-308 | menu names stay distinct |
| Menus.MenuLineKeepsEntriesComplete | src/util.c:349-370 | no line commits an incomplete or ":select" entry |
| Menus.FirstGamesLine | src/util.c:284-371 | the first line `Steam;"steam.png";steam` of section Games creates the menu Games with that one entry, its icon path unquoted |
| Menus.SteamLineEntry | src/util.c:313-351 | the line `Steam;"steam.png";steam` yields the entry (Steam, steam.png, steam) |
| Menus.UnquotedIcon | src/util.c:377-386 | `"steam.png"` cleans to steam.png |
| ConfigHandler.Config.constructor | src/util.c:21-23 | the record starts with the defaults, no menus, no controls and the cursors unset |
| ConfigHandler.Config.Handle | src/util.c:26-373 | one line: the Settings section writes the settings as `ApplySetting` says; the Gamepad section writes its scalar keys, or adds a control for a binding key; any other section updates the menus as `MenuLine` says; nothing else changes, the record stays valid, and 0 is returned |
| ConfigHandler.Config.CreateMenu | src/util.c:737-751 | a new empty menu is linked after the last one and becomes current; `num_menus` goes up by one |
| ConfigHandler.Config.AddGamepadControl | src/util.c:663-688 | the controls become `AddControl` of the old list; the record stays valid |
| ConfigHandler.Config.HandleMenuLine | src/util.c:284-371 | the menus become `MenuLine` of the old menus; settings and controls are unchanged |
| ConfigHandler.Config.FindOrCreateMenu | src/util.c:288-308 | the loop finds the section's menu or creates it: the menus become `WithMenu` of the old ones |
| ConfigHandler.Config.AddMenuEntry | src/util.c:310-370 | the draft entry is appended, filled, then rolled back or committed: the menus become `MenuLine` of the old ones, and counts, distinct names and complete entries are kept |
| ConfigHandler.FillEntry | src/util.c:335-348 | the token loop copies min(3, number of tokens) fields: the title, the cleaned icon path and the command |

## Left out

- `find_file` (src/util.c:489-503) and the search for a default config file at the end of `handle_arguments` (src/util.c:636-659): both only probe the file system. `ScanArguments` returns `SearchConfig` where that search would begin.
- `print_usage`, `print_version` and the "Unrecognized option" message: output only.
- `convert_percent` (src/util.c:714-723): it works in floating point (`atof`, a float product), which the model does not represent.
- `srand(time(NULL))` and `rand()`: the clock and the generator are replaced by the `rolls` input of `RandomArray`.
- The ini parser that calls `config_handler` is not part of this model. It is also what reports the handler's return value.
- Key names arrive already compared with the `SETTING_*` strings, as `SettingsSection.Key`. The header constants are the `Limits` parameter and the `maxPathBytes` parameter.
- The SDL axis and button numbers are the values of SDL2's enumerations, written as constants.
- `malloc` and `free`: allocation is not modelled, and neither is its failure. A copied string is the same value as its source. Strings freed or leaked on a rolled-back entry are not tracked.
- The `previous` and `next` links of entries, menus and controls are implicit in the order of a sequence. The UI fields `create_menu` zeroes (`back`, `root_entry`, `page`, `highlight_position`, `rendered`) and the entry's `title_offset` are not modelled.
- `on_launch` is modelled for the unix build, where src/util.c:172-183 is compiled. The Windows build ignores the key.
- `ConfigHandler.Config.Handle`: a path key with an empty value is excluded by its requires. `copy_string` stores NULL for "" and `clean_path` would then read it.
- `ConfigHandler.Config.Handle`: a menu section named "" is excluded by its requires. `create_menu` would store a NULL name, and the next menu scan would compare it.
- `ConfigHandler.Config.Handle`: a menu line with no token, for a menu that already has entries, is excluded by `Menus.SafeLine`. The rollback would then use an unset `previous_entry`.
- `ConfigHandler.Config.AddGamepadControl`: `add_gamepad_control` writes the global `config` and `current_gamepad_control` (src/util.c:23, 670-678), not the handler's `pconfig`. The model updates the same record as `Handle`, so it assumes the ini parser's `user` argument is `&config`.
- `ConfigHandler.Config.constructor`: it requires the default settings to lie within the bounds the handler enforces (`InBounds(defaults, lim)`). The defaults come from the header constants, which are not part of this model.
- `ConfigHandler.Config.AddMenuEntry`: the draft entry is built as a value and stored once, instead of being filled field by field in the list.
- The `entry` cursor of the C code is left pointing into the previous menu when a new menu is created. The model keeps it in a field but states nothing about it then; it is reset when the new menu gets its first entry, as in the source.
- `Colors.HexToColor` rejects "000000" and "00000000" (black), as the source does. The source's comment suggests those two literals were meant to be accepted, but the condition rejects every all-zero text; the model follows the code.
- `CNumbers.HexToUint32`: its own contract states only the range of the cast. Its value on a text of hex digits is stated by `Colors.HexToUint32OfDigits`.
- `CNumbers.Atoi`: the result is the exact integer. `atoi` on text beyond the range of `int` is undefined in C and is not modelled.
- `CStrings.JoinPaths`: the first path must not be empty when another follows. Otherwise the separator check would read the byte before the buffer.
- `Utf8.Utf8Length` is modelled for well-formed text only: nonzero bytes, each lead byte followed by its continuation bytes. On a stray continuation byte or a 11111xxx byte the C loop never advances.
- `Utf8.Utf8Truncate`: the character count and the average width must not be zero, because the C code divides by both. The walk back must not pass the start of the string. The division is C's truncating division (`Utf8.CDiv`).
- `Shuffle.RandomArray`: the array length is the `array_size` argument. A shorter `array_size` is not modelled.
- `debug.c`, `launcher.c` and the other source files are not part of this model.
