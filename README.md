# hashcat-gui core in Dafny

hashcat-gui is a Qt front-end for the hashcat password cracker. The user fills in a form and
the main window turns it into hashcat's command line. The window also keeps the form's
widgets consistent with the chosen attack mode and manages an ordered list of wordlists.
A separate serializer saves the state of every child widget of the window as a JSON
profile and restores it later.

This project models that core and proves properties of the model:

- `qt_core.dfy` (module `QtCore`): the Qt behaviour the core relies on.
  - `QString::number` on naturals and integers.
  - `QString::replace`, case-sensitive and case-insensitive.
  - `QFileInfo::fileName`.
  - The list item with its text and check state.
- `attack_modes.dfy` (module `AttackModes`):
  - the attack-mode table built in `init_hash_and_attack_modes`;
  - `QMap::key` as used to read the mode back from the combo box's text;
  - the switch in `update_view_attack_mode` that enables the form's group boxes.
- `arguments.dfy` (module `ArgumentGeneration`): `generate_arguments` as a function of
  the form.
  - The `Form` datatype holds the value of every widget the function reads and the enabled
    flag of every group box.
  - The function assembles the header, then each block of options, then the positional
    tail.
- `argument_properties.dfy` (module `ArgumentProperties`): what the command line
  contains, where each part appears, and which parts of the form it ignores.
- `wordlist.dfy` (module `Wordlist`): the wordlist list widget.
  - Adding folders and files with the duplicate check.
  - The up and down buttons, built from `takeItem`, `insertItem` and `setCurrentRow`.
- `main_window.dfy` (module `MainWindowModel`): the class `MainWindow`.
  - It holds the form, the list's current row and the hash-mode table.
  - Its methods change that state in place, appending the command line block by block
    and scanning the list row by row.
  - Each method is proved against the functions above.
- `json_values.dfy` (module `JsonValues`): JSON values and the `QJsonValue` conversions
  (`toBool`, `toInt`, `toString`, `toArray`, `toObject`).
- `widget_state.dfy` (module `WidgetState`): the serializer's specification.
  - The window's children are a sequence of named widgets in `findChildren` order.
  - It defines the object `widgetToJson` builds and the state `jsonToWidget` restores.
  - It defines the profile file's root object and the outcome of loading a file.
- `widget_state_serializer.dfy` (module `WidgetStateSerializer`): the serializer's
  imperative form.
  - `widgetToJson` and `jsonToWidget` are loops over the widget kinds and over the
    children.
  - `saveStateToFile` and `loadStateFromFile` are methods whose results are proved equal
    to the specification.

What the code does, and the model with it:

- The device flag is `--gpu-devices`.
- The tuning flags `--gpu-async`, `--gpu-accel`, `--gpu-loops` and `--gpu-watchdog` are
  generated when set.
- Rules (`--rules-file`, `--generate-rules`) are emitted in Straight mode (0) only.
- In Brute-force mode the mask follows the hash file.
- Association mode (9) enables no group box. Its command line therefore carries no
  wordlists, rules, charsets or mask (`ArgumentProperties.AssociationIgnoresAllGroups`).
- The Permutation mode (4) case exists in both switches, but 4 is not in the attack-mode
  table, so the mode cannot be selected (`AttackModes.AttackModeIdSelectable`). The case is
  modelled anyway.
- `jsonToWidget` restores the text of `lineEdit_command` when a profile names it.
  `widgetToJson` never writes it.

Qt behaviour assumed by the model:

- The attack mode is `QMap::key` of the combo box's text: the first key in ascending order
  whose label is that text, or 0 when no label matches. A `QMap` keeps its keys in
  ascending order, so the tables are sequences in that order.
- `takeItem` of a row outside the list gives a null item.
- `insertItem` of a null item does nothing, and `insertItem` clamps its row into the list.
- `setCurrentRow` outside the list leaves no current row (-1).
- So pressing "down" with no current row on a non-empty list selects row 0 and moves
  nothing.
- The `QListWidgetItem` constructor with a parent list appends the item. The following
  `addItem` of the same item does nothing, so each new wordlist is appended exactly once.
- A null `QString` compares equal to the empty string.
- `QJsonValue::toInt` gives 0 for anything that is not an integral number in the 32-bit
  range.
- `setCurrentIndex` outside the items selects nothing (-1).
- `QSpinBox::setValue` clamps into the spin box's range.

## Model

| member | source | states |
|---|---|---|
| QtCore.NatToString | src/mainwindow.cpp:462-463 | `QString::number` gives a non-empty string of decimal digits whose value is the number, with no leading zero |
| QtCore.IntToString | src/mainwindow.cpp:546-548 | `QString::number` of an int: a minus sign exactly for negatives, followed by the digits of the magnitude |
| QtCore.NatToStringInjective | src/mainwindow.cpp:462-463 | distinct hash types or attack modes give distinct numbers on the command line |
| QtCore.FoldCase | src/mainwindow.cpp:542 | case folding for `Qt::CaseInsensitive` changes a character only when it is an upper-case letter, and then to a lower-case one |
| QtCore.ReplaceAllWithoutOccurrence | src/mainwindow.cpp:541-542 | `replace` leaves a text without an occurrence of the pattern unchanged |
| QtCore.FirstCharacterAbsent | src/mainwindow.cpp:541-542 | a pattern cannot occur in a text that lacks its first character when that character is not a letter, in either case mode |
| QtCore.ReplaceAll | src/mainwindow.cpp:541-542 | `replace` puts the replacement first when the text starts with the pattern, keeps the length when replacement and pattern are equally long, and replacing a pattern by itself case-sensitively changes nothing |
| QtCore.ReplaceAllAfterPrefix | src/mainwindow.cpp:541-542 | text without the pattern's (non-letter) first character passes through `replace` unchanged, ahead of the rest |
| QtCore.ReplaceAllSoleOccurrence | src/mainwindow.cpp:541-542 | a single occurrence of the pattern, in any letter case the mode accepts, between texts without its first character becomes the replacement and nothing else changes |
| QtCore.ReplaceAllLaterOccurrence | src/mainwindow.cpp:541 | a case-sensitive pattern after another placeholder that it does not match is the only part replaced |
| QtCore.FileName | src/mainwindow.cpp:539-542 | `QFileInfo::fileName` is a suffix of the path that has no '/', and it is preceded by '/' when it is shorter than the path |
| AttackModes.KeyOf | src/mainwindow.cpp:246 | `QMap::key` gives 0 when no entry carries the text, and otherwise the key of some entry |
| AttackModes.KeyOfFirstMatch | src/mainwindow.cpp:246 | `QMap::key` gives the key of the first entry, in table order, that carries the text |
| AttackModes.KeyOfSmallest | src/mainwindow.cpp:246 | in a table kept in ascending key order, `QMap::key` gives the smallest key among the entries carrying the text, and that key is an entry's |
| AttackModes.KeyOfEntry | src/mainwindow.cpp:246 | in a table whose labels are distinct, the key read back from an entry's label is that entry's key |
| AttackModes.AttackModeIdSelectable | src/mainwindow.cpp:156-161 | whatever the combo box shows, the attack mode read from it is one of 0, 1, 3, 6, 7, 9 |
| AttackModes.AttackModeIdOfEntry | src/mainwindow.cpp:156-161 | selecting an entry of the attack-mode table yields exactly that entry's mode number |
| AttackModes.AttackModeTableAscending | src/mainwindow.cpp:156-161 | the attack-mode table lists its keys in ascending order, as the `QMap` holds them |
| AttackModes.ViewFor | src/mainwindow.cpp:249-292 | the custom-charset and mask groups are always enabled together, and rules and password are never both enabled |
| AttackModes.GroupsOfSelectableModes | src/mainwindow.cpp:244-294 | for each selectable mode: wordlists iff mode is 0, 1, 6 or 7; rules iff 0; never password; charset and mask iff 3, 6 or 7; nothing for 9 |
| ArgumentGeneration.RulesArguments | src/mainwindow.cpp:474-490 | no rules token exactly when, with the rules-file radio, no rules file is checked and non-empty, or, without it, generation is off or the count is empty; without the radio only `--generate-rules <count>` can appear; at most three flag-value pairs |
| ArgumentGeneration.ModeArguments | src/mainwindow.cpp:473-510 | only modes 0 and 4 append flags; mode 4 appends `--perm-min` and `--perm-max`, each with its value |
| ArgumentGeneration.MaskBeforeDict | src/mainwindow.cpp:493-509 | a mask is placed before the wordlists exactly in modes 3 and 7 with a non-empty mask, and it is the mask text |
| ArgumentGeneration.MaskAfterDict | src/mainwindow.cpp:500-504 | a mask is placed after the wordlists exactly in mode 6 with a non-empty mask, and never both before and after |
| ArgumentGeneration.CharsetArguments | src/mainwindow.cpp:512-528 | no charset token exactly when the group is disabled or no charset is checked and non-empty; at most four flag-value pairs |
| ArgumentGeneration.HexArguments | src/mainwindow.cpp:530-536 | hex flags appear exactly when a hex box is checked, `--hex-charset` first and `--hex-salt` last |
| ArgumentGeneration.OutfileName | src/mainwindow.cpp:539-542 | a name without '<' holds no placeholder and is passed unchanged, whatever the clock and the hash file |
| ArgumentGeneration.OutfileArguments | src/mainwindow.cpp:538-544 | `--outfile <name>` appears exactly when the box is checked and the text is not empty; the name is the text with both placeholders replaced, and a name without placeholders is the text itself |
| ArgumentGeneration.Flag | src/mainwindow.cpp:465-471 | a checked box gives exactly its flag, an unchecked one nothing |
| ArgumentGeneration.NonDefault | src/mainwindow.cpp:554-576 | a value that is neither empty nor hashcat's default gives exactly the flag followed by that value, and otherwise nothing |
| ArgumentGeneration.TuningArguments | src/mainwindow.cpp:546-576 | no tuning token exactly when format, async, affinity, devices, accel, loops, watchdog and segment are all empty or at hashcat's defaults; TuningPassed gives the contents |
| ArgumentGeneration.CheckedTexts | src/mainwindow.cpp:586-592 | the wordlist loop passes at most one argument per row |
| ArgumentGeneration.PositionalArguments | src/mainwindow.cpp:578-596 | a given hash file comes first; with no mask in play only the hash file and the wordlists remain |
| ArgumentGeneration.OptionArguments | src/mainwindow.cpp:465-576 | a checked `--remove` is the first option; with every switch off and the tuning at its defaults only the mode's flags and the charsets remain |
| ArgumentGeneration.Arguments | src/mainwindow.cpp:454-599 | the command line starts with the four header tokens and ends with the positional arguments |
| ArgumentGeneration.WithDefaultOutfile | src/mainwindow.cpp:228-237 | only the outfile text changes, to `<hash file>.out`, and only when the hash file is not empty |
| ArgumentProperties.RemovePassed | src/mainwindow.cpp:465-467 | a checked "remove" box puts `--remove` at position 4, right after the hash-type and attack-mode header |
| ArgumentProperties.HexPassed | src/mainwindow.cpp:530-536 | a checked hex-charset box puts `--hex-charset` on the command line, and a checked hex-salt box `--hex-salt` |
| ArgumentProperties.ArgumentsStartWithModes | src/mainwindow.cpp:460-463 | every command line begins `--hash-type <n> --attack-mode <m>`, whose numbers are the table keys of the selected texts |
| ArgumentProperties.PairedSameEffect | src/mainwindow.cpp:476-486 | a check-box/line-edit pair that is unchecked or empty contributes nothing, whatever its other half holds |
| ArgumentProperties.InactiveRulesFilesIgnored | src/mainwindow.cpp:475-486 | changing a rules file that is unchecked or empty, into another inactive one, leaves the command line unchanged |
| ArgumentProperties.InactiveCharsetsIgnored | src/mainwindow.cpp:512-528 | changing inactive custom charsets into other inactive ones leaves the command line unchanged |
| ArgumentProperties.InactiveOutfileIgnored | src/mainwindow.cpp:538-544 | an outfile that is unchecked or empty never influences the command line |
| ArgumentProperties.RulesOnlyInStraightMode | src/mainwindow.cpp:473-490 | outside Straight mode the rules widgets have no effect on the command line |
| ArgumentProperties.RulesFilesPassed | src/mainwindow.cpp:475-486 | in Straight mode with "use rules file", each checked, non-empty rules file appears as `--rules-file <path>` |
| ArgumentProperties.RulesFilesInOrder | src/mainwindow.cpp:475-486 | the active rules files appear side by side in the order 1, 2, 3: files 1 and 2, files 2 and 3, files 1 and 3 when 2 is inactive, and all three |
| ArgumentProperties.GenerateRulesPassed | src/mainwindow.cpp:487-489 | without the rules-file radio, a checked generate radio with a non-empty count passes `--generate-rules <count>`; with the rules-file radio the generate settings are ignored |
| ArgumentProperties.RulesFilesIgnoredWithoutUseFile | src/mainwindow.cpp:475-489 | without the rules-file radio, the three rules files have no effect on the command line |
| ArgumentProperties.InactiveGenerateRulesIgnored | src/mainwindow.cpp:487-489 | without the rules-file radio and with generation off or an empty count, the mode adds no rules token, and changing generation and count among such settings has no effect |
| ArgumentProperties.PermutationBoundsIgnored | src/mainwindow.cpp:496-499 | the password-length spin boxes never influence the command line, because mode 4 is never selected |
| ArgumentProperties.MaskBeforeWordlists | src/mainwindow.cpp:493-495 | in Brute-force and hybrid mask + wordlist modes a non-empty mask comes directly before the wordlists, and those end the line |
| ArgumentProperties.MaskAfterWordlists | src/mainwindow.cpp:500-504 | in hybrid wordlist + mask mode a non-empty mask is the last argument, directly after the wordlists |
| ArgumentProperties.NoMaskToken | src/mainwindow.cpp:578-596 | with an empty mask or outside modes 3, 6 and 7, the line is the header, the options, the hash file when given and the wordlists: no mask token anywhere |
| ArgumentProperties.MaskOnlyInMaskModes | src/mainwindow.cpp:473-510 | outside modes 3, 6 and 7 the mask text has no effect on the command line |
| ArgumentProperties.WordlistsGatedByGroup | src/mainwindow.cpp:586-592 | while the wordlist group is disabled the list's contents have no effect |
| ArgumentProperties.BruteForceEndsWithHashFileAndMask | src/mainwindow.cpp:578-584 | in a consistent Brute-force form the line ends with the hash file followed by the mask |
| ArgumentProperties.CheckedTextsAppend | src/mainwindow.cpp:586-592 | the wordlist arguments of two lists joined are those of each list, joined |
| ArgumentProperties.CheckedTextsMembership | src/mainwindow.cpp:586-592 | a text is passed as a wordlist iff some checked row shows it |
| ArgumentProperties.CheckedTextsInOrder | src/mainwindow.cpp:586-592 | checked rows are passed in their row order |
| ArgumentProperties.CharsetsGatedByGroup | src/mainwindow.cpp:512 | while the custom-charset group is disabled the charset widgets have no effect |
| ArgumentProperties.CharsetsPassed | src/mainwindow.cpp:512-528 | with the group enabled, each checked, non-empty charset n appears as `--custom-charsetn <text>` |
| ArgumentProperties.NoCharsetsOutsideMaskModes | src/mainwindow.cpp:512-528 | in a consistent form in modes 0, 1 or 9 no charset option is generated and the charset widgets have no effect |
| ArgumentProperties.AssociationIgnoresAllGroups | src/mainwindow.cpp:244-294 | in a consistent Association form no wordlist, charset or rules argument is generated, and wordlists, rules, charsets and mask have no effect |
| ArgumentProperties.SameTuning | src/mainwindow.cpp:546-576 | two tuning settings that generate the same options give the same command line |
| ArgumentProperties.DefaultsActAsEmpty | src/mainwindow.cpp:558-576 | a tuning value equal to hashcat's default (0, 8, 256, 90, 32) acts exactly like an empty field |
| ArgumentProperties.TuningPassed | src/mainwindow.cpp:546-576 | each tuning field away from its default is passed under its own flag with its own value (`--gpu-accel <accel>` and so on), a format index other than 2 as `--outfile-format <index+1>`, and the async box as `--gpu-async`; the username box (line 469) as `--username` |
| ArgumentProperties.HashPlaceholderReplaced | src/mainwindow.cpp:539-542 | `<hash>.out`, in either letter case, becomes the base name of the hash file followed by `.out` |
| ArgumentProperties.UnixtimePlaceholderReplaced | src/mainwindow.cpp:541 | `<unixtime>` becomes the clock reading in whole seconds, while `<UNIXTIME>` is left as it is |
| ArgumentProperties.HashPlaceholderInName | src/mainwindow.cpp:539-542 | `<hash>` in any letter case, anywhere in a name whose other text has no `<`, becomes the hash file's base name and the text around it stays |
| ArgumentProperties.UnixtimePlaceholderInName | src/mainwindow.cpp:541-542 | `<unixtime>` anywhere in a name whose other text has no `<` becomes the clock in whole seconds and the text around it stays |
| ArgumentProperties.BothPlaceholdersInName | src/mainwindow.cpp:539-542 | a name such as `out/<hash>-<unixtime>.txt` gets both replacements: base name for the first, seconds for the second |
| ArgumentProperties.DefaultOutfileIdempotent | src/mainwindow.cpp:228-237 | proposing the default outfile twice is the same as proposing it once |
| ArgumentProperties.DefaultOutfilePassed | src/mainwindow.cpp:228-237 | with the outfile checked, the proposed `<hash file>.out` is passed as `--outfile` |
| ArgumentProperties.OutfilePassed | src/mainwindow.cpp:538-544 | an active outfile reaches the command line as `--outfile` followed by its name with `<unixtime>` and `<hash>` replaced |
| Wordlist.WithWordlist | src/mainwindow.cpp:186-204 | adding a folder keeps the list as a prefix and appends one checked row exactly when the name is not null and no row shows it |
| Wordlist.WithWordlists | src/mainwindow.cpp:206-226 | adding files keeps the list as a prefix and appends at most one row per name, each checked and showing one of the names |
| Wordlist.OneNameIsAList | src/mainwindow.cpp:186-226 | adding a single file behaves as adding that folder name |
| Wordlist.WithWordlistsTexts | src/mainwindow.cpp:206-226 | after adding, a text is shown iff it was shown before or was one of the non-null names |
| Wordlist.WithWordlistsKeepsUnique | src/mainwindow.cpp:212-224 | adding never creates two rows with the same text, including duplicates within one selection |
| Wordlist.WithWordlistsPresent | src/mainwindow.cpp:212-224 | adding names that are all already shown (or null) leaves the list unchanged |
| Wordlist.WithWordlistsIdempotent | src/mainwindow.cpp:206-226 | adding the same selection twice is the same as adding it once |
| Wordlist.TakeItem | src/mainwindow.cpp:337 | `takeItem` returns the row's item and a list one shorter, or null and the unchanged list for a row outside it |
| Wordlist.InsertItem | src/mainwindow.cpp:338 | `insertItem` of a null item changes nothing; otherwise the list grows by one and holds the item at a row within the list |
| Wordlist.SetCurrentRow | src/mainwindow.cpp:339 | the current row is in the list or -1, and equals the requested row when that is in the list |
| Wordlist.MoveUp | src/mainwindow.cpp:333-340 | "up" keeps the selection valid, does nothing at the top or with no current row, and otherwise moves the current item one row up and keeps it current |
| Wordlist.MoveDown | src/mainwindow.cpp:342-349 | "down" keeps the selection valid, does nothing at the bottom, moves the current item one row down and keeps it current, and selects row 0 when there is no current row |
| Wordlist.MoveDownThenUp | src/mainwindow.cpp:333-349 | "down" followed by "up" restores list and current row when the item could move |
| Wordlist.MoveUpThenDown | src/mainwindow.cpp:333-349 | "up" followed by "down" restores list and current row when the item could move |
| Wordlist.Swap | src/mainwindow.cpp:337-338 | exchanging rows i and j puts each item in the other's row and leaves every other row as it was |
| Wordlist.SwapKeepsItems | src/mainwindow.cpp:337-338 | exchanging two rows keeps the same items with the same multiplicities |
| Wordlist.SwapKeepsUnique | src/mainwindow.cpp:337-338 | exchanging two rows never makes two rows show the same text |
| Wordlist.MoveUpKeepsUnique | src/mainwindow.cpp:333-340 | "up" never introduces duplicate texts |
| Wordlist.MoveDownKeepsUnique | src/mainwindow.cpp:342-349 | "down" never introduces duplicate texts |
| Wordlist.TakeInsertUp | src/mainwindow.cpp:337-338 | taking a row and inserting it one row higher exchanges it with its upper neighbour |
| Wordlist.TakeInsertDown | src/mainwindow.cpp:346-347 | taking a row and inserting it one row lower exchanges it with its lower neighbour |
| Wordlist.MoveUpByTakeAndInsert | src/mainwindow.cpp:335-339 | the take/insert/set-current sequence of the up button is MoveUp for every current row except 0 |
| Wordlist.MoveDownByTakeAndInsert | src/mainwindow.cpp:344-348 | the take/insert/set-current sequence of the down button is MoveDown whenever it runs |
| Wordlist.MoveUpKeepsItems | src/mainwindow.cpp:333-340 | "up" keeps exactly the same items |
| Wordlist.MoveDownKeepsItems | src/mainwindow.cpp:342-349 | "down" keeps exactly the same items |
| MainWindowModel.IsDuplicate | src/mainwindow.cpp:192-196 | the duplicate scan is true iff some row shows the text |
| MainWindowModel.AppendCheckedWordlists | src/mainwindow.cpp:587-591 | the row loop appends exactly the checked rows' texts, in order |
| MainWindowModel.AppendRules | src/mainwindow.cpp:474-490 | the rules branch of the switch appends exactly the specified rules tokens |
| MainWindowModel.AttackModeSwitch | src/mainwindow.cpp:473-510 | the switch appends the mode's specified flags and places the mask before the wordlists in modes 3 and 7 and after them in mode 6 |
| MainWindowModel.AppendPaired | src/mainwindow.cpp:513-515 | a checked field with a non-empty text is appended after its flag, and nothing otherwise |
| MainWindowModel.AppendCharsets | src/mainwindow.cpp:512-528 | the four conditional appends inside the enabled group give exactly the specified charset tokens |
| MainWindowModel.AppendHex | src/mainwindow.cpp:530-536 | the two hex checkboxes append exactly the specified hex flags |
| MainWindowModel.AppendOutfile | src/mainwindow.cpp:538-544 | the two replacements and the append give exactly the specified outfile tokens |
| MainWindowModel.AppendNonDefault | src/mainwindow.cpp:554-576 | a tuning value is appended after its flag unless it is empty or the default |
| MainWindowModel.AppendTuning | src/mainwindow.cpp:546-576 | the eight conditional appends give exactly the specified tuning tokens |
| MainWindowModel.OptionBlocks | src/mainwindow.cpp:465-576 | the conditional appends, block by block, build exactly the specified options, and the switch places the mask as specified |
| MainWindowModel.AppendPositionals | src/mainwindow.cpp:578-596 | the positional tail is the non-empty hash file, the mask before, the wordlists when enabled, and the mask after |
| MainWindowModel.RowUp | src/mainwindow.cpp:333-340 | the up button's early return plus take/insert/set-current is MoveUp of the selection |
| MainWindowModel.RowDown | src/mainwindow.cpp:342-349 | the down button's early return plus take/insert/set-current is MoveDown of the selection |
| MainWindowModel.MainWindow.constructor | src/mainwindow.cpp:22-29 | the window starts with its group boxes matching the initial attack mode, no current wordlist row, and the hash-mode table in ascending key order |
| MainWindowModel.MainWindow.UpdateViewAttackMode | src/mainwindow.cpp:244-294 | the group boxes become consistent with the attack mode, and nothing else in the form changes |
| MainWindowModel.MainWindow.SelectAttackMode | src/mainwindow.cpp:239-242 | choosing a table entry sets that mode and updates the group boxes to match, changing nothing else |
| MainWindowModel.MainWindow.AddWordlistItem | src/mainwindow.cpp:186-204 | the list becomes WithWordlist of the old list; nothing else in the window changes |
| MainWindowModel.MainWindow.AddWordlistItems | src/mainwindow.cpp:206-226 | the list becomes WithWordlists of the old list; nothing else in the window changes |
| MainWindowModel.MainWindow.MoveWordlistUp | src/mainwindow.cpp:333-340 | list and current row become MoveUp of the old ones; nothing else in the form changes |
| MainWindowModel.MainWindow.MoveWordlistDown | src/mainwindow.cpp:342-349 | list and current row become MoveDown of the old ones; nothing else in the form changes |
| MainWindowModel.MainWindow.SetOutfilePath | src/mainwindow.cpp:228-237 | the form becomes the default-outfile proposal of the old form |
| MainWindowModel.MainWindow.GenerateArguments | src/mainwindow.cpp:454-599 | the command line built step by step equals `Arguments` of the form, about which the ArgumentProperties lemmas hold |
| JsonValues.ToBool | src/widgetstateserializer.cpp:89 | `toBool` is true only for the JSON value true |
| JsonValues.ToInt | src/widgetstateserializer.cpp:94 | `toInt` is a 32-bit value; it is the number itself for an integral number in range, and 0 in every other case |
| JsonValues.ToString | src/widgetstateserializer.cpp:84 | `toString` is non-empty only for a JSON string, and then is its text |
| JsonValues.ToArray | src/widgetstateserializer.cpp:116 | `toArray` is non-empty only for a JSON array, and then is its elements |
| JsonValues.ToObject | src/widgetstateserializer.cpp:118 | `toObject` is non-empty only for a JSON object, and then is its members |
| JsonValues.Member | src/widgetstateserializer.cpp:119-120 | `li["text"]` is the member when present and null otherwise |
| WidgetState.KindOf | src/widgetstateserializer.cpp:34-73 | each serialized widget kind has its own loop position before KindCount; only unserialized widgets have none |
| WidgetState.EncodeItem | src/widgetstateserializer.cpp:66-70 | a row is written as an object from which reading it back gives the same text and check state |
| WidgetState.EncodeItems | src/widgetstateserializer.cpp:63-73 | a list is written as one object per row, in order, each decoding to its row |
| WidgetState.DecodeItems | src/widgetstateserializer.cpp:113-122 | a list is rebuilt with one row per array element, in order |
| WidgetState.DecodeEncodeItems | src/widgetstateserializer.cpp:63-122 | a list written and read back is the same list |
| WidgetState.DecodeItem | src/widgetstateserializer.cpp:117-120 | an element that is not an object, or has neither member, is read as an empty unchecked row |
| WidgetState.Encode | src/widgetstateserializer.cpp:39-72 | the value written is null only for a widget that is not saved, and setting a valid widget from its own value changes nothing |
| WidgetState.Clamp | src/widgetstateserializer.cpp:104 | `setValue` keeps the value within a non-empty range, and leaves a value already in range as it is |
| WidgetState.Apply | src/widgetstateserializer.cpp:82-122 | setting a widget from any value keeps its kind, item count and range, and keeps a valid widget valid |
| WidgetState.ApplyEncode | src/widgetstateserializer.cpp:29-124 | setting a widget from the value saved from a valid widget of the same kind and range reproduces that widget |
| WidgetState.JsonOfKeys | src/widgetstateserializer.cpp:29-76 | the saved object has a member for a name iff some serializable child other than the command line has that name |
| WidgetState.CommandLineNotSaved | src/widgetstateserializer.cpp:34-40 | when the name lineEdit_command belongs only to the command line, the saved object has no member for it |
| WidgetState.CommandLineTextIgnored | src/widgetstateserializer.cpp:34-40 | the text of the command line has no influence on the saved object |
| WidgetState.RestoreChild | src/widgetstateserializer.cpp:82-122 | a child keeps its name and shape, is untouched without a member, stays valid, and is unchanged when set from its own saved value |
| WidgetState.JsonOf | src/widgetstateserializer.cpp:29-76 | every saved child has a member, and with unique names that member is exactly the value written for the child |
| WidgetState.Restored | src/widgetstateserializer.cpp:79-124 | restoring keeps names, kinds and ranges, leaves children without a member and unserialized children untouched, and keeps a valid window valid |
| WidgetState.ProfileRestores | src/widgetstateserializer.cpp:29-124 | restoring one window's saved object into a window of the same layout reproduces every child but the command line, which keeps the target's text |
| WidgetState.RoundTrip | src/widgetstateserializer.cpp:29-124 | restoring a window from its own saved object changes nothing |
| WidgetState.UnnamedInternalWidgetsRoundTrip | src/widgetstateserializer.cpp:29-124 | a list whose internal widgets all carry the empty name still round-trips |
| WidgetState.SaveDocument | src/widgetstateserializer.cpp:131-132 | the saved document is an object whose only member is the key, holding the window's object |
| WidgetState.Load | src/widgetstateserializer.cpp:145-174 | loading fails exactly when the file cannot be opened, does not parse, is not an object or lacks the key; a success keeps the window's layout |
| WidgetState.LoadSavedProfile | src/widgetstateserializer.cpp:127-174 | a saved profile loads under its key and restores every saved value into a window of the same layout |
| WidgetState.LoadOtherKey | src/widgetstateserializer.cpp:166-170 | a profile saved under one key is reported missing under any other key |
| WidgetState.LoadNonObjectProfile | src/widgetstateserializer.cpp:172 | a member for the key that is not an object loads successfully and changes nothing |
| WidgetStateSerializer.Window.constructor | src/widgetstateserializer.cpp:29 | the window handed to the serializer holds the given children in `findChildren` order |
| WidgetStateSerializer.ListToJson | src/widgetstateserializer.cpp:63-73 | the row loop builds the specified array, which reads back as the same rows |
| WidgetStateSerializer.JsonToList | src/widgetstateserializer.cpp:113-122 | the refill loop builds the specified rows from the array |
| WidgetStateSerializer.EncodeChild | src/widgetstateserializer.cpp:39-72 | the value written for a child is the specified value for its widget |
| WidgetStateSerializer.WriteKind | src/widgetstateserializer.cpp:34-73 | one kind's loop performs that kind's writes, in child order, on the object built so far |
| WidgetStateSerializer.WidgetToJson | src/widgetstateserializer.cpp:29-76 | the kind-by-kind loops build exactly the specified saved object |
| WidgetStateSerializer.ApplyChild | src/widgetstateserializer.cpp:82-122 | setting one child, list refill included, gives the specified widget |
| WidgetStateSerializer.JsonToWidget | src/widgetstateserializer.cpp:79-124 | after the loops the window's children are the specified restored children |
| WidgetStateSerializer.SaveStateToFile | src/widgetstateserializer.cpp:127-142 | the result is true iff the file opens, and then the document written is the specified one; nothing is written otherwise |
| WidgetStateSerializer.LoadStateFromFile | src/widgetstateserializer.cpp:145-174 | the result is true iff loading succeeds; on success the window is the loaded state, on failure it is untouched |

## Left out

- Launching hashcat, reading its output and the about, EULA and settings dialogs are not
  modelled. `SettingsManager` is not part of this model.
- Parsing hashcat's `--example-hashes` output into the hash-mode table is left out. The
  table is a parameter (`MainWindow.hashModes`).
- The clock is a parameter: `nowMs` stands for `QDateTime::currentMSecsSinceEpoch()`.
- The file dialogs are left out. Their results are the `Option<string>` names passed to the
  wordlist operations, where `None` is a null `QString`. Native separator conversion is not
  modelled.
- File I/O and message boxes are left out. `saveStateToFile` takes whether the file opens
  (`canOpen`) and returns the document it writes. `loadStateFromFile` takes the outcome of
  opening and parsing (`Option<ParseResult>`).
- JSON text is not modelled: no parsing, indentation or key ordering. Numbers are integers;
  non-integral numbers are not modelled.
- `QDoubleSpinBox` is left out, because the model has no floating point.
- The serializer's window is a generic sequence of named children, each of one of the
  serialized widget kinds, with `Unserialized` for every other widget.
  - The link between those children and the main window's `Form` is not modelled.
  - The internal line edits of spin boxes and editable combo boxes are not modelled as
    separate children.
  - `findChildren` order is the order of the sequence.
- Radio-button auto-exclusivity during `jsonToWidget` is not modelled. Setting one radio
  button does not uncheck its siblings in the model.
- Signals and slots are not modelled. `CommandChanged` refreshes the command preview. The
  group-box and button enable-state slots are cosmetic. The update after loading a profile
  is not modelled either.
- Item icons and `QListWidget` sorting are not modelled. Sorting is assumed off, as in the
  form.
- Remove-selected-wordlists is not modelled.
- QtCore.FoldCase: folds ASCII letters only, not the full Unicode case folding of
  `Qt::CaseInsensitive`.
- QtCore.FileName: treats '/' as the only path separator.
- AttackModes.KeyOf: models `QMap::key` over a sequence kept in ascending key order (an
  invariant of `MainWindow`). It does not model the 32-bit unsigned key width.
