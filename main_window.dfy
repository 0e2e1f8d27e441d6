/**
  The main window as an object: the form state the widgets hold, the current row
  of the wordlist list, and the hash-mode table read at start-up. Its methods
  change that state in place and are proved against the functions of
  ArgumentGeneration, AttackModes and Wordlist.
 */
module MainWindowModel {
  import opened QtCore
  import opened AttackModes
  import opened ArgumentGeneration
  import opened Wordlist

  /** The duplicate scan of add_wordlist_item: whether any row shows `t`. */
  method IsDuplicate(items: seq<ListItem>, t: string) returns (duplicate: bool)
    ensures duplicate <==> HasText(items, t)
  {
    duplicate := false;
    for j := 0 to |items|
      invariant duplicate <==> HasText(items[..j], t)
    {
      if items[j].text == t {
        duplicate := true;
      }
      assert forall k :: 0 <= k < j ==> items[..j + 1][k] == items[..j][k];
    }
    assert items[..|items|] == items;
  }

  /** The loop of generate_arguments over the wordlist rows: each checked row's text, in row order. */
  method AppendCheckedWordlists(arguments: seq<string>, items: seq<ListItem>) returns (r: seq<string>)
    ensures r == arguments + CheckedTexts(items)
  {
    r := arguments;
    for i := 0 to |items|
      invariant r == arguments + CheckedTexts(items[..i])
    {
      assert items[..i + 1][..i] == items[..i];
      if items[i].checked {
        r := r + [items[i].text];
      }
    }
    assert items[..|items|] == items;
  }

  /** The rules branch of the switch: the checked rules files, else the generate-rules count. */
  method AppendRules(arguments: seq<string>, r: Rules) returns (a: seq<string>)
    ensures a == arguments + RulesArguments(r)
  {
    a := arguments;
    if r.useFile {
      ghost var block: seq<string> := [];
      if r.file1.checked && r.file1.text != "" {
        a := a + ["--rules-file", r.file1.text];
      }
      block := block + Paired(r.file1, "--rules-file");
      assert a == arguments + block;
      if r.file2.checked && r.file2.text != "" {
        a := a + ["--rules-file", r.file2.text];
      }
      block := block + Paired(r.file2, "--rules-file");
      assert a == arguments + block;
      if r.file3.checked && r.file3.text != "" {
        a := a + ["--rules-file", r.file3.text];
      }
      block := block + Paired(r.file3, "--rules-file");
      assert a == arguments + block;
    } else if r.generate && r.count != "" {
      a := a + ["--generate-rules", r.count];
    }
  }

  /**
    The switch of generate_arguments on the attack mode: the mode's own flags are
    appended, and the mask is placed before or after the wordlists.
   */
  method AttackModeSwitch(arguments: seq<string>, attackMode: nat, f: Form)
    returns (a: seq<string>, maskBeforeDict: string, maskAfterDict: string)
    ensures a == arguments + ModeArguments(attackMode, f.rules, f.passwordMin, f.passwordMax)
    ensures maskBeforeDict == MaskBeforeDict(attackMode, f.mask)
    ensures maskAfterDict == MaskAfterDict(attackMode, f.mask)
  {
    a, maskBeforeDict, maskAfterDict := arguments, "", "";
    if attackMode == 0 {
      a := AppendRules(a, f.rules);
    } else if attackMode == 3 {
      maskBeforeDict := f.mask;
    } else if attackMode == 4 {
      a := a + ["--perm-min", f.passwordMin];
      a := a + ["--perm-max", f.passwordMax];
      assert a == arguments + ["--perm-min", f.passwordMin, "--perm-max", f.passwordMax];
    } else if attackMode == 6 {
      if |f.mask| > 0 {
        maskAfterDict := f.mask;
      }
    } else if attackMode == 7 {
      if |f.mask| > 0 {
        maskBeforeDict := f.mask;
      }
    }
  }

  /** A checked field with a non-empty text appended after its flag. */
  method AppendPaired(arguments: seq<string>, t: Toggled, flag: string) returns (a: seq<string>)
    ensures a == arguments + Paired(t, flag)
  {
    a := arguments;
    if t.checked && t.text != "" {
      a := a + [flag, t.text];
    }
  }

  /** The custom charsets, each checked one with a non-empty text, while their group box is enabled. */
  method AppendCharsets(arguments: seq<string>, enabled: bool, c: Charsets) returns (a: seq<string>)
    ensures a == arguments + CharsetArguments(enabled, c)
  {
    a := arguments;
    if enabled {
      var p1, p2 := Paired(c.custom1, "--custom-charset1"), Paired(c.custom2, "--custom-charset2");
      var p3, p4 := Paired(c.custom3, "--custom-charset3"), Paired(c.custom4, "--custom-charset4");
      a := AppendPaired(a, c.custom1, "--custom-charset1");
      a := AppendPaired(a, c.custom2, "--custom-charset2");
      AppendInSteps(arguments, p1, p2);
      a := AppendPaired(a, c.custom3, "--custom-charset3");
      AppendInSteps(arguments, p1 + p2, p3);
      a := AppendPaired(a, c.custom4, "--custom-charset4");
      AppendInSteps(arguments, p1 + p2 + p3, p4);
    }
  }

  /** The two hex checkboxes. */
  method AppendHex(arguments: seq<string>, hexCharset: bool, hexSalt: bool) returns (a: seq<string>)
    ensures a == arguments + HexArguments(hexCharset, hexSalt)
  {
    a := arguments;
    if hexCharset {
      a := a + ["--hex-charset"];
    }
    if hexSalt {
      a := a + ["--hex-salt"];
    }
    assert a == arguments + (Flag(hexCharset, "--hex-charset") + Flag(hexSalt, "--hex-salt"));
  }

  /**
    The outfile, when its box is checked and its text is not empty: "<unixtime>" is
    replaced by the clock in seconds, then "<hash>", in any letter case, by the
    hash file's name.
   */
  method AppendOutfile(arguments: seq<string>, outfile: Toggled, hashFile: string, nowMs: nat) returns (a: seq<string>)
    ensures a == arguments + OutfileArguments(outfile, hashFile, nowMs)
  {
    a := arguments;
    if outfile.checked && outfile.text != "" {
      var name := outfile.text;
      name := ReplaceAll(name, "<unixtime>", NatToString(nowMs / 1000), false);
      name := ReplaceAll(name, "<hash>", FileName(hashFile), true);
      a := a + ["--outfile", name];
    }
  }

  /** A value appended with its flag unless it is empty or hashcat's default. */
  method AppendNonDefault(arguments: seq<string>, flag: string, value: string, default: string) returns (a: seq<string>)
    ensures a == arguments + NonDefault(flag, value, default)
  {
    a := arguments;
    if value != "" && value != default {
      a := a + [flag, value];
    }
  }

  /** The outfile format, unless it is the default index 2, and the tuning fields in their order. */
  method AppendTuning(arguments: seq<string>, t: Tuning) returns (a: seq<string>)
    ensures a == arguments + TuningArguments(t)
  {
    a := arguments;
    if t.outfileFormat != 2 {
      a := a + ["--outfile-format", IntToString(t.outfileFormat + 1)];
    }
    if t.gpuAsync {
      a := a + ["--gpu-async"];
    }
    ghost var block := (if t.outfileFormat != 2 then ["--outfile-format", IntToString(t.outfileFormat + 1)] else [])
                       + Flag(t.gpuAsync, "--gpu-async");
    assert a == arguments + block;
    a := AppendNonDefault(a, "--cpu-affinity", t.cpuAffinity, "");
    AppendInSteps(arguments, block, NonDefault("--cpu-affinity", t.cpuAffinity, ""));
    block := block + NonDefault("--cpu-affinity", t.cpuAffinity, "");
    a := AppendNonDefault(a, "--gpu-devices", t.devices, "0");
    AppendInSteps(arguments, block, NonDefault("--gpu-devices", t.devices, "0"));
    block := block + NonDefault("--gpu-devices", t.devices, "0");
    a := AppendNonDefault(a, "--gpu-accel", t.accel, "8");
    AppendInSteps(arguments, block, NonDefault("--gpu-accel", t.accel, "8"));
    block := block + NonDefault("--gpu-accel", t.accel, "8");
    a := AppendNonDefault(a, "--gpu-loops", t.loops, "256");
    AppendInSteps(arguments, block, NonDefault("--gpu-loops", t.loops, "256"));
    block := block + NonDefault("--gpu-loops", t.loops, "256");
    a := AppendNonDefault(a, "--gpu-watchdog", t.watchdog, "90");
    AppendInSteps(arguments, block, NonDefault("--gpu-watchdog", t.watchdog, "90"));
    block := block + NonDefault("--gpu-watchdog", t.watchdog, "90");
    a := AppendNonDefault(a, "--segment-size", t.segment, "32");
    AppendInSteps(arguments, block, NonDefault("--segment-size", t.segment, "32"));
    block := block + NonDefault("--segment-size", t.segment, "32");
    assert a == arguments + block;
  }

  /**
    The optional flags of generate_arguments, appended block by block in the
    source's order; the switch on the attack mode also places the mask.
   */
  method OptionBlocks(attackMode: nat, f: Form, nowMs: nat) returns (options: seq<string>, maskBeforeDict: string, maskAfterDict: string)
    ensures options == OptionArguments(attackMode, f, nowMs)
    ensures maskBeforeDict == MaskBeforeDict(attackMode, f.mask)
    ensures maskAfterDict == MaskAfterDict(attackMode, f.mask)
  {
    options := [];
    if f.remove {
      options := options + ["--remove"];
    }
    if f.ignoreUsername {
      options := options + ["--username"];
    }
    assert options == Flag(f.remove, "--remove") + Flag(f.ignoreUsername, "--username");
    options, maskBeforeDict, maskAfterDict := AttackModeSwitch(options, attackMode, f);
    options := AppendCharsets(options, f.groups.customCharset, f.charsets);
    options := AppendHex(options, f.hexCharset, f.hexSalt);
    options := AppendOutfile(options, f.outfile, f.hashFile, nowMs);
    options := AppendTuning(options, f.tuning);
  }

  /**
    The positional tail of generate_arguments: the hash file, the mask placed before
    the wordlists, the checked wordlists while their group box is enabled, the mask
    placed after them; empty texts are skipped.
   */
  method AppendPositionals(arguments: seq<string>, hashFile: string, maskBeforeDict: string,
                           wordlistsEnabled: bool, items: seq<ListItem>, maskAfterDict: string)
    returns (r: seq<string>)
    ensures r == arguments + (Positional(hashFile) + Positional(maskBeforeDict)
                              + WordlistArguments(wordlistsEnabled, items) + Positional(maskAfterDict))
  {
    r := arguments + Positional(hashFile);
    r := r + Positional(maskBeforeDict);
    ghost var beforeWordlists := r;
    if wordlistsEnabled {
      r := AppendCheckedWordlists(r, items);
    } else {
      assert r == r + [];
    }
    assert r == beforeWordlists + WordlistArguments(wordlistsEnabled, items);
    r := r + Positional(maskAfterDict);
    var b, c, d := Positional(hashFile), Positional(maskBeforeDict), WordlistArguments(wordlistsEnabled, items);
    AppendInSteps(arguments, b, c);
    AppendInSteps(arguments, b + c, d);
    AppendInSteps(arguments, b + c + d, Positional(maskAfterDict));
  }

  /** The up button on the list: take the current item, insert it one row higher and make that row current. */
  method RowUp(items: seq<ListItem>, currentRow: int) returns (moved: seq<ListItem>, row: int)
    requires -1 <= currentRow < |items|
    ensures Selection(moved, row) == MoveUp(Selection(items, currentRow))
  {
    if currentRow == 0 {
      return items, currentRow;
    }
    var taken := TakeItem(items, currentRow);
    moved := InsertItem(taken.1, currentRow - 1, taken.0);
    row := SetCurrentRow(moved, currentRow - 1);
    MoveUpByTakeAndInsert(items, currentRow, taken, moved, row);
  }

  /** The down button on the list: take the current item, insert it one row lower and make that row current. */
  method RowDown(items: seq<ListItem>, currentRow: int) returns (moved: seq<ListItem>, row: int)
    requires -1 <= currentRow < |items|
    ensures Selection(moved, row) == MoveDown(Selection(items, currentRow))
  {
    if currentRow >= |items| - 1 {
      return items, currentRow;
    }
    var taken := TakeItem(items, currentRow);
    moved := InsertItem(taken.1, currentRow + 1, taken.0);
    row := SetCurrentRow(moved, currentRow + 1);
    MoveDownByTakeAndInsert(items, currentRow, taken, moved, row);
  }

  class MainWindow {
    /** The values of the form's widgets and the enabled flags of its group boxes. */
    var form: Form
    /** The current row of listWidget_wordlist, -1 when there is none. */
    var wordlistRow: int
    /** The hash-mode table read from hashcat's example hashes. */
    var hashModes: seq<ModeEntry>

    /** Qt keeps the current row within the list; the hash-mode QMap lists its keys in ascending order. */
    ghost predicate Valid()
      reads this
    {
      && -1 <= wordlistRow < |form.wordlists|
      && KeysAscending(hashModes)
    }

    /** The window as set up: the group boxes match the initial attack mode and no row is current. */
    constructor (hashModes: seq<ModeEntry>, initial: Form)
      requires KeysAscending(hashModes)
      ensures Valid() && Consistent(form)
      ensures form == initial.(groups := ViewFor(AttackModeId(initial.attackMode)))
      ensures wordlistRow == -1 && this.hashModes == hashModes
    {
      this.hashModes := hashModes;
      form := initial.(groups := ViewFor(AttackModeId(initial.attackMode)));
      wordlistRow := -1;
    }

    /**
      update_view_attack_mode: the switch on the attack mode sets which group boxes
      are enabled; nothing else changes.
     */
    method UpdateViewAttackMode()
      modifies this
      ensures Consistent(form)
      ensures form == old(form).(groups := form.groups)
      ensures wordlistRow == old(wordlistRow) && hashModes == old(hashModes)
    {
      var attackMode := AttackModeId(form.attackMode);
      var groupWordlists, groupRules, groupPassword, groupMask := false, false, false, false;
      if attackMode == 0 {
        groupWordlists, groupRules := true, true;
      } else if attackMode == 1 {
        groupWordlists := true;
      } else if attackMode == 3 {
        groupMask := true;
      } else if attackMode == 4 {
        groupWordlists, groupPassword := true, true;
      } else if attackMode == 6 || attackMode == 7 {
        groupWordlists, groupMask := true, true;
      }
      form := form.(groups := Groups(groupWordlists, groupRules, groupPassword, groupMask, groupMask));
    }

    /**
      Choosing an entry of the attack-mode combo box: the form works in that entry's
      mode from then on, and the group boxes follow it.
     */
    method SelectAttackMode(index: nat)
      requires index < |AttackModeTable|
      modifies this
      ensures AttackModeId(form.attackMode) == AttackModeTable[index].key
      ensures Consistent(form)
      ensures form == old(form).(attackMode := AttackModeTable[index].text, groups := form.groups)
      ensures wordlistRow == old(wordlistRow) && hashModes == old(hashModes)
    {
      form := form.(attackMode := AttackModeTable[index].text);
      AttackModeIdOfEntry(index);
      UpdateViewAttackMode();
    }

    /**
      add_wordlist_item for a folder: appended as a checked row unless the dialog
      returned null or a row already shows it.
     */
    method AddWordlistItem(name: Option<string>)
      requires Valid()
      modifies this
      ensures Valid()
      ensures form == old(form).(wordlists := WithWordlist(old(form.wordlists), name))
      ensures wordlistRow == old(wordlistRow) && hashModes == old(hashModes)
    {
      var duplicate := IsDuplicate(form.wordlists, TextOf(name));
      if name.Some? && !duplicate {
        form := form.(wordlists := form.wordlists + [ListItem(name.value, true)]);
      }
    }

    /**
      add_wordlist_item for files: each name in turn, checked against the rows
      present at that point, those added before it included.
     */
    method AddWordlistItems(names: seq<Option<string>>)
      requires Valid()
      modifies this
      ensures Valid()
      ensures form == old(form).(wordlists := WithWordlists(old(form.wordlists), names))
      ensures wordlistRow == old(wordlistRow) && hashModes == old(hashModes)
    {
      for i := 0 to |names|
        invariant form == old(form).(wordlists := WithWordlists(old(form.wordlists), names[..i]))
        invariant wordlistRow == old(wordlistRow) && hashModes == old(hashModes)
      {
        assert names[..i + 1][..i] == names[..i];
        var duplicate := IsDuplicate(form.wordlists, TextOf(names[i]));
        if names[i].Some? && !duplicate {
          form := form.(wordlists := form.wordlists + [ListItem(names[i].value, true)]);
        }
      }
      assert names[..|names|] == names;
    }

    /** on_toolButton_wordlist_sort_asc_clicked: the up button. */
    method MoveWordlistUp()
      requires Valid()
      modifies this
      ensures Valid()
      ensures Selection(form.wordlists, wordlistRow) == MoveUp(Selection(old(form.wordlists), old(wordlistRow)))
      ensures form == old(form).(wordlists := form.wordlists) && hashModes == old(hashModes)
    {
      var moved, row := RowUp(form.wordlists, wordlistRow);
      form := form.(wordlists := moved);
      wordlistRow := row;
    }

    /** on_toolButton_wordlist_sort_desc_clicked: the down button. */
    method MoveWordlistDown()
      requires Valid()
      modifies this
      ensures Valid()
      ensures Selection(form.wordlists, wordlistRow) == MoveDown(Selection(old(form.wordlists), old(wordlistRow)))
      ensures form == old(form).(wordlists := form.wordlists) && hashModes == old(hashModes)
    {
      var moved, row := RowDown(form.wordlists, wordlistRow);
      form := form.(wordlists := moved);
      wordlistRow := row;
    }

    /** set_outfile_path: a non-empty hash file proposes "<hash file>.out" as the outfile text. */
    method SetOutfilePath()
      modifies this
      ensures form == WithDefaultOutfile(old(form))
      ensures wordlistRow == old(wordlistRow) && hashModes == old(hashModes)
    {
      if |form.hashFile| > 0 {
        form := form.(outfile := form.outfile.(text := form.hashFile + ".out"));
      }
    }

    /**
      generate_arguments: the header, the optional flags block by block, then the
      hash file, the mask placed before the wordlists, the checked wordlists when
      their group box is enabled, and the mask placed after them.
     */
    method GenerateArguments(nowMs: nat) returns (arguments: seq<string>)
      ensures arguments == Arguments(form, hashModes, nowMs)
    {
      var attackMode := AttackModeId(form.attackMode);
      arguments := Header(KeyOf(hashModes, form.hashType), attackMode);
      var options, maskBeforeDict, maskAfterDict := OptionBlocks(attackMode, form, nowMs);
      arguments := arguments + options;
      arguments := AppendPositionals(arguments, form.hashFile, maskBeforeDict,
                                     form.groups.wordlists, form.wordlists, maskAfterDict);
    }
  }
}
