/**
  Argument generation of the main window: the form's state mapped to the ordered
  list of hashcat command-line tokens, block by block as the main window appends
  them, and the properties of that list.
 */
module ArgumentGeneration {
  import opened QtCore
  import opened AttackModes

  /** A checkbox paired with the text field it switches on. */
  datatype Toggled = Toggled(checked: bool, text: string)

  /** A paired field takes effect when its box is checked and its text is not empty. */
  predicate Active(t: Toggled) {
    t.checked && t.text != ""
  }

  /** The rules group box. */
  datatype Rules = Rules(
    useFile: bool,              // radioButton_use_rules_file
    generate: bool,             // radioButton_generate_rules
    file1: Toggled,             // checkBox_rulesfile_1, lineEdit_open_rulesfile_1
    file2: Toggled,
    file3: Toggled,
    count: string               // spinBox_generate_rules, clean text
  )

  /** The custom-charset group box. */
  datatype Charsets = Charsets(
    custom1: Toggled,           // checkBox_custom1, lineEdit_custom1
    custom2: Toggled,
    custom3: Toggled,
    custom4: Toggled
  )

  /** The outfile format and the tuning fields of the options page. */
  datatype Tuning = Tuning(
    outfileFormat: int,         // comboBox_outfile_format, current index
    gpuAsync: bool,             // checkBox_async
    cpuAffinity: string,        // lineEdit_cpu_affinity
    devices: string,            // lineEdit_devices
    accel: string,              // spinBox_accel, clean text
    loops: string,              // spinBox_loops
    watchdog: string,           // spinBox_watchdog
    segment: string             // spinBox_segment
  )

  /**
    The state of the form that argument generation reads. Combo boxes appear as
    their current text; spin boxes as their clean text; group boxes as their
    enabled flags.
   */
  datatype Form = Form(
    hashType: string,           // comboBox_hash, current text
    attackMode: string,         // comboBox_attack, current text
    remove: bool,               // checkBox_remove
    ignoreUsername: bool,       // checkBox_ignoreusername
    rules: Rules,
    passwordMin: string,        // spinBox_password_min
    passwordMax: string,        // spinBox_password_max
    mask: string,               // lineEdit_mask
    charsets: Charsets,
    hexCharset: bool,           // checkBox_hex_hash
    hexSalt: bool,              // checkBox_hex_salt
    outfile: Toggled,           // checkBox_outfile, lineEdit_outfile
    hashFile: string,           // lineEdit_open_hashfile
    tuning: Tuning,
    wordlists: seq<ListItem>,   // listWidget_wordlist
    groups: Groups              // enabled flags of the group boxes
  )

  /** The group boxes are enabled as the attack-mode switch sets them for the current mode. */
  predicate Consistent(f: Form) {
    f.groups == ViewFor(AttackModeId(f.attackMode))
  }

  // ---------------------------------------------------------------------------
  // The blocks of the argument list, in the order they are appended
  // ---------------------------------------------------------------------------

  function Header(hashType: nat, attackMode: nat): seq<string> {
    ["--hash-type", NatToString(hashType), "--attack-mode", NatToString(attackMode)]
  }

  function Flag(on: bool, flag: string): (args: seq<string>)
    ensures |args| == if on then 1 else 0
    ensures on ==> args == [flag]
  {
    if on then [flag] else []
  }

  function Paired(t: Toggled, flag: string): seq<string> {
    if Active(t) then [flag, t.text] else []
  }

  /** Rules of a straight attack: the checked rules files, else a rule-generation count. */
  function RulesArguments(r: Rules): (args: seq<string>)
    ensures args == [] <==> (if r.useFile then !Active(r.file1) && !Active(r.file2) && !Active(r.file3)
                             else !r.generate || r.count == "")
    ensures !r.useFile ==> args == [] || args == ["--generate-rules", r.count]
    ensures |args| % 2 == 0 && |args| <= 6
  {
    if r.useFile then
      Paired(r.file1, "--rules-file") + Paired(r.file2, "--rules-file") + Paired(r.file3, "--rules-file")
    else if r.generate && r.count != "" then
      ["--generate-rules", r.count]
    else
      []
  }

  /** The flags the switch on the attack mode appends. */
  function ModeArguments(mode: nat, rules: Rules, passwordMin: string, passwordMax: string): (args: seq<string>)
    ensures mode != 0 && mode != 4 ==> args == []
    ensures mode == 4 ==> |args| == 4 && args[0] == "--perm-min" && args[2] == "--perm-max"
  {
    if mode == 0 then RulesArguments(rules)
    else if mode == 4 then ["--perm-min", passwordMin, "--perm-max", passwordMax]
    else []
  }

  /** The mask placed before the wordlists: brute-force and hybrid mask + wordlist. */
  function MaskBeforeDict(mode: nat, mask: string): (m: string)
    ensures m != "" <==> (mode == 3 || mode == 7) && mask != ""
    ensures m != "" ==> m == mask
  {
    if mode == 3 || mode == 7 then mask else ""
  }

  /** The mask placed after the wordlists: hybrid wordlist + mask. */
  function MaskAfterDict(mode: nat, mask: string): (m: string)
    ensures m != "" <==> mode == 6 && mask != ""
    ensures m != "" ==> m == mask && MaskBeforeDict(mode, mask) == ""
  {
    if mode == 6 then mask else ""
  }

  /** The custom charsets, read only while their group box is enabled. */
  function CharsetArguments(enabled: bool, c: Charsets): (args: seq<string>)
    ensures args == [] <==> !enabled || (!Active(c.custom1) && !Active(c.custom2) && !Active(c.custom3) && !Active(c.custom4))
    ensures |args| % 2 == 0 && |args| <= 8
  {
    if enabled then
      Paired(c.custom1, "--custom-charset1") + Paired(c.custom2, "--custom-charset2")
      + Paired(c.custom3, "--custom-charset3") + Paired(c.custom4, "--custom-charset4")
    else
      []
  }

  function HexArguments(hexCharset: bool, hexSalt: bool): (args: seq<string>)
    ensures args == [] <==> !hexCharset && !hexSalt
    ensures |args| <= 2
    ensures hexCharset ==> args[0] == "--hex-charset"
    ensures hexSalt ==> args[|args| - 1] == "--hex-salt"
  {
    Flag(hexCharset, "--hex-charset") + Flag(hexSalt, "--hex-salt")
  }

  /**
    The outfile name as passed to hashcat: "<unixtime>" replaced by the seconds
    since the epoch, then "<hash>", in any letter case, by the hash file's name.
   */
  function OutfileName(text: string, hashFile: string, nowMs: nat): (name: string)
    ensures '<' !in text ==> name == text
  {
    PlaceholdersAbsent(text, NatToString(nowMs / 1000), FileName(hashFile));
    ReplaceAll(ReplaceAll(text, "<unixtime>", NatToString(nowMs / 1000), false), "<hash>", FileName(hashFile), true)
  }

  /** An outfile name without '<' holds no placeholder: both replacements leave it as it is. */
  lemma PlaceholdersAbsent(text: string, stamp: string, fileName: string)
    ensures '<' !in text ==> ReplaceAll(ReplaceAll(text, "<unixtime>", stamp, false), "<hash>", fileName, true) == text
  {
    if '<' !in text {
      FirstCharacterAbsent(text, "<unixtime>", false);
      ReplaceAllWithoutOccurrence(text, "<unixtime>", stamp, false);
      FirstCharacterAbsent(text, "<hash>", true);
      ReplaceAllWithoutOccurrence(text, "<hash>", fileName, true);
    }
  }

  function OutfileArguments(outfile: Toggled, hashFile: string, nowMs: nat): (args: seq<string>)
    ensures args != [] <==> Active(outfile)
    ensures Active(outfile) ==> |args| == 2 && args[0] == "--outfile" && ('<' !in outfile.text ==> args[1] == outfile.text)
    ensures Active(outfile) ==> args == ["--outfile", OutfileName(outfile.text, hashFile, nowMs)]
  {
    if Active(outfile) then ["--outfile", OutfileName(outfile.text, hashFile, nowMs)] else []
  }

  /** A flag with a value, left out when the value is empty or equal to hashcat's default. */
  function NonDefault(flag: string, value: string, default: string): (args: seq<string>)
    ensures |args| == if value == "" || value == default then 0 else 2
    ensures value != "" && value != default ==> args == [flag, value]
  {
    if value != "" && value != default then [flag, value] else []
  }

  /** Every tuning field is empty or at hashcat's default. */
  predicate TuningAtDefaults(t: Tuning) {
    && t.outfileFormat == 2
    && !t.gpuAsync
    && t.cpuAffinity == ""
    && t.devices in {"", "0"}
    && t.accel in {"", "8"}
    && t.loops in {"", "256"}
    && t.watchdog in {"", "90"}
    && t.segment in {"", "32"}
  }

  /**
    The outfile format (index 2 is the default) and the tuning options: none at all
    exactly when every field is empty or at its default; --gpu-async is the only
    option without a value.
   */
  function TuningArguments(t: Tuning): (args: seq<string>)
    ensures args == [] <==> TuningAtDefaults(t)
  {
    (if t.outfileFormat != 2 then ["--outfile-format", IntToString(t.outfileFormat + 1)] else [])
    + Flag(t.gpuAsync, "--gpu-async")
    + NonDefault("--cpu-affinity", t.cpuAffinity, "")
    + NonDefault("--gpu-devices", t.devices, "0")
    + NonDefault("--gpu-accel", t.accel, "8")
    + NonDefault("--gpu-loops", t.loops, "256")
    + NonDefault("--gpu-watchdog", t.watchdog, "90")
    + NonDefault("--segment-size", t.segment, "32")
  }

  /** The texts of the checked items, in list order. */
  function CheckedTexts(items: seq<ListItem>): (r: seq<string>)
    ensures |r| <= |items|
  {
    if items == [] then []
    else
      var last := items[|items| - 1];
      CheckedTexts(items[..|items| - 1]) + (if last.checked then [last.text] else [])
  }

  /** The checked wordlists, read only while their group box is enabled. */
  function WordlistArguments(enabled: bool, items: seq<ListItem>): seq<string> {
    if enabled then CheckedTexts(items) else []
  }

  function Positional(s: string): (p: seq<string>)
    ensures |p| == if s == "" then 0 else 1
  {
    if s != "" then [s] else []
  }

  /** Hash file, mask before the dictionary, checked wordlists, mask after the dictionary. */
  function PositionalArguments(mode: nat, f: Form): (args: seq<string>)
    ensures (f.mask == "" || mode !in {3, 6, 7}) ==>
              args == Positional(f.hashFile) + WordlistArguments(f.groups.wordlists, f.wordlists)
    ensures f.hashFile != "" ==> |args| > 0 && args[0] == f.hashFile
  {
    Positional(f.hashFile) + Positional(MaskBeforeDict(mode, f.mask))
    + WordlistArguments(f.groups.wordlists, f.wordlists) + Positional(MaskAfterDict(mode, f.mask))
  }

  /**
    The optional flags, between the header and the positional arguments. With the
    switches off and the tuning at its defaults only the mode's flags and the
    charsets remain.
   */
  function OptionArguments(mode: nat, f: Form, nowMs: nat): (args: seq<string>)
    ensures f.remove ==> |args| > 0 && args[0] == "--remove"
    ensures !f.remove && !f.ignoreUsername && !f.hexCharset && !f.hexSalt && !Active(f.outfile) && TuningAtDefaults(f.tuning)
            ==> args == ModeArguments(mode, f.rules, f.passwordMin, f.passwordMax) + CharsetArguments(f.groups.customCharset, f.charsets)
  {
    var switches := Flag(f.remove, "--remove") + Flag(f.ignoreUsername, "--username");
    var hex := HexArguments(f.hexCharset, f.hexSalt);
    var outfile := OutfileArguments(f.outfile, f.hashFile, nowMs);
    var tuning := TuningArguments(f.tuning);
    var modeArgs := ModeArguments(mode, f.rules, f.passwordMin, f.passwordMax);
    var charsets := CharsetArguments(f.groups.customCharset, f.charsets);
    assert f.remove ==> switches[0] == "--remove";
    assert !f.remove && !f.ignoreUsername ==> switches == [];
    assert !f.hexCharset && !f.hexSalt && !Active(f.outfile) && TuningAtDefaults(f.tuning) ==> hex + outfile + tuning == [];
    OptionsOrder(switches, modeArgs, charsets, hex, outfile, tuning);
    switches + modeArgs + charsets + hex + outfile + tuning
  }

  /** The option blocks follow one another: the first token is the switches' own, and empty blocks vanish. */
  lemma OptionsOrder(switches: seq<string>, modeArgs: seq<string>, charsets: seq<string>,
                     hex: seq<string>, outfile: seq<string>, tuning: seq<string>)
    ensures var args := switches + modeArgs + charsets + hex + outfile + tuning;
            && (|switches| > 0 ==> |args| > 0 && args[0] == switches[0])
            && (switches == [] && hex + outfile + tuning == [] ==> args == modeArgs + charsets)
  {
    var args := switches + modeArgs + charsets + hex + outfile + tuning;
    assert args == switches + (modeArgs + charsets) + (hex + outfile + tuning);
  }

  /**
    generate_arguments: the hashcat command line for the form. `hashModes` is the
    hash-mode table read from hashcat; `nowMs` the clock reading in milliseconds.
   */
  function Arguments(f: Form, hashModes: seq<ModeEntry>, nowMs: nat): (args: seq<string>)
    ensures |args| >= 4 && args[..4] == Header(KeyOf(hashModes, f.hashType), AttackModeId(f.attackMode))
    ensures var tail := PositionalArguments(AttackModeId(f.attackMode), f);
            |tail| <= |args| && args[|args| - |tail|..] == tail
  {
    var mode := AttackModeId(f.attackMode);
    var header := Header(KeyOf(hashModes, f.hashType), mode);
    var tail := PositionalArguments(mode, f);
    var args := header + OptionArguments(mode, f, nowMs) + tail;
    assert args[..4] == header;
    assert args[|args| - |tail|..] == tail;
    args
  }

  /** set_outfile_path: a non-empty hash file name proposes "<hash file>.out" as the outfile. */
  function WithDefaultOutfile(f: Form): (g: Form)
    ensures g == f.(outfile := g.outfile) && g.outfile.checked == f.outfile.checked
    ensures f.hashFile != "" ==> g.outfile.text == f.hashFile + ".out"
    ensures f.hashFile == "" ==> g == f
  {
    if f.hashFile != "" then f.(outfile := f.outfile.(text := f.hashFile + ".out")) else f
  }
}
