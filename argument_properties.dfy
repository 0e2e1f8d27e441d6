/**
  What the generated hashcat command line promises: its fixed start, the gating of
  each block by the attack mode, the group boxes and the checkboxes, the placement
  of mask and wordlists, and the omission of default values.
 */
module ArgumentProperties {
  import opened QtCore
  import opened AttackModes
  import opened ArgumentGeneration

  /** `part` appears as a contiguous run somewhere in `args`. */
  ghost predicate Contains(args: seq<string>, part: seq<string>) {
    exists before, after :: args == before + part + after
  }

  /** `flag` is immediately followed by `value` somewhere in the argument list. */
  ghost predicate HasOption(args: seq<string>, flag: string, value: string) {
    Contains(args, [flag, value])
  }

  lemma ContainsSelf(part: seq<string>)
    ensures Contains(part, part)
  {
    assert part == [] + part + [];
  }

  lemma ContainsLeft(a: seq<string>, b: seq<string>, part: seq<string>)
    requires Contains(a, part)
    ensures Contains(a + b, part)
  {
    var before, after :| a == before + part + after;
    assert a + b == before + part + (after + b);
  }

  lemma ContainsRight(a: seq<string>, b: seq<string>, part: seq<string>)
    requires Contains(b, part)
    ensures Contains(a + b, part)
  {
    var before, after :| b == before + part + after;
    assert a + b == (a + before) + part + after;
  }

  /** A run found in either half of a list is found in the list. */
  lemma ContainsEither(a: seq<string>, b: seq<string>, part: seq<string>)
    ensures Contains(a, part) || Contains(b, part) ==> Contains(a + b, part)
  {
    if Contains(a, part) {
      ContainsLeft(a, b, part);
    } else if Contains(b, part) {
      ContainsRight(a, b, part);
    }
  }

  /**
    A run found in any block of optional flags is found in the option section. The
    chain below follows the block order of OptionArguments and changes with it.
   */
  lemma ContainedInOptions(mode: nat, f: Form, nowMs: nat, part: seq<string>)
    requires || Contains(Flag(f.remove, "--remove"), part)
             || Contains(Flag(f.ignoreUsername, "--username"), part)
             || Contains(ModeArguments(mode, f.rules, f.passwordMin, f.passwordMax), part)
             || Contains(CharsetArguments(f.groups.customCharset, f.charsets), part)
             || Contains(HexArguments(f.hexCharset, f.hexSalt), part)
             || Contains(OutfileArguments(f.outfile, f.hashFile, nowMs), part)
             || Contains(TuningArguments(f.tuning), part)
    ensures Contains(OptionArguments(mode, f, nowMs), part)
  {
    var s0 := Flag(f.remove, "--remove") + Flag(f.ignoreUsername, "--username");
    var s1 := s0 + ModeArguments(mode, f.rules, f.passwordMin, f.passwordMax);
    var s2 := s1 + CharsetArguments(f.groups.customCharset, f.charsets);
    var s3 := s2 + HexArguments(f.hexCharset, f.hexSalt);
    var s4 := s3 + OutfileArguments(f.outfile, f.hashFile, nowMs);
    ContainsEither(Flag(f.remove, "--remove"), Flag(f.ignoreUsername, "--username"), part);
    ContainsEither(s0, ModeArguments(mode, f.rules, f.passwordMin, f.passwordMax), part);
    ContainsEither(s1, CharsetArguments(f.groups.customCharset, f.charsets), part);
    ContainsEither(s2, HexArguments(f.hexCharset, f.hexSalt), part);
    ContainsEither(s3, OutfileArguments(f.outfile, f.hashFile, nowMs), part);
    ContainsEither(s4, TuningArguments(f.tuning), part);
  }

  /**
    A run found in any of the outfile-format, async and tuning blocks is found in the
    tuning section. The chain below follows the block order of TuningArguments and
    changes with it.
   */
  lemma ContainedInTuning(t: Tuning, part: seq<string>)
    requires || Contains(if t.outfileFormat != 2 then ["--outfile-format", IntToString(t.outfileFormat + 1)] else [], part)
             || Contains(Flag(t.gpuAsync, "--gpu-async"), part)
             || Contains(NonDefault("--cpu-affinity", t.cpuAffinity, ""), part)
             || Contains(NonDefault("--gpu-devices", t.devices, "0"), part)
             || Contains(NonDefault("--gpu-accel", t.accel, "8"), part)
             || Contains(NonDefault("--gpu-loops", t.loops, "256"), part)
             || Contains(NonDefault("--gpu-watchdog", t.watchdog, "90"), part)
             || Contains(NonDefault("--segment-size", t.segment, "32"), part)
    ensures Contains(TuningArguments(t), part)
  {
    var s0 := if t.outfileFormat != 2 then ["--outfile-format", IntToString(t.outfileFormat + 1)] else [];
    var s1 := s0 + Flag(t.gpuAsync, "--gpu-async");
    var s2 := s1 + NonDefault("--cpu-affinity", t.cpuAffinity, "");
    var s3 := s2 + NonDefault("--gpu-devices", t.devices, "0");
    var s4 := s3 + NonDefault("--gpu-accel", t.accel, "8");
    var s5 := s4 + NonDefault("--gpu-loops", t.loops, "256");
    var s6 := s5 + NonDefault("--gpu-watchdog", t.watchdog, "90");
    ContainsEither(s0, Flag(t.gpuAsync, "--gpu-async"), part);
    ContainsEither(s1, NonDefault("--cpu-affinity", t.cpuAffinity, ""), part);
    ContainsEither(s2, NonDefault("--gpu-devices", t.devices, "0"), part);
    ContainsEither(s3, NonDefault("--gpu-accel", t.accel, "8"), part);
    ContainsEither(s4, NonDefault("--gpu-loops", t.loops, "256"), part);
    ContainsEither(s5, NonDefault("--gpu-watchdog", t.watchdog, "90"), part);
    ContainsEither(s6, NonDefault("--segment-size", t.segment, "32"), part);
  }

  /** A run found in the option section is found in the whole list. */
  lemma ContainedInArguments(f: Form, hashModes: seq<ModeEntry>, nowMs: nat, part: seq<string>)
    requires Contains(OptionArguments(AttackModeId(f.attackMode), f, nowMs), part)
    ensures Contains(Arguments(f, hashModes, nowMs), part)
  {
    var mode := AttackModeId(f.attackMode);
    var h := Header(KeyOf(hashModes, f.hashType), mode);
    ContainsRight(h, OptionArguments(mode, f, nowMs), part);
    ContainsLeft(h + OptionArguments(mode, f, nowMs), PositionalArguments(mode, f), part);
  }

  /** Two forms whose blocks of optional flags agree have the same option section. */
  lemma SameOptions(mode: nat, f: Form, g: Form, nowMs: nat)
    requires f.remove == g.remove && f.ignoreUsername == g.ignoreUsername
    requires ModeArguments(mode, f.rules, f.passwordMin, f.passwordMax) == ModeArguments(mode, g.rules, g.passwordMin, g.passwordMax)
    requires CharsetArguments(f.groups.customCharset, f.charsets) == CharsetArguments(g.groups.customCharset, g.charsets)
    requires HexArguments(f.hexCharset, f.hexSalt) == HexArguments(g.hexCharset, g.hexSalt)
    requires OutfileArguments(f.outfile, f.hashFile, nowMs) == OutfileArguments(g.outfile, g.hashFile, nowMs)
    requires TuningArguments(f.tuning) == TuningArguments(g.tuning)
    ensures OptionArguments(mode, f, nowMs) == OptionArguments(mode, g, nowMs)
  {
  }

  /** Two forms with the same hash type, attack mode, options and positional arguments give the same list. */
  lemma SameSections(f: Form, g: Form, hashModes: seq<ModeEntry>, nowMs: nat)
    requires f.hashType == g.hashType && f.attackMode == g.attackMode
    requires OptionArguments(AttackModeId(f.attackMode), f, nowMs) == OptionArguments(AttackModeId(f.attackMode), g, nowMs)
    requires PositionalArguments(AttackModeId(f.attackMode), f) == PositionalArguments(AttackModeId(f.attackMode), g)
    ensures Arguments(f, hashModes, nowMs) == Arguments(g, hashModes, nowMs)
  {
  }

  // ---------------------------------------------------------------------------
  // The start of the list
  // ---------------------------------------------------------------------------

  /** The list always begins with the hash type and the attack mode, each rendered in decimal. */
  lemma ArgumentsStartWithModes(f: Form, hashModes: seq<ModeEntry>, nowMs: nat)
    ensures var r := Arguments(f, hashModes, nowMs);
            && |r| >= 4
            && r[..4] == Header(KeyOf(hashModes, f.hashType), AttackModeId(f.attackMode))
            && r[0] == "--hash-type" && AllDigits(r[1]) && DecimalValue(r[1]) == KeyOf(hashModes, f.hashType)
            && r[2] == "--attack-mode" && AllDigits(r[3]) && DecimalValue(r[3]) == AttackModeId(f.attackMode)
  {
    HeaderFields(Arguments(f, hashModes, nowMs), KeyOf(hashModes, f.hashType), AttackModeId(f.attackMode));
  }

  lemma HeaderFields(r: seq<string>, hashType: nat, attackMode: nat)
    requires |r| >= 4 && r[..4] == Header(hashType, attackMode)
    ensures r[0] == "--hash-type" && AllDigits(r[1]) && DecimalValue(r[1]) == hashType
    ensures r[2] == "--attack-mode" && AllDigits(r[3]) && DecimalValue(r[3]) == attackMode
  {
    var h := Header(hashType, attackMode);
    assert r[0] == r[..4][0] == h[0] && r[2] == r[..4][2] == h[2];
    assert r[1] == r[..4][1] == h[1] && r[3] == r[..4][3] == h[3];
  }

  /** A checked "remove" box puts `--remove` right after the hash-type and attack-mode header. */
  lemma RemovePassed(f: Form, hashModes: seq<ModeEntry>, nowMs: nat)
    requires f.remove
    ensures |Arguments(f, hashModes, nowMs)| > 4 && Arguments(f, hashModes, nowMs)[4] == "--remove"
  {
    var mode := AttackModeId(f.attackMode);
    var h, o := Header(KeyOf(hashModes, f.hashType), mode), OptionArguments(mode, f, nowMs);
    assert Arguments(f, hashModes, nowMs) == h + o + PositionalArguments(mode, f);
    assert (h + o + PositionalArguments(mode, f))[4] == o[0];
  }

  /** Each checked hex box is passed as its flag. */
  lemma HexPassed(f: Form, hashModes: seq<ModeEntry>, nowMs: nat)
    ensures f.hexCharset ==> Contains(Arguments(f, hashModes, nowMs), ["--hex-charset"])
    ensures f.hexSalt ==> Contains(Arguments(f, hashModes, nowMs), ["--hex-salt"])
  {
    var hex := HexArguments(f.hexCharset, f.hexSalt);
    if f.hexCharset {
      assert hex == [] + ["--hex-charset"] + hex[1..];
      HexFlagPassed(f, hashModes, nowMs, ["--hex-charset"]);
    }
    if f.hexSalt {
      assert hex == hex[..|hex| - 1] + ["--hex-salt"] + [];
      HexFlagPassed(f, hashModes, nowMs, ["--hex-salt"]);
    }
  }

  lemma HexFlagPassed(f: Form, hashModes: seq<ModeEntry>, nowMs: nat, part: seq<string>)
    requires Contains(HexArguments(f.hexCharset, f.hexSalt), part)
    ensures Contains(Arguments(f, hashModes, nowMs), part)
  {
    ContainedInOptions(AttackModeId(f.attackMode), f, nowMs, part);
    ContainedInArguments(f, hashModes, nowMs, part);
  }

  // ---------------------------------------------------------------------------
  // Gating by checkboxes: an inactive paired field has no effect
  // ---------------------------------------------------------------------------

  /** Two settings of a paired field that produce the same arguments. */
  predicate SameEffect(a: Toggled, b: Toggled) {
    a == b || (!Active(a) && !Active(b))
  }

  lemma PairedSameEffect(a: Toggled, b: Toggled, flag: string)
    requires SameEffect(a, b)
    ensures Paired(a, flag) == Paired(b, flag)
  {
  }

  /** A rules file needs its box checked and a non-empty name: inactive rules files have no effect. */
  lemma InactiveRulesFilesIgnored(f: Form, t1: Toggled, t2: Toggled, t3: Toggled, hashModes: seq<ModeEntry>, nowMs: nat)
    requires SameEffect(f.rules.file1, t1) && SameEffect(f.rules.file2, t2) && SameEffect(f.rules.file3, t3)
    ensures Arguments(f.(rules := f.rules.(file1 := t1, file2 := t2, file3 := t3)), hashModes, nowMs)
            == Arguments(f, hashModes, nowMs)
  {
    var g := f.(rules := f.rules.(file1 := t1, file2 := t2, file3 := t3));
    var mode := AttackModeId(f.attackMode);
    PairedSameEffect(f.rules.file1, t1, "--rules-file");
    PairedSameEffect(f.rules.file2, t2, "--rules-file");
    PairedSameEffect(f.rules.file3, t3, "--rules-file");
    assert RulesArguments(g.rules) == RulesArguments(f.rules);
    assert ModeArguments(mode, g.rules, g.passwordMin, g.passwordMax) == ModeArguments(mode, f.rules, f.passwordMin, f.passwordMax);
    SameOptions(mode, g, f, nowMs);
    SameSections(g, f, hashModes, nowMs);
  }

  /** A custom charset needs its box checked and a non-empty text: inactive charsets have no effect. */
  lemma InactiveCharsetsIgnored(f: Form, c: Charsets, hashModes: seq<ModeEntry>, nowMs: nat)
    requires SameEffect(f.charsets.custom1, c.custom1) && SameEffect(f.charsets.custom2, c.custom2)
    requires SameEffect(f.charsets.custom3, c.custom3) && SameEffect(f.charsets.custom4, c.custom4)
    ensures Arguments(f.(charsets := c), hashModes, nowMs) == Arguments(f, hashModes, nowMs)
  {
    var g := f.(charsets := c);
    var mode := AttackModeId(f.attackMode);
    PairedSameEffect(f.charsets.custom1, c.custom1, "--custom-charset1");
    PairedSameEffect(f.charsets.custom2, c.custom2, "--custom-charset2");
    PairedSameEffect(f.charsets.custom3, c.custom3, "--custom-charset3");
    PairedSameEffect(f.charsets.custom4, c.custom4, "--custom-charset4");
    assert CharsetArguments(g.groups.customCharset, g.charsets) == CharsetArguments(f.groups.customCharset, f.charsets);
    assert ModeArguments(mode, g.rules, g.passwordMin, g.passwordMax) == ModeArguments(mode, f.rules, f.passwordMin, f.passwordMax);
    SameOptions(mode, g, f, nowMs);
    SameSections(g, f, hashModes, nowMs);
  }

  /** The outfile needs its box checked and a non-empty name: an inactive outfile has no effect. */
  lemma InactiveOutfileIgnored(f: Form, t: Toggled, hashModes: seq<ModeEntry>, nowMs: nat)
    requires !Active(f.outfile) && !Active(t)
    ensures Arguments(f.(outfile := t), hashModes, nowMs) == Arguments(f, hashModes, nowMs)
  {
    var g := f.(outfile := t);
    var mode := AttackModeId(f.attackMode);
    assert OutfileArguments(g.outfile, g.hashFile, nowMs) == OutfileArguments(f.outfile, f.hashFile, nowMs);
    assert ModeArguments(mode, g.rules, g.passwordMin, g.passwordMax) == ModeArguments(mode, f.rules, f.passwordMin, f.passwordMax);
    SameOptions(mode, g, f, nowMs);
    SameSections(g, f, hashModes, nowMs);
  }

  // ---------------------------------------------------------------------------
  // Rules
  // ---------------------------------------------------------------------------

  /** Rules are read in the straight attack mode only; in every other mode they have no effect. */
  lemma RulesOnlyInStraightMode(f: Form, r: Rules, hashModes: seq<ModeEntry>, nowMs: nat)
    requires AttackModeId(f.attackMode) != 0
    ensures Arguments(f.(rules := r), hashModes, nowMs) == Arguments(f, hashModes, nowMs)
  {
    var g := f.(rules := r);
    var mode := AttackModeId(f.attackMode);
    assert ModeArguments(mode, g.rules, g.passwordMin, g.passwordMax) == ModeArguments(mode, f.rules, f.passwordMin, f.passwordMax);
    SameOptions(mode, g, f, nowMs);
    SameSections(g, f, hashModes, nowMs);
  }

  /** In the straight mode with the rules-file radio checked, each active rules file is passed. */
  lemma RulesFilesPassed(f: Form, hashModes: seq<ModeEntry>, nowMs: nat)
    requires AttackModeId(f.attackMode) == 0 && f.rules.useFile
    ensures Active(f.rules.file1) ==> HasOption(Arguments(f, hashModes, nowMs), "--rules-file", f.rules.file1.text)
    ensures Active(f.rules.file2) ==> HasOption(Arguments(f, hashModes, nowMs), "--rules-file", f.rules.file2.text)
    ensures Active(f.rules.file3) ==> HasOption(Arguments(f, hashModes, nowMs), "--rules-file", f.rules.file3.text)
  {
    var r := f.rules;
    var p1, p2, p3 := Paired(r.file1, "--rules-file"), Paired(r.file2, "--rules-file"), Paired(r.file3, "--rules-file");
    assert ModeArguments(0, f.rules, f.passwordMin, f.passwordMax) == p1 + p2 + p3;
    forall t: Toggled | t in {r.file1, r.file2, r.file3} && Active(t)
      ensures HasOption(Arguments(f, hashModes, nowMs), "--rules-file", t.text)
    {
      var part := ["--rules-file", t.text];
      ContainsSelf(part);
      if t == r.file1 {
        ContainsLeft(p1, p2, part);
        ContainsLeft(p1 + p2, p3, part);
      } else if t == r.file2 {
        ContainsRight(p1, p2, part);
        ContainsLeft(p1 + p2, p3, part);
      } else {
        ContainsRight(p1 + p2, p3, part);
      }
      ContainedInOptions(0, f, nowMs, part);
      ContainedInArguments(f, hashModes, nowMs, part);
    }
  }

  /**
    The active rules files are passed together in the order 1, 2, 3: any two active
    files with no active file between them appear side by side, the lower first.
   */
  lemma RulesFilesInOrder(f: Form, hashModes: seq<ModeEntry>, nowMs: nat)
    requires AttackModeId(f.attackMode) == 0 && f.rules.useFile
    ensures var r, rf := f.rules, "--rules-file";
            && (Active(r.file1) && Active(r.file2) ==>
                  Contains(Arguments(f, hashModes, nowMs), [rf, r.file1.text, rf, r.file2.text]))
            && (Active(r.file2) && Active(r.file3) ==>
                  Contains(Arguments(f, hashModes, nowMs), [rf, r.file2.text, rf, r.file3.text]))
            && (Active(r.file1) && !Active(r.file2) && Active(r.file3) ==>
                  Contains(Arguments(f, hashModes, nowMs), [rf, r.file1.text, rf, r.file3.text]))
            && (Active(r.file1) && Active(r.file2) && Active(r.file3) ==>
                  Contains(Arguments(f, hashModes, nowMs), [rf, r.file1.text, rf, r.file2.text, rf, r.file3.text]))
  {
    var r, rf := f.rules, "--rules-file";
    var p1, p2, p3 := Paired(r.file1, rf), Paired(r.file2, rf), Paired(r.file3, rf);
    assert ModeArguments(0, f.rules, f.passwordMin, f.passwordMax) == p1 + p2 + p3;
    RunsOfThree(p1, p2, p3);
    if Active(r.file1) && Active(r.file2) {
      assert p1 + p2 == [rf, r.file1.text, rf, r.file2.text];
      RulesRunPassed(f, hashModes, nowMs, p1 + p2);
    }
    if Active(r.file2) && Active(r.file3) {
      assert p2 + p3 == [rf, r.file2.text, rf, r.file3.text];
      RulesRunPassed(f, hashModes, nowMs, p2 + p3);
    }
    if Active(r.file1) && !Active(r.file2) && Active(r.file3) {
      assert p1 + p3 == [rf, r.file1.text, rf, r.file3.text];
      RulesRunPassed(f, hashModes, nowMs, p1 + p3);
    }
    if Active(r.file1) && Active(r.file2) && Active(r.file3) {
      assert p1 + p2 + p3 == [rf, r.file1.text, rf, r.file2.text, rf, r.file3.text];
      RulesRunPassed(f, hashModes, nowMs, p1 + p2 + p3);
    }
  }

  /** Neighbouring blocks of a three-block list are runs of it, and so are the outer two around an empty middle. */
  lemma RunsOfThree(p1: seq<string>, p2: seq<string>, p3: seq<string>)
    ensures Contains(p1 + p2 + p3, p1 + p2) && Contains(p1 + p2 + p3, p2 + p3) && Contains(p1 + p2 + p3, p1 + p2 + p3)
    ensures p2 == [] ==> Contains(p1 + p2 + p3, p1 + p3)
  {
    assert p1 + p2 + p3 == [] + (p1 + p2) + p3;
    assert p1 + p2 + p3 == p1 + (p2 + p3) + [];
    ContainsSelf(p1 + p2 + p3);
    if p2 == [] {
      assert p1 + p2 + p3 == [] + (p1 + p3) + [];
    }
  }

  /** A run of the straight mode's rules block is found in the list. */
  lemma RulesRunPassed(f: Form, hashModes: seq<ModeEntry>, nowMs: nat, part: seq<string>)
    requires AttackModeId(f.attackMode) == 0
    requires Contains(ModeArguments(0, f.rules, f.passwordMin, f.passwordMax), part)
    ensures Contains(Arguments(f, hashModes, nowMs), part)
  {
    ContainedInOptions(0, f, nowMs, part);
    ContainedInArguments(f, hashModes, nowMs, part);
  }

  /**
    With the rules-file radio unchecked, a non-empty count under the generate-rules
    radio is passed; with the rules-file radio checked, the count has no effect.
   */
  lemma GenerateRulesPassed(f: Form, hashModes: seq<ModeEntry>, nowMs: nat)
    requires AttackModeId(f.attackMode) == 0
    ensures !f.rules.useFile && f.rules.generate && f.rules.count != "" ==>
              HasOption(Arguments(f, hashModes, nowMs), "--generate-rules", f.rules.count)
    ensures f.rules.useFile ==> forall c: string, on: bool ::
              Arguments(f.(rules := f.rules.(generate := on, count := c)), hashModes, nowMs) == Arguments(f, hashModes, nowMs)
  {
    if !f.rules.useFile && f.rules.generate && f.rules.count != "" {
      var part := ["--generate-rules", f.rules.count];
      assert ModeArguments(0, f.rules, f.passwordMin, f.passwordMax) == part;
      ContainsSelf(part);
      ContainedInOptions(0, f, nowMs, part);
      ContainedInArguments(f, hashModes, nowMs, part);
    }
    if f.rules.useFile {
      forall c: string, on: bool
        ensures Arguments(f.(rules := f.rules.(generate := on, count := c)), hashModes, nowMs) == Arguments(f, hashModes, nowMs)
      {
        var g := f.(rules := f.rules.(generate := on, count := c));
        assert ModeArguments(0, g.rules, g.passwordMin, g.passwordMax) == ModeArguments(0, f.rules, f.passwordMin, f.passwordMax);
        SameOptions(0, g, f, nowMs);
        SameSections(g, f, hashModes, nowMs);
      }
    }
  }

  /** With the rules-file radio unchecked, the three rules files have no effect. */
  lemma RulesFilesIgnoredWithoutUseFile(f: Form, t1: Toggled, t2: Toggled, t3: Toggled, hashModes: seq<ModeEntry>, nowMs: nat)
    requires !f.rules.useFile
    ensures Arguments(f.(rules := f.rules.(file1 := t1, file2 := t2, file3 := t3)), hashModes, nowMs)
            == Arguments(f, hashModes, nowMs)
  {
    var g := f.(rules := f.rules.(file1 := t1, file2 := t2, file3 := t3));
    var mode := AttackModeId(f.attackMode);
    assert RulesArguments(g.rules) == RulesArguments(f.rules);
    assert ModeArguments(mode, g.rules, g.passwordMin, g.passwordMax) == ModeArguments(mode, f.rules, f.passwordMin, f.passwordMax);
    SameOptions(mode, g, f, nowMs);
    SameSections(g, f, hashModes, nowMs);
  }

  /**
    With the rules-file radio unchecked and no count under a checked generate-rules
    radio, no rules token is produced at all, and changing the radio or the count
    to another such setting has no effect.
   */
  lemma InactiveGenerateRulesIgnored(f: Form, on: bool, c: string, hashModes: seq<ModeEntry>, nowMs: nat)
    requires !f.rules.useFile && (!f.rules.generate || f.rules.count == "")
    requires !on || c == ""
    ensures ModeArguments(AttackModeId(f.attackMode), f.rules, f.passwordMin, f.passwordMax) == []
    ensures Arguments(f.(rules := f.rules.(generate := on, count := c)), hashModes, nowMs) == Arguments(f, hashModes, nowMs)
  {
    var g := f.(rules := f.rules.(generate := on, count := c));
    var mode := AttackModeId(f.attackMode);
    AttackModeIdSelectable(f.attackMode);
    assert RulesArguments(g.rules) == [] == RulesArguments(f.rules);
    assert ModeArguments(mode, g.rules, g.passwordMin, g.passwordMax) == ModeArguments(mode, f.rules, f.passwordMin, f.passwordMax);
    SameOptions(mode, g, f, nowMs);
    SameSections(g, f, hashModes, nowMs);
  }

  /** The permutation bounds are read only by a mode no selection produces: they never have an effect. */
  lemma PermutationBoundsIgnored(f: Form, min: string, max: string, hashModes: seq<ModeEntry>, nowMs: nat)
    ensures Arguments(f.(passwordMin := min, passwordMax := max), hashModes, nowMs) == Arguments(f, hashModes, nowMs)
  {
    var g := f.(passwordMin := min, passwordMax := max);
    var mode := AttackModeId(f.attackMode);
    AttackModeIdSelectable(f.attackMode);
    assert ModeArguments(mode, g.rules, g.passwordMin, g.passwordMax) == ModeArguments(mode, f.rules, f.passwordMin, f.passwordMax);
    SameOptions(mode, g, f, nowMs);
    SameSections(g, f, hashModes, nowMs);
  }

  // ---------------------------------------------------------------------------
  // Mask and wordlists
  // ---------------------------------------------------------------------------

  /** A split of the positional section carries over to the whole list. */
  lemma PositionalSplit(f: Form, hashModes: seq<ModeEntry>, nowMs: nat, front: seq<string>, back: seq<string>)
    returns (before: seq<string>)
    requires PositionalArguments(AttackModeId(f.attackMode), f) == front + back
    ensures Arguments(f, hashModes, nowMs) == before + back
  {
    var args := Arguments(f, hashModes, nowMs);
    SuffixSplit(args, front, back);
    before := args[..|args| - |back|];
  }

  /** A list that ends with `front + back` ends with `back`. */
  lemma SuffixSplit(args: seq<string>, front: seq<string>, back: seq<string>)
    requires |front + back| <= |args| && args[|args| - |front + back|..] == front + back
    ensures args == args[..|args| - |back|] + back
  {
    var k := |args| - |front + back|;
    assert args[|args| - |back|..] == args[k..][|front|..] == back;
    assert args == args[..|args| - |back|] + args[|args| - |back|..];
  }

  /** Brute-force and hybrid mask + wordlist: a non-empty mask comes right before the wordlists, which end the list. */
  lemma MaskBeforeWordlists(f: Form, hashModes: seq<ModeEntry>, nowMs: nat)
    requires AttackModeId(f.attackMode) in {3, 7} && f.mask != ""
    ensures exists before :: Arguments(f, hashModes, nowMs) == before + [f.mask] + WordlistArguments(f.groups.wordlists, f.wordlists)
  {
    var mode := AttackModeId(f.attackMode);
    var ph, w := Positional(f.hashFile), WordlistArguments(f.groups.wordlists, f.wordlists);
    assert MaskBeforeDict(mode, f.mask) == f.mask && MaskAfterDict(mode, f.mask) == "";
    assert PositionalArguments(mode, f) == ph + [f.mask] + w;
    AppendInSteps(ph, [f.mask], w);
    var before := PositionalSplit(f, hashModes, nowMs, ph, [f.mask] + w);
    AppendInSteps(before, [f.mask], w);
  }

  /** Hybrid wordlist + mask: the wordlists come first and a non-empty mask ends the list. */
  lemma MaskAfterWordlists(f: Form, hashModes: seq<ModeEntry>, nowMs: nat)
    requires AttackModeId(f.attackMode) == 6 && f.mask != ""
    ensures exists before :: Arguments(f, hashModes, nowMs) == before + WordlistArguments(f.groups.wordlists, f.wordlists) + [f.mask]
  {
    var ph, w := Positional(f.hashFile), WordlistArguments(f.groups.wordlists, f.wordlists);
    assert MaskBeforeDict(6, f.mask) == "" && MaskAfterDict(6, f.mask) == f.mask;
    assert PositionalArguments(6, f) == ph + w + [f.mask];
    AppendInSteps(ph, w, [f.mask]);
    var before := PositionalSplit(f, hashModes, nowMs, ph, w + [f.mask]);
    AppendInSteps(before, w, [f.mask]);
  }

  /**
    An empty mask, or any mode other than 3, 6 and 7, puts no mask token anywhere:
    the options are followed by the hash file, when there is one, and the wordlists alone.
   */
  lemma NoMaskToken(f: Form, hashModes: seq<ModeEntry>, nowMs: nat)
    requires f.mask == "" || AttackModeId(f.attackMode) !in {3, 6, 7}
    ensures var mode := AttackModeId(f.attackMode);
            Arguments(f, hashModes, nowMs)
            == Header(KeyOf(hashModes, f.hashType), mode) + OptionArguments(mode, f, nowMs)
               + Positional(f.hashFile) + WordlistArguments(f.groups.wordlists, f.wordlists)
  {
    var mode := AttackModeId(f.attackMode);
    var x := Header(KeyOf(hashModes, f.hashType), mode) + OptionArguments(mode, f, nowMs);
    var ph, w := Positional(f.hashFile), WordlistArguments(f.groups.wordlists, f.wordlists);
    assert PositionalArguments(mode, f) == ph + w;
    assert Arguments(f, hashModes, nowMs) == x + PositionalArguments(mode, f);
    AppendInSteps(x, ph, w);
  }

  /** Outside the modes 3, 6 and 7 the mask has no effect. */
  lemma MaskOnlyInMaskModes(f: Form, m: string, hashModes: seq<ModeEntry>, nowMs: nat)
    requires AttackModeId(f.attackMode) !in {3, 6, 7}
    ensures Arguments(f.(mask := m), hashModes, nowMs) == Arguments(f, hashModes, nowMs)
  {
    var g := f.(mask := m);
    var mode := AttackModeId(f.attackMode);
    assert ModeArguments(mode, g.rules, g.passwordMin, g.passwordMax) == ModeArguments(mode, f.rules, f.passwordMin, f.passwordMax);
    SameOptions(mode, g, f, nowMs);
    assert PositionalArguments(mode, g) == PositionalArguments(mode, f);
    SameSections(g, f, hashModes, nowMs);
  }

  /** With the wordlist group disabled, the wordlist has no effect. */
  lemma WordlistsGatedByGroup(f: Form, items: seq<ListItem>, hashModes: seq<ModeEntry>, nowMs: nat)
    requires !f.groups.wordlists
    ensures Arguments(f.(wordlists := items), hashModes, nowMs) == Arguments(f, hashModes, nowMs)
  {
    var g := f.(wordlists := items);
    var mode := AttackModeId(f.attackMode);
    assert ModeArguments(mode, g.rules, g.passwordMin, g.passwordMax) == ModeArguments(mode, f.rules, f.passwordMin, f.passwordMax);
    SameOptions(mode, g, f, nowMs);
    assert WordlistArguments(g.groups.wordlists, g.wordlists) == WordlistArguments(f.groups.wordlists, f.wordlists);
    SameSections(g, f, hashModes, nowMs);
  }

  /** The example of a brute-force attack: the hash file and then the mask end the list. */
  lemma BruteForceEndsWithHashFileAndMask(f: Form, hashModes: seq<ModeEntry>, nowMs: nat)
    requires Consistent(f) && AttackModeId(f.attackMode) == 3
    requires f.hashFile != "" && f.mask != ""
    ensures exists before :: Arguments(f, hashModes, nowMs) == before + [f.hashFile, f.mask]
  {
    assert WordlistArguments(f.groups.wordlists, f.wordlists) == [];
    assert PositionalArguments(3, f) == [] + [f.hashFile, f.mask];
    var before := PositionalSplit(f, hashModes, nowMs, [], [f.hashFile, f.mask]);
  }

  // ---------------------------------------------------------------------------
  // The texts of checked wordlist items
  // ---------------------------------------------------------------------------

  /** CheckedTexts distributes over concatenation of item lists. */
  lemma {:induction false} CheckedTextsAppend(a: seq<ListItem>, b: seq<ListItem>)
    ensures CheckedTexts(a + b) == CheckedTexts(a) + CheckedTexts(b)
    decreases |b|
  {
    if b != [] {
      assert (a + b)[..|a + b| - 1] == a + b[..|b| - 1];
      CheckedTextsAppend(a, b[..|b| - 1]);
    } else {
      assert a + b == a;
    }
  }

  /** A text is emitted exactly when some checked item carries it. */
  lemma {:induction false} CheckedTextsMembership(items: seq<ListItem>, t: string)
    ensures t in CheckedTexts(items) <==> exists i :: 0 <= i < |items| && items[i].checked && items[i].text == t
  {
    if items != [] {
      var init := items[..|items| - 1];
      CheckedTextsMembership(init, t);
      if exists i :: 0 <= i < |init| && init[i].checked && init[i].text == t {
        var i :| 0 <= i < |init| && init[i].checked && init[i].text == t;
        assert items[i] == init[i];
      }
      if exists i :: 0 <= i < |items| && items[i].checked && items[i].text == t {
        var i :| 0 <= i < |items| && items[i].checked && items[i].text == t;
        if i < |init| {
          assert init[i] == items[i];
        }
      }
    }
  }

  /** Checked items are emitted in list order: an earlier checked item comes before a later one. */
  lemma CheckedTextsInOrder(items: seq<ListItem>, i: nat, j: nat)
    requires i < j < |items| && items[i].checked && items[j].checked
    ensures exists p, q :: 0 <= p < q < |CheckedTexts(items)|
              && CheckedTexts(items)[p] == items[i].text && CheckedTexts(items)[q] == items[j].text
  {
    var front := items[..j];
    CheckedTextsMembership(front, items[i].text);
    assert front[i] == items[i];
    var a := CheckedTexts(front);
    var p :| 0 <= p < |a| && a[p] == items[i].text;
    CheckedTextsSplitAt(items, j);
    EarlierThenLater(a, p, items[j].text, CheckedTexts(items[j + 1..]));
  }

  /** A checked item splits the checked texts into those before it, its own text, and those after it. */
  lemma CheckedTextsSplitAt(items: seq<ListItem>, j: nat)
    requires j < |items| && items[j].checked
    ensures CheckedTexts(items) == CheckedTexts(items[..j]) + [items[j].text] + CheckedTexts(items[j + 1..])
  {
    var front, x, back := items[..j], [items[j]], items[j + 1..];
    assert items == front + x + back;
    assert x[..|x| - 1] == [];
    assert CheckedTexts(x) == [items[j].text];
    CheckedTextsAppend(front, x);
    CheckedTextsAppend(front + x, back);
  }

  /** In `a + [y] + c`, the entries of `a` keep their places and `y` follows them. */
  lemma EarlierThenLater(a: seq<string>, p: nat, y: string, c: seq<string>)
    requires p < |a|
    ensures (a + [y] + c)[p] == a[p] && (a + [y] + c)[|a|] == y && |a| < |a + [y] + c|
  {
  }

  // ---------------------------------------------------------------------------
  // Custom charsets
  // ---------------------------------------------------------------------------

  /** With the custom-charset group disabled, the charsets have no effect. */
  lemma CharsetsGatedByGroup(f: Form, c: Charsets, hashModes: seq<ModeEntry>, nowMs: nat)
    requires !f.groups.customCharset
    ensures Arguments(f.(charsets := c), hashModes, nowMs) == Arguments(f, hashModes, nowMs)
  {
    var g := f.(charsets := c);
    var mode := AttackModeId(f.attackMode);
    assert CharsetArguments(g.groups.customCharset, g.charsets) == CharsetArguments(f.groups.customCharset, f.charsets);
    assert ModeArguments(mode, g.rules, g.passwordMin, g.passwordMax) == ModeArguments(mode, f.rules, f.passwordMin, f.passwordMax);
    SameOptions(mode, g, f, nowMs);
    SameSections(g, f, hashModes, nowMs);
  }

  /** With the charset group enabled, every active charset is passed under its own flag. */
  lemma CharsetsPassed(f: Form, hashModes: seq<ModeEntry>, nowMs: nat)
    requires f.groups.customCharset
    ensures var c := f.charsets;
            && (Active(c.custom1) ==> HasOption(Arguments(f, hashModes, nowMs), "--custom-charset1", c.custom1.text))
            && (Active(c.custom2) ==> HasOption(Arguments(f, hashModes, nowMs), "--custom-charset2", c.custom2.text))
            && (Active(c.custom3) ==> HasOption(Arguments(f, hashModes, nowMs), "--custom-charset3", c.custom3.text))
            && (Active(c.custom4) ==> HasOption(Arguments(f, hashModes, nowMs), "--custom-charset4", c.custom4.text))
  {
    var c := f.charsets;
    var c1, c2 := Paired(c.custom1, "--custom-charset1"), Paired(c.custom2, "--custom-charset2");
    var c3, c4 := Paired(c.custom3, "--custom-charset3"), Paired(c.custom4, "--custom-charset4");
    assert CharsetArguments(f.groups.customCharset, f.charsets) == c1 + c2 + c3 + c4;
    var mode := AttackModeId(f.attackMode);
    if Active(c.custom1) {
      var part := ["--custom-charset1", c.custom1.text];
      ContainsSelf(part);
      ContainsLeft(c1, c2, part);
      ContainsLeft(c1 + c2, c3, part);
      ContainsLeft(c1 + c2 + c3, c4, part);
      ContainedInOptions(mode, f, nowMs, part);
      ContainedInArguments(f, hashModes, nowMs, part);
    }
    if Active(c.custom2) {
      var part := ["--custom-charset2", c.custom2.text];
      ContainsSelf(part);
      ContainsRight(c1, c2, part);
      ContainsLeft(c1 + c2, c3, part);
      ContainsLeft(c1 + c2 + c3, c4, part);
      ContainedInOptions(mode, f, nowMs, part);
      ContainedInArguments(f, hashModes, nowMs, part);
    }
    if Active(c.custom3) {
      var part := ["--custom-charset3", c.custom3.text];
      ContainsSelf(part);
      ContainsRight(c1 + c2, c3, part);
      ContainsLeft(c1 + c2 + c3, c4, part);
      ContainedInOptions(mode, f, nowMs, part);
      ContainedInArguments(f, hashModes, nowMs, part);
    }
    if Active(c.custom4) {
      var part := ["--custom-charset4", c.custom4.text];
      ContainsSelf(part);
      ContainsRight(c1 + c2 + c3, c4, part);
      ContainedInOptions(mode, f, nowMs, part);
      ContainedInArguments(f, hashModes, nowMs, part);
    }
  }

  // ---------------------------------------------------------------------------
  // Attack modes and group boxes together
  // ---------------------------------------------------------------------------

  /** In the straight, combination and association modes no custom charset is ever passed. */
  lemma NoCharsetsOutsideMaskModes(f: Form, c: Charsets, hashModes: seq<ModeEntry>, nowMs: nat)
    requires Consistent(f) && AttackModeId(f.attackMode) in {0, 1, 9}
    ensures CharsetArguments(f.groups.customCharset, f.charsets) == []
    ensures Arguments(f.(charsets := c), hashModes, nowMs) == Arguments(f, hashModes, nowMs)
  {
    GroupsOfSelectableModes(f.attackMode);
    CharsetsGatedByGroup(f, c, hashModes, nowMs);
  }

  /**
    The association mode matches no case of the switch: every group is disabled, so
    nothing in any group box (wordlists, rules, charsets, mask) reaches the command line.
   */
  lemma AssociationIgnoresAllGroups(f: Form, items: seq<ListItem>, r: Rules, c: Charsets, m: string,
                                    hashModes: seq<ModeEntry>, nowMs: nat)
    requires Consistent(f) && AttackModeId(f.attackMode) == 9
    ensures WordlistArguments(f.groups.wordlists, f.wordlists) == [] && CharsetArguments(f.groups.customCharset, f.charsets) == [] && ModeArguments(9, f.rules, f.passwordMin, f.passwordMax) == []
    ensures Arguments(f.(wordlists := items, rules := r, charsets := c, mask := m), hashModes, nowMs)
            == Arguments(f, hashModes, nowMs)
  {
    var g := f.(wordlists := items, rules := r, charsets := c, mask := m);
    assert f.groups == Groups(false, false, false, false, false);
    assert ModeArguments(9, f.rules, f.passwordMin, f.passwordMax) == ModeArguments(9, g.rules, g.passwordMin, g.passwordMax) == [];
    assert CharsetArguments(f.groups.customCharset, f.charsets) == CharsetArguments(g.groups.customCharset, g.charsets) == [];
    SameOptions(9, g, f, nowMs);
    assert PositionalArguments(9, f) == PositionalArguments(9, g) by {
      assert WordlistArguments(f.groups.wordlists, f.wordlists) == [] == WordlistArguments(g.groups.wordlists, g.wordlists);
      assert MaskBeforeDict(9, f.mask) == "" == MaskBeforeDict(9, g.mask);
      assert MaskAfterDict(9, f.mask) == "" == MaskAfterDict(9, g.mask);
    }
    SameSections(g, f, hashModes, nowMs);
  }

  // ---------------------------------------------------------------------------
  // Defaults are omitted
  // ---------------------------------------------------------------------------

  /** Forms whose tuning blocks agree give the same list. */
  lemma SameTuning(f: Form, t: Tuning, hashModes: seq<ModeEntry>, nowMs: nat)
    requires TuningArguments(t) == TuningArguments(f.tuning)
    ensures Arguments(f.(tuning := t), hashModes, nowMs) == Arguments(f, hashModes, nowMs)
  {
    var g := f.(tuning := t);
    var mode := AttackModeId(f.attackMode);
    assert ModeArguments(mode, g.rules, g.passwordMin, g.passwordMax) == ModeArguments(mode, f.rules, f.passwordMin, f.passwordMax);
    SameOptions(mode, g, f, nowMs);
    SameSections(g, f, hashModes, nowMs);
  }

  /** A default value and an empty field give the same tuning block, and so the same list. */
  lemma DefaultsActAsEmpty(t: Tuning)
    ensures TuningArguments(t.(devices := "0")) == TuningArguments(t.(devices := ""))
    ensures TuningArguments(t.(accel := "8")) == TuningArguments(t.(accel := ""))
    ensures TuningArguments(t.(loops := "256")) == TuningArguments(t.(loops := ""))
    ensures TuningArguments(t.(watchdog := "90")) == TuningArguments(t.(watchdog := ""))
    ensures TuningArguments(t.(segment := "32")) == TuningArguments(t.(segment := ""))
  {
    assert NonDefault("--gpu-devices", "0", "0") == [] == NonDefault("--gpu-devices", "", "0");
    assert NonDefault("--gpu-accel", "8", "8") == [] == NonDefault("--gpu-accel", "", "8");
    assert NonDefault("--gpu-loops", "256", "256") == [] == NonDefault("--gpu-loops", "", "256");
    assert NonDefault("--gpu-watchdog", "90", "90") == [] == NonDefault("--gpu-watchdog", "", "90");
    assert NonDefault("--segment-size", "32", "32") == [] == NonDefault("--segment-size", "", "32");
  }

  /**
    Each tuning field away from its default is passed under its own flag with its own
    value; the outfile format is passed as the combo-box index plus one, and the async
    and username boxes as bare flags.
   */
  lemma TuningPassed(f: Form, hashModes: seq<ModeEntry>, nowMs: nat)
    ensures var args, t := Arguments(f, hashModes, nowMs), f.tuning;
            && (t.outfileFormat != 2 ==> HasOption(args, "--outfile-format", IntToString(t.outfileFormat + 1)))
            && (t.gpuAsync ==> Contains(args, ["--gpu-async"]))
            && (t.cpuAffinity != "" ==> HasOption(args, "--cpu-affinity", t.cpuAffinity))
            && (t.devices !in {"", "0"} ==> HasOption(args, "--gpu-devices", t.devices))
            && (t.accel !in {"", "8"} ==> HasOption(args, "--gpu-accel", t.accel))
            && (t.loops !in {"", "256"} ==> HasOption(args, "--gpu-loops", t.loops))
            && (t.watchdog !in {"", "90"} ==> HasOption(args, "--gpu-watchdog", t.watchdog))
            && (t.segment !in {"", "32"} ==> HasOption(args, "--segment-size", t.segment))
            && (f.ignoreUsername ==> Contains(args, ["--username"]))
  {
    var t := f.tuning;
    if t.outfileFormat != 2 {
      TuningFieldPassed(f, hashModes, nowMs, ["--outfile-format", IntToString(t.outfileFormat + 1)]);
    }
    if t.gpuAsync {
      TuningFieldPassed(f, hashModes, nowMs, ["--gpu-async"]);
    }
    if t.cpuAffinity != "" {
      TuningFieldPassed(f, hashModes, nowMs, ["--cpu-affinity", t.cpuAffinity]);
    }
    if t.devices !in {"", "0"} {
      TuningFieldPassed(f, hashModes, nowMs, ["--gpu-devices", t.devices]);
    }
    if t.accel !in {"", "8"} {
      TuningFieldPassed(f, hashModes, nowMs, ["--gpu-accel", t.accel]);
    }
    if t.loops !in {"", "256"} {
      TuningFieldPassed(f, hashModes, nowMs, ["--gpu-loops", t.loops]);
    }
    if t.watchdog !in {"", "90"} {
      TuningFieldPassed(f, hashModes, nowMs, ["--gpu-watchdog", t.watchdog]);
    }
    if t.segment !in {"", "32"} {
      TuningFieldPassed(f, hashModes, nowMs, ["--segment-size", t.segment]);
    }
    if f.ignoreUsername {
      var part := ["--username"];
      ContainsSelf(part);
      ContainedInOptions(AttackModeId(f.attackMode), f, nowMs, part);
      ContainedInArguments(f, hashModes, nowMs, part);
    }
  }

  /** A block of the tuning section that is all of `part` puts `part` in the list. */
  lemma TuningFieldPassed(f: Form, hashModes: seq<ModeEntry>, nowMs: nat, part: seq<string>)
    requires var t := f.tuning;
             || (t.outfileFormat != 2 && part == ["--outfile-format", IntToString(t.outfileFormat + 1)])
             || part == Flag(t.gpuAsync, "--gpu-async") != []
             || part == NonDefault("--cpu-affinity", t.cpuAffinity, "") != []
             || part == NonDefault("--gpu-devices", t.devices, "0") != []
             || part == NonDefault("--gpu-accel", t.accel, "8") != []
             || part == NonDefault("--gpu-loops", t.loops, "256") != []
             || part == NonDefault("--gpu-watchdog", t.watchdog, "90") != []
             || part == NonDefault("--segment-size", t.segment, "32") != []
    ensures Contains(Arguments(f, hashModes, nowMs), part)
  {
    ContainsSelf(part);
    ContainedInTuning(f.tuning, part);
    ContainedInOptions(AttackModeId(f.attackMode), f, nowMs, part);
    ContainedInArguments(f, hashModes, nowMs, part);
  }

  // ---------------------------------------------------------------------------
  // Outfile
  // ---------------------------------------------------------------------------

  /** "<hash>", in any letter case, becomes the base name of the hash file. */
  lemma HashPlaceholderReplaced(hashFile: string, nowMs: nat)
    ensures OutfileName("<hash>.out", hashFile, nowMs) == FileName(hashFile) + ".out"
    ensures OutfileName("<HASH>.out", hashFile, nowMs) == FileName(hashFile) + ".out"
  {
    HashOutCases(NatToString(nowMs / 1000), FileName(hashFile));
  }

  lemma HashOutCases(stamp: string, name: string)
    ensures ReplaceAll(ReplaceAll("<hash>.out", "<unixtime>", stamp, false), "<hash>", name, true) == name + ".out"
    ensures ReplaceAll(ReplaceAll("<HASH>.out", "<unixtime>", stamp, false), "<hash>", name, true) == name + ".out"
  {
    HashOutReplaced("<hash>.out", stamp, name);
    assert MatchesAt("<HASH>.out", "<hash>", true);
    HashOutReplaced("<HASH>.out", stamp, name);
  }

  /** Both replacements on a ten-character name made of "<hash>", in some letter case, and ".out". */
  lemma HashOutReplaced(s: string, stamp: string, name: string)
    requires |s| == 10 && MatchesAt(s, "<hash>", true) && s[6..] == ".out"
    ensures ReplaceAll(ReplaceAll(s, "<unixtime>", stamp, false), "<hash>", name, true) == name + ".out"
  {
    assert CharsMatch(s[1], 'h', true);
    assert !MatchesAt(s, "<unixtime>", false);
    assert ReplaceAll(s[1..], "<unixtime>", stamp, false) == s[1..];
    assert [s[0]] + s[1..] == s;
  }

  /** "<unixtime>" becomes the clock reading in whole seconds; that match is case-sensitive. */
  lemma UnixtimePlaceholderReplaced(hashFile: string, nowMs: nat)
    ensures OutfileName("<unixtime>", hashFile, nowMs) == NatToString(nowMs / 1000)
    ensures OutfileName("<UNIXTIME>", hashFile, nowMs) == "<UNIXTIME>"
  {
    var stamp := NatToString(nowMs / 1000);
    StampWithoutPlaceholder(nowMs);
    UnixtimeLower(stamp, FileName(hashFile));
    UnixtimeUpper(stamp, FileName(hashFile));
  }

  lemma UnixtimeLower(stamp: string, name: string)
    requires '<' !in stamp
    ensures ReplaceAll(ReplaceAll("<unixtime>", "<unixtime>", stamp, false), "<hash>", name, true) == stamp
  {
    var s := "<unixtime>";
    assert MatchesAt(s, "<unixtime>", false);
    assert s[10..] == [];
    assert ReplaceAll(s[10..], "<unixtime>", stamp, false) == [];
    assert ReplaceAll(s, "<unixtime>", stamp, false) == stamp;
    FirstCharacterAbsent(stamp, "<hash>", true);
    ReplaceAllWithoutOccurrence(stamp, "<hash>", name, true);
  }

  lemma UnixtimeUpper(stamp: string, name: string)
    ensures ReplaceAll(ReplaceAll("<UNIXTIME>", "<unixtime>", stamp, false), "<hash>", name, true) == "<UNIXTIME>"
  {
    var upper := "<UNIXTIME>";
    assert upper[1] != "<unixtime>"[1];
    assert ReplaceAll(upper[1..], "<unixtime>", stamp, false) == upper[1..];
    assert [upper[0]] + upper[1..] == upper;
    assert ReplaceAll(upper, "<unixtime>", stamp, false) == upper;
    assert FoldCase(upper[1]) != FoldCase("<hash>"[1]);
    assert '<' !in upper[1..];
    FirstCharacterAbsent(upper[1..], "<hash>", true);
    ReplaceAllWithoutOccurrence(upper[1..], "<hash>", name, true);
  }

  /**
    A placeholder inside a longer name: "<hash>", in any letter case, between texts
    without '<' becomes the base name of the hash file, and the texts around it stay.
   */
  lemma HashPlaceholderInName(p: string, token: string, q: string, hashFile: string, nowMs: nat)
    requires '<' !in p && '<' !in q
    requires |token| == 6 && MatchesAt(token, "<hash>", true)
    ensures OutfileName(p + token + q, hashFile, nowMs) == p + FileName(hashFile) + q
  {
    HashInName(p, token, q, NatToString(nowMs / 1000), FileName(hashFile));
  }

  /** "<unixtime>" between texts without '<' becomes the clock in whole seconds. */
  lemma UnixtimePlaceholderInName(p: string, q: string, hashFile: string, nowMs: nat)
    requires '<' !in p && '<' !in q
    ensures OutfileName(p + "<unixtime>" + q, hashFile, nowMs) == p + NatToString(nowMs / 1000) + q
  {
    StampWithoutPlaceholder(nowMs);
    UnixtimeInName(p, q, NatToString(nowMs / 1000), FileName(hashFile));
  }

  /** Both placeholders in one name, such as "out/<hash>-<unixtime>.txt", are replaced. */
  lemma BothPlaceholdersInName(p: string, token: string, m: string, q: string, hashFile: string, nowMs: nat)
    requires '<' !in p && '<' !in m && '<' !in q
    requires |token| == 6 && MatchesAt(token, "<hash>", true)
    ensures OutfileName(p + token + m + "<unixtime>" + q, hashFile, nowMs)
            == p + FileName(hashFile) + m + NatToString(nowMs / 1000) + q
  {
    StampWithoutPlaceholder(nowMs);
    BothInName(p, token, m, q, NatToString(nowMs / 1000), FileName(hashFile));
  }

  /** The clock reading in seconds is all digits, so it holds no '<'. */
  lemma StampWithoutPlaceholder(nowMs: nat)
    ensures '<' !in NatToString(nowMs / 1000)
  {
    var stamp := NatToString(nowMs / 1000);
    forall i | 0 <= i < |stamp| ensures stamp[i] != '<' {
      assert IsDigit(stamp[i]);
    }
  }

  /** After its '<', a "<hash>" token in any letter case holds no '<' and does not start "unixtime>". */
  lemma HashTokenTail(token: string)
    requires |token| == 6 && MatchesAt(token, "<hash>", true)
    ensures '<' !in token[1..] && token[1] != 'u'
  {
    forall i | 1 <= i < 6 ensures token[i] != '<' {
      assert CharsMatch(token[i], "<hash>"[i], true);
    }
    assert CharsMatch(token[1], 'h', true);
  }

  /** "<unixtime>" does not match at a "<hash>" token: the first replacement leaves it. */
  lemma HashTokenSkipped(token: string, q: string, stamp: string)
    requires '<' !in q && |token| == 6 && MatchesAt(token, "<hash>", true)
    ensures ReplaceAll(token + q, "<unixtime>", stamp, false) == token + q
  {
    var s := token + q;
    HashTokenTail(token);
    assert s[1..] == token[1..] + q;
    FirstCharacterAbsent(s[1..], "<unixtime>", false);
    ReplaceAllWithoutOccurrence(s[1..], "<unixtime>", stamp, false);
    if |s| >= 10 {
      assert s[1] == token[1];
      ReplaceAllSkipsFirst(s, "<unixtime>", stamp, false);
    }
    assert [s[0]] + s[1..] == s;
  }

  lemma HashInName(p: string, token: string, q: string, stamp: string, name: string)
    requires '<' !in p && '<' !in q
    requires |token| == 6 && MatchesAt(token, "<hash>", true)
    ensures ReplaceAll(ReplaceAll(p + token + q, "<unixtime>", stamp, false), "<hash>", name, true) == p + name + q
  {
    HashTokenSkipped(token, q, stamp);
    ReplaceAllAfterPrefix(p, token + q, "<unixtime>", stamp, false);
    assert p + token + q == p + (token + q);
    ReplaceAllSoleOccurrence(p, token, q, "<hash>", name, true);
  }

  lemma UnixtimeInName(p: string, q: string, stamp: string, name: string)
    requires '<' !in p && '<' !in q && '<' !in stamp
    ensures ReplaceAll(ReplaceAll(p + "<unixtime>" + q, "<unixtime>", stamp, false), "<hash>", name, true) == p + stamp + q
  {
    assert MatchesAt("<unixtime>", "<unixtime>", false);
    ReplaceAllSoleOccurrence(p, "<unixtime>", q, "<unixtime>", stamp, false);
    assert '<' !in p + stamp + q;
    FirstCharacterAbsent(p + stamp + q, "<hash>", true);
    ReplaceAllWithoutOccurrence(p + stamp + q, "<hash>", name, true);
  }

  lemma BothInName(p: string, token: string, m: string, q: string, stamp: string, name: string)
    requires '<' !in p && '<' !in m && '<' !in q && '<' !in stamp
    requires |token| == 6 && MatchesAt(token, "<hash>", true)
    ensures ReplaceAll(ReplaceAll(p + token + m + "<unixtime>" + q, "<unixtime>", stamp, false), "<hash>", name, true)
            == p + name + m + stamp + q
  {
    HashTokenTail(token);
    TwoPlaceholders(p, token, m, q, "<unixtime>", "<hash>", stamp, name);
  }

  /** Two placeholders sharing their first character, the second matched case-sensitively, each replaced once. */
  lemma TwoPlaceholders(p: string, token: string, m: string, q: string, first: string, second: string, stamp: string, name: string)
    requires StartsWithNonLetter(first) && StartsWithNonLetter(second) && first[0] == second[0]
    requires first[0] !in p && first[0] !in m && first[0] !in q && first[0] !in stamp
    requires |token| == |second| && MatchesAt(token, second, true)
    requires |first| >= 2 && |token| >= 2 && token[1] != first[1] && first[0] !in token[1..]
    ensures ReplaceAll(ReplaceAll(p + token + m + first + q, first, stamp, false), second, name, true)
            == p + name + m + stamp + q
  {
    FirstOfTwoPlaceholders(p, token, m, q, first, stamp);
    assert first[0] !in m + stamp + q;
    ReplaceAllSoleOccurrence(p, token, m + stamp + q, second, name, true);
    AppendInSteps(p + name, m, stamp);
    AppendInSteps(p + name, m + stamp, q);
  }

  lemma FirstOfTwoPlaceholders(p: string, token: string, m: string, q: string, first: string, stamp: string)
    requires StartsWithNonLetter(first) && first[0] !in p && first[0] !in m && first[0] !in q
    requires |first| >= 2 && |token| >= 2 && token[1] != first[1] && first[0] !in token[1..]
    ensures ReplaceAll(p + token + m + first + q, first, stamp, false) == p + token + (m + stamp + q)
  {
    AppendInSteps(p, token, m);
    AppendInSteps(p, token + m, first);
    AppendInSteps(p, token + m + first, q);
    ReplaceAllAfterPrefix(p, token + m + first + q, first, stamp, false);
    ReplaceAllLaterOccurrence(token, m, q, first, stamp);
    AppendInSteps(token, m, stamp);
    AppendInSteps(token, m + stamp, q);
    AppendInSteps(p, token, m + stamp + q);
  }

  /** An active outfile is passed as `--outfile` followed by its name with the placeholders replaced. */
  lemma OutfilePassed(f: Form, hashModes: seq<ModeEntry>, nowMs: nat)
    requires Active(f.outfile)
    ensures HasOption(Arguments(f, hashModes, nowMs), "--outfile", OutfileName(f.outfile.text, f.hashFile, nowMs))
  {
    var part := ["--outfile", OutfileName(f.outfile.text, f.hashFile, nowMs)];
    ContainsSelf(part);
    ContainedInOptions(AttackModeId(f.attackMode), f, nowMs, part);
    ContainedInArguments(f, hashModes, nowMs, part);
  }

  /** Proposing the default outfile again, once it has been proposed, changes nothing. */
  lemma DefaultOutfileIdempotent(f: Form)
    ensures WithDefaultOutfile(WithDefaultOutfile(f)) == WithDefaultOutfile(f)
  {
  }

  /** With the outfile box checked, the proposed outfile of a plain hash file name is passed as is. */
  lemma DefaultOutfilePassed(f: Form, hashModes: seq<ModeEntry>, nowMs: nat)
    requires f.outfile.checked && f.hashFile != "" && '<' !in f.hashFile
    ensures HasOption(Arguments(WithDefaultOutfile(f), hashModes, nowMs), "--outfile", f.hashFile + ".out")
  {
    var g := WithDefaultOutfile(f);
    var name := f.hashFile + ".out";
    assert '<' !in name by {
      assert forall i :: 0 <= i < |f.hashFile| ==> name[i] == f.hashFile[i];
      assert name[|f.hashFile|..] == ".out";
    }
    var part := ["--outfile", name];
    assert OutfileArguments(g.outfile, g.hashFile, nowMs) == part;
    ContainsSelf(part);
    ContainedInOptions(AttackModeId(g.attackMode), g, nowMs, part);
    ContainedInArguments(g, hashModes, nowMs, part);
  }
}
