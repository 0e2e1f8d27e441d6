/**
  The attack-mode and hash-mode tables of the main window (QMap<quint32, QString>
  from mode id to combo-box text) and the attack-mode switch that decides which
  group boxes of the form are enabled.
 */
module AttackModes {

  /** One entry of a mode table: the id hashcat knows and the text the combo box shows. */
  datatype ModeEntry = ModeEntry(key: nat, text: string)

  /** A QMap lists its entries in ascending key order; a table is given in that order. */
  predicate KeysAscending(table: seq<ModeEntry>) {
    forall i, j :: 0 <= i < j < |table| ==> table[i].key < table[j].key
  }

  /** The attack modes the main window offers, in key order. */
  const AttackModeTable: seq<ModeEntry> := [
    ModeEntry(0, "Straight"),
    ModeEntry(1, "Combination"),
    ModeEntry(3, "Brute-force"),
    ModeEntry(6, "Hybrid Wordlist + Mask"),
    ModeEntry(7, "Hybrid Mask + Wordlist"),
    ModeEntry(9, "Association")
  ]

  /** The ids a selection of the attack-mode combo box can produce. */
  const SelectableAttackModes: set<nat> := {0, 1, 3, 6, 7, 9}

  /** No two entries of a table show the same text. */
  predicate DistinctTexts(table: seq<ModeEntry>) {
    forall i, j :: 0 <= i < j < |table| ==> table[i].text != table[j].text
  }

  /**
    QMap::key(value): the key of the first entry, in table order, whose text is
    `text`; 0 (a default-constructed key) when no entry has that text.
   */
  function KeyOf(table: seq<ModeEntry>, text: string): (k: nat)
    ensures (forall i :: 0 <= i < |table| ==> table[i].text != text) ==> k == 0
    ensures k == 0 || exists j :: 0 <= j < |table| && table[j].key == k
  {
    if table == [] then 0
    else if table[0].text == text then table[0].key
    else
      var k := KeyOf(table[1..], text);
      assert k != 0 ==> exists j :: 0 <= j < |table| && table[j].key == k by {
        if k != 0 {
          var j :| 0 <= j < |table[1..]| && table[1..][j].key == k;
          assert table[j + 1].key == k;
        }
      }
      k
  }

  /** The first entry showing a text decides the key: no earlier entry shows it. */
  lemma {:induction false} KeyOfFirstMatch(table: seq<ModeEntry>, i: nat)
    requires i < |table|
    requires forall j :: 0 <= j < i ==> table[j].text != table[i].text
    ensures KeyOf(table, table[i].text) == table[i].key
  {
    if i > 0 {
      KeyOfFirstMatch(table[1..], i - 1);
    }
  }

  /** The attack-mode table is listed in ascending key order, as a QMap keeps it. */
  lemma AttackModeTableAscending()
    ensures KeysAscending(AttackModeTable)
  {
  }

  /**
    In a table kept in ascending key order, QMap::key(value) gives the smallest key
    among the entries showing the text.
   */
  lemma {:induction false} KeyOfSmallest(table: seq<ModeEntry>, i: nat)
    requires KeysAscending(table) && i < |table|
    ensures KeyOf(table, table[i].text) <= table[i].key
    ensures exists j :: 0 <= j <= i && table[j].text == table[i].text && KeyOf(table, table[i].text) == table[j].key
  {
    if table[0].text != table[i].text {
      assert KeysAscending(table[1..]);
      KeyOfSmallest(table[1..], i - 1);
      var j :| 0 <= j <= i - 1 && table[1..][j].text == table[i].text && KeyOf(table[1..], table[i].text) == table[1..][j].key;
      assert table[j + 1] == table[1..][j];
    }
  }

  /** With distinct texts, looking up the text of any entry gives back that entry's key. */
  lemma KeyOfEntry(table: seq<ModeEntry>, i: nat)
    requires DistinctTexts(table)
    requires i < |table|
    ensures KeyOf(table, table[i].text) == table[i].key
  {
    KeyOfFirstMatch(table, i);
  }

  /** The attack mode the main window works with: the key of the combo box's current text. */
  function AttackModeId(currentText: string): nat {
    KeyOf(AttackModeTable, currentText)
  }

  /** Every text, listed or not, yields one of the selectable modes; mode 4 never arises. */
  lemma AttackModeIdSelectable(currentText: string)
    ensures AttackModeId(currentText) in SelectableAttackModes
  {
    var t := AttackModeTable;
    var k := AttackModeId(currentText);
    if k != 0 {
      var j :| 0 <= j < |t| && t[j].key == k;
      assert t[j] in t;
    }
  }

  /** Choosing the i-th combo-box entry selects exactly the i-th mode of the table. */
  lemma AttackModeIdOfEntry(i: nat)
    requires i < |AttackModeTable|
    ensures AttackModeId(AttackModeTable[i].text) == AttackModeTable[i].key
  {
    var t := AttackModeTable;
    assert t[0].text[0] == 'S' && t[1].text[1] == 'o' && t[2].text[1] == 'r'
        && t[3].text[7] == 'W' && t[4].text[7] == 'M' && t[5].text[0] == 'A';
    assert |t[0].text| == 8 && |t[1].text| == 11 && |t[2].text| == 11
        && |t[3].text| == 22 && |t[4].text| == 22 && |t[5].text| == 11;
    assert DistinctTexts(t);
    KeyOfEntry(t, i);
  }

  /** Which of the form's group boxes are enabled. */
  datatype Groups = Groups(wordlists: bool, rules: bool, password: bool, customCharset: bool, mask: bool)

  /**
    update_view_attack_mode: the switch on the attack mode. The custom-charset and
    the mask group share one flag; a mode that no case names enables no group.
   */
  function ViewFor(mode: int): (g: Groups)
    ensures g.customCharset == g.mask
    ensures !(g.rules && g.password)
  {
    var (wordlists, rules, password, mask) :=
      match mode
      case 0 => (true, true, false, false)      // Straight
      case 1 => (true, false, false, false)     // Combination
      case 3 => (false, false, false, true)     // Brute-force
      case 4 => (true, false, true, false)      // Permutation
      case 6 => (true, false, false, true)      // Hybrid wordlist + mask
      case 7 => (true, false, false, true)      // Hybrid mask + wordlist
      case _ => (false, false, false, false);
    Groups(wordlists, rules, password, mask, mask)
  }

  /** What each selectable attack mode enables, read back as conditions on the mode. */
  lemma GroupsOfSelectableModes(currentText: string)
    ensures var mode := AttackModeId(currentText);
            var g := ViewFor(mode);
            && (g.wordlists <==> mode in {0, 1, 6, 7})
            && (g.rules <==> mode == 0)
            && !g.password
            && (g.customCharset <==> mode in {3, 6, 7})
            && (g.mask <==> mode in {3, 6, 7})
            && (mode == 9 ==> g == Groups(false, false, false, false, false))
  {
    AttackModeIdSelectable(currentText);
  }
}
