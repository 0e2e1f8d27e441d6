/**
  The wordlist list of the main window: what adding wordlists does to it, what
  moving the current row up or down does, and the QListWidget primitives
  (takeItem, insertItem, setCurrentRow) the move buttons are built from.
 */
module Wordlist {
  import opened QtCore

  /** The text a file dialog's answer compares as: a null string equals the empty one. */
  function TextOf(name: Option<string>): string {
    if name.Some? then name.value else ""
  }

  predicate HasText(items: seq<ListItem>, t: string) {
    exists j :: 0 <= j < |items| && items[j].text == t
  }

  /** No two rows show the same text. */
  predicate UniqueTexts(items: seq<ListItem>) {
    forall i, j :: 0 <= i < j < |items| ==> items[i].text != items[j].text
  }

  // ---------------------------------------------------------------------------
  // Adding wordlists
  // ---------------------------------------------------------------------------

  /**
    add_wordlist_item for one name: the name is appended as a checked item exactly
    when it is not null and no row shows it yet; the existing rows never change.
   */
  function WithWordlist(items: seq<ListItem>, name: Option<string>): (r: seq<ListItem>)
    ensures |items| <= |r| <= |items| + 1 && r[..|items|] == items
    ensures |r| == |items| + 1 <==> name.Some? && !HasText(items, name.value)
    ensures |r| == |items| + 1 ==> r[|items|] == ListItem(name.value, true)
  {
    if name.Some? && !HasText(items, name.value) then items + [ListItem(name.value, true)] else items
  }

  /** add_wordlist_item for a list of names: each name in turn, against the rows added so far. */
  function WithWordlists(items: seq<ListItem>, names: seq<Option<string>>): (r: seq<ListItem>)
    ensures |items| <= |r| <= |items| + |names| && r[..|items|] == items
    ensures forall j :: |items| <= j < |r| ==> r[j].checked && Some(r[j].text) in names
  {
    if names == [] then items
    else
      var before := WithWordlists(items, names[..|names| - 1]);
      var r := WithWordlist(before, names[|names| - 1]);
      assert r[..|items|] == before[..|items|];
      forall j | |items| <= j < |r|
        ensures r[j].checked && Some(r[j].text) in names
      {
        if j < |before| {
          assert r[j] == before[j];
          assert Some(before[j].text) in names[..|names| - 1];
        }
      }
      r
  }

  /** The single-name overload is the list overload on a one-element list. */
  lemma OneNameIsAList(items: seq<ListItem>, name: Option<string>)
    ensures WithWordlists(items, [name]) == WithWordlist(items, name)
  {
    assert [name][..0] == [];
  }

  /** After adding, a text is shown exactly when it was shown before or was one of the non-null names. */
  lemma {:induction false} WithWordlistsTexts(items: seq<ListItem>, names: seq<Option<string>>, t: string)
    ensures HasText(WithWordlists(items, names), t) <==> HasText(items, t) || Some(t) in names
  {
    if names != [] {
      var init := names[..|names| - 1];
      var before := WithWordlists(items, init);
      var r := WithWordlists(items, names);
      WithWordlistsTexts(items, init, t);
      if HasText(before, t) {
        var j :| 0 <= j < |before| && before[j].text == t;
        assert r[j] == before[j];
      }
      if Some(t) in names && Some(t) !in init {
        assert names[|names| - 1] == Some(t);
        if !HasText(before, t) {
          assert r[|before|].text == t;
        }
      }
      if HasText(r, t) {
        var j :| 0 <= j < |r| && r[j].text == t;
        if j < |before| {
          assert before[j] == r[j];
        } else {
          assert names[|names| - 1] == Some(t);
        }
      }
      if Some(t) in init {
        assert Some(t) in names;
      }
    }
  }

  /** Adding never creates two rows with the same text. */
  lemma {:induction false} WithWordlistsKeepsUnique(items: seq<ListItem>, names: seq<Option<string>>)
    requires UniqueTexts(items)
    ensures UniqueTexts(WithWordlists(items, names))
  {
    if names != [] {
      var before := WithWordlists(items, names[..|names| - 1]);
      WithWordlistsKeepsUnique(items, names[..|names| - 1]);
      var r := WithWordlist(before, names[|names| - 1]);
      if |r| == |before| + 1 {
        forall i, j | 0 <= i < j < |r|
          ensures r[i].text != r[j].text
        {
          if j == |before| {
            assert r[i] == before[i];
          } else {
            assert r[i] == before[i] && r[j] == before[j];
          }
        }
      }
    }
  }

  /** Names that are all shown already, or null, add nothing. */
  lemma {:induction false} WithWordlistsPresent(items: seq<ListItem>, names: seq<Option<string>>)
    requires forall n :: n in names ==> n.None? || HasText(items, n.value)
    ensures WithWordlists(items, names) == items
  {
    if names != [] {
      assert forall n :: n in names[..|names| - 1] ==> n in names;
      WithWordlistsPresent(items, names[..|names| - 1]);
      assert names[|names| - 1] in names;
    }
  }

  /** Adding the same names a second time changes nothing. */
  lemma WithWordlistsIdempotent(items: seq<ListItem>, names: seq<Option<string>>)
    ensures WithWordlists(WithWordlists(items, names), names) == WithWordlists(items, names)
  {
    var r := WithWordlists(items, names);
    forall n | n in names && n.Some?
      ensures HasText(r, n.value)
    {
      WithWordlistsTexts(items, names, n.value);
    }
    WithWordlistsPresent(r, names);
  }

  // ---------------------------------------------------------------------------
  // The QListWidget primitives
  // ---------------------------------------------------------------------------

  /** QListWidget::takeItem: removes and returns the row's item, or returns null for a row out of range. */
  function TakeItem(items: seq<ListItem>, row: int): (r: (Option<ListItem>, seq<ListItem>))
    ensures 0 <= row < |items| ==> r.0 == Some(items[row]) && |r.1| == |items| - 1
    ensures !(0 <= row < |items|) ==> r == (None, items)
  {
    if 0 <= row < |items| then (Some(items[row]), items[..row] + items[row + 1..]) else (None, items)
  }

  /** QListWidget::insertItem: a null item is ignored; the row is clamped to the list. */
  function InsertItem(items: seq<ListItem>, row: int, item: Option<ListItem>): (r: seq<ListItem>)
    ensures item.None? ==> r == items
    ensures item.Some? ==> |r| == |items| + 1
    ensures item.Some? && 0 <= row <= |items| ==> r[row] == item.value
  {
    if item.None? then items
    else
      var at := if row < 0 then 0 else if row > |items| then |items| else row;
      items[..at] + [item.value] + items[at..]
  }

  /** QListWidget::setCurrentRow: a row out of range leaves no current row. */
  function SetCurrentRow(items: seq<ListItem>, row: int): (current: int)
    ensures -1 <= current < |items|
    ensures 0 <= row < |items| ==> current == row
  {
    if 0 <= row < |items| then row else -1
  }

  // ---------------------------------------------------------------------------
  // Moving the current row
  // ---------------------------------------------------------------------------

  /** The rows together with the current row, -1 when there is none. */
  datatype Selection = Selection(items: seq<ListItem>, row: int)

  predicate ValidSelection(s: Selection) {
    -1 <= s.row < |s.items|
  }

  /** The rows with the items at `i` and `j` exchanged. */
  function Swap(items: seq<ListItem>, i: nat, j: nat): (r: seq<ListItem>)
    requires i < |items| && j < |items|
    ensures |r| == |items| && r[i] == items[j] && r[j] == items[i]
    ensures forall k :: 0 <= k < |items| && k != i && k != j ==> r[k] == items[k]
  {
    items[i := items[j]][j := items[i]]
  }

  /** Exchanging two rows keeps the same items. */
  lemma SwapKeepsItems(items: seq<ListItem>, i: nat, j: nat)
    requires i < |items| && j < |items|
    ensures multiset(Swap(items, i, j)) == multiset(items)
  {
  }

  /**
    The up button: the current item changes places with the one above it and stays
    current; at the top row, or with no current row, nothing changes.
   */
  function MoveUp(s: Selection): (r: Selection)
    ensures ValidSelection(s) ==> ValidSelection(r)
    ensures s.row <= 0 || s.row >= |s.items| ==> r == s
    ensures 0 < s.row < |s.items| ==> r.row == s.row - 1 && r.items[r.row] == s.items[s.row]
  {
    if 0 < s.row < |s.items| then Selection(Swap(s.items, s.row - 1, s.row), s.row - 1) else s
  }

  /**
    The down button: the current item changes places with the one below it and stays
    current; at the bottom row nothing changes, and with no current row the first
    row becomes current while nothing moves.
   */
  function MoveDown(s: Selection): (r: Selection)
    ensures ValidSelection(s) ==> ValidSelection(r)
    ensures s.row >= |s.items| - 1 ==> r == s
    ensures 0 <= s.row < |s.items| - 1 ==> r.row == s.row + 1 && r.items[r.row] == s.items[s.row]
    ensures s.row == -1 && s.items != [] ==> r == Selection(s.items, 0)
  {
    if 0 <= s.row < |s.items| - 1 then Selection(Swap(s.items, s.row, s.row + 1), s.row + 1)
    else if s.row == -1 && s.items != [] then Selection(s.items, 0)
    else s
  }

  /** Moving an item down and then up again restores the list and the current row. */
  lemma MoveDownThenUp(s: Selection)
    requires 0 <= s.row < |s.items| - 1
    ensures MoveUp(MoveDown(s)) == s
  {
    assert MoveUp(MoveDown(s)).items == s.items;
  }

  /** Moving an item up and then down again restores the list and the current row. */
  lemma MoveUpThenDown(s: Selection)
    requires 0 < s.row < |s.items|
    ensures MoveDown(MoveUp(s)) == s
  {
    assert MoveDown(MoveUp(s)).items == s.items;
  }

  /** Exchanging two rows never makes two rows show the same text. */
  lemma SwapKeepsUnique(items: seq<ListItem>, i: nat, j: nat)
    requires i < |items| && j < |items| && UniqueTexts(items)
    ensures UniqueTexts(Swap(items, i, j))
  {
    var r := Swap(items, i, j);
    forall a, b | 0 <= a < b < |r|
      ensures r[a].text != r[b].text
    {
      var pa := if a == i then j else if a == j then i else a;
      var pb := if b == i then j else if b == j then i else b;
      assert r[a] == items[pa] && r[b] == items[pb];
      assert pa != pb;
    }
  }

  /** Moving up never makes two rows show the same text. */
  lemma MoveUpKeepsUnique(s: Selection)
    requires UniqueTexts(s.items)
    ensures UniqueTexts(MoveUp(s).items)
  {
    if 0 < s.row < |s.items| {
      SwapKeepsUnique(s.items, s.row - 1, s.row);
      assert MoveUp(s).items == Swap(s.items, s.row - 1, s.row);
    } else {
      assert MoveUp(s) == s;
    }
  }

  /** Moving down never makes two rows show the same text. */
  lemma MoveDownKeepsUnique(s: Selection)
    requires UniqueTexts(s.items)
    ensures UniqueTexts(MoveDown(s).items)
  {
    if 0 <= s.row < |s.items| - 1 {
      SwapKeepsUnique(s.items, s.row, s.row + 1);
      assert MoveDown(s).items == Swap(s.items, s.row, s.row + 1);
    } else {
      assert MoveDown(s).items == s.items;
    }
  }

  /** Taking the current item and inserting it one row up is the exchange with its upper neighbour. */
  lemma TakeInsertUp(items: seq<ListItem>, row: nat)
    requires 0 < row < |items|
    ensures var (item, rest) := TakeItem(items, row);
            InsertItem(rest, row - 1, item) == Swap(items, row - 1, row)
  {
    var rest := items[..row] + items[row + 1..];
    var r := InsertItem(rest, row - 1, Some(items[row]));
    assert r == rest[..row - 1] + [items[row]] + rest[row - 1..];
    assert |r| == |items|;
    forall k | 0 <= k < |items|
      ensures r[k] == Swap(items, row - 1, row)[k]
    {
    }
  }

  /** Taking the current item and inserting it one row down is the exchange with its lower neighbour. */
  lemma TakeInsertDown(items: seq<ListItem>, row: nat)
    requires row + 1 < |items|
    ensures var (item, rest) := TakeItem(items, row);
            InsertItem(rest, row + 1, item) == Swap(items, row, row + 1)
  {
    var rest := items[..row] + items[row + 1..];
    var r := InsertItem(rest, row + 1, Some(items[row]));
    assert r == rest[..row + 1] + [items[row]] + rest[row + 1..];
    assert |r| == |items|;
    forall k | 0 <= k < |items|
      ensures r[k] == Swap(items, row, row + 1)[k]
    {
    }
  }

  /**
    The up button as the main window performs it: take the current item, insert it
    one row higher, make that row current. Below the top row this is MoveUp.
   */
  lemma MoveUpByTakeAndInsert(items: seq<ListItem>, row: int, taken: (Option<ListItem>, seq<ListItem>),
                              moved: seq<ListItem>, current: int)
    requires -1 <= row < |items| && row != 0
    requires taken == TakeItem(items, row)
    requires moved == InsertItem(taken.1, row - 1, taken.0)
    requires current == SetCurrentRow(moved, row - 1)
    ensures Selection(moved, current) == MoveUp(Selection(items, row))
  {
    if row > 0 {
      TakeInsertUp(items, row);
    }
  }

  /**
    The down button as the main window performs it: take the current item, insert
    it one row lower, make that row current. Above the bottom row this is MoveDown.
   */
  lemma MoveDownByTakeAndInsert(items: seq<ListItem>, row: int, taken: (Option<ListItem>, seq<ListItem>),
                                moved: seq<ListItem>, current: int)
    requires -1 <= row < |items| - 1
    requires taken == TakeItem(items, row)
    requires moved == InsertItem(taken.1, row + 1, taken.0)
    requires current == SetCurrentRow(moved, row + 1)
    ensures Selection(moved, current) == MoveDown(Selection(items, row))
  {
    if row >= 0 {
      TakeInsertDown(items, row);
    }
  }

  /** Moving up keeps the same items, only their order changes. */
  lemma MoveUpKeepsItems(s: Selection)
    ensures multiset(MoveUp(s).items) == multiset(s.items)
  {
    if 0 < s.row < |s.items| {
      SwapKeepsItems(s.items, s.row - 1, s.row);
    }
  }

  /** Moving down keeps the same items, only their order changes. */
  lemma MoveDownKeepsItems(s: Selection)
    ensures multiset(MoveDown(s).items) == multiset(s.items)
  {
    if 0 <= s.row < |s.items| - 1 {
      SwapKeepsItems(s.items, s.row, s.row + 1);
    }
  }
}
