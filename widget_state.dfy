/**
  The widget state a profile holds: the serializable child widgets of a window,
  the JSON object `widgetToJson` builds from them, the state `jsonToWidget`
  restores from such an object, and the profile file's root object.
 */
module WidgetState {
  import opened QtCore
  import opened JsonValues

  /**
    The child widgets the serializer looks at. `Unserialized` stands for every
    other widget (labels, buttons, group boxes); it is never written or restored.
   */
  datatype Widget =
    | LineEdit(text: string)
    | CheckBox(checked: bool)
    | ComboBox(currentIndex: int, count: nat)
    | RadioButton(checked: bool)
    | SpinBox(value: int, minimum: int, maximum: int)
    | ListWidget(items: seq<ListItem>)
    | Unserialized

  /** A child widget with its object name, in the order `findChildren` returns them. */
  datatype Child = Child(name: string, widget: Widget)

  /** The line edit whose text the main window generates; it is never saved. */
  const CommandLineEdit: string := "lineEdit_command"

  /** The number of widget kinds the serializer handles, one loop each. */
  const KindCount: nat := 6

  /** The position of a widget's loop in `widgetToJson` and `jsonToWidget`; KindCount for the rest. */
  function KindOf(w: Widget): (k: nat)
    ensures k <= KindCount
    ensures k == KindCount <==> w.Unserialized?
  {
    match w
    case LineEdit(_) => 0
    case CheckBox(_) => 1
    case ComboBox(_, _) => 2
    case RadioButton(_) => 3
    case SpinBox(_, _, _) => 4
    case ListWidget(_) => 5
    case Unserialized => KindCount
  }

  predicate IsCommandLine(c: Child) {
    c.widget.LineEdit? && c.name == CommandLineEdit
  }

  /** The children `widgetToJson` writes: every serializable widget but the command line. */
  predicate Saved(c: Child) {
    !c.widget.Unserialized? && !IsCommandLine(c)
  }

  /** A state Qt can be in: a combo index within the items or -1, a spin value within a 32-bit range. */
  predicate ValidWidget(w: Widget) {
    match w
    case ComboBox(i, count) => -1 <= i < count && Int32(count)
    case SpinBox(v, lo, hi) => Int32(lo) && Int32(hi) && lo <= v <= hi
    case _ => true
  }

  predicate AllValid(cs: seq<Child>) {
    forall i :: 0 <= i < |cs| ==> ValidWidget(cs[i].widget)
  }

  /**
    No two serialized children share an object name. Other children may: the
    internal widgets of a window (the scroll bars of a list, for one) often all
    carry the empty name.
   */
  predicate UniqueNames(cs: seq<Child>) {
    forall i, j ::
      0 <= i < j < |cs| && !cs[i].widget.Unserialized? && !cs[j].widget.Unserialized? ==> cs[i].name != cs[j].name
  }

  /** Two widgets of the same kind whose fixed properties (item count, range) agree. */
  predicate SameShape(a: Widget, b: Widget) {
    match a
    case LineEdit(_) => b.LineEdit?
    case CheckBox(_) => b.CheckBox?
    case ComboBox(_, count) => b.ComboBox? && b.count == count
    case RadioButton(_) => b.RadioButton?
    case SpinBox(_, lo, hi) => b.SpinBox? && b.minimum == lo && b.maximum == hi
    case ListWidget(_) => b.ListWidget?
    case Unserialized => b.Unserialized?
  }

  /** Two windows with the same children in the same order, differing only in their values. */
  predicate SameLayout(a: seq<Child>, b: seq<Child>) {
    |a| == |b| && forall i :: 0 <= i < |a| ==> a[i].name == b[i].name && SameShape(a[i].widget, b[i].widget)
  }

  // ---------------------------------------------------------------------------
  // List items
  // ---------------------------------------------------------------------------

  /** A list item as the object {"text": ..., "checked": ...}. */
  function EncodeItem(item: ListItem): (v: Json)
    ensures v.JObject? && DecodeItem(v) == item
  {
    JObject(map["text" := JString(item.text), "checked" := JBool(item.checked)])
  }

  /** An array element read back as an item; missing or mistyped members give "" and unchecked. */
  function DecodeItem(v: Json): (item: ListItem)
    ensures !v.JObject? ==> item == ListItem("", false)
    ensures v.JObject? && v.fields.Keys !! {"text", "checked"} ==> item == ListItem("", false)
  {
    var li := ToObject(v);
    ListItem(ToString(Member(li, "text")), ToBool(Member(li, "checked")))
  }

  /** The items of a list widget in row order. */
  function EncodeItems(items: seq<ListItem>): (vs: seq<Json>)
    ensures |vs| == |items|
    ensures forall i :: 0 <= i < |items| ==> vs[i].JObject? && DecodeItem(vs[i]) == items[i]
  {
    if items == [] then [] else EncodeItems(items[..|items| - 1]) + [EncodeItem(items[|items| - 1])]
  }

  /** The items rebuilt from an array, one per element, in array order. */
  function DecodeItems(vs: seq<Json>): (items: seq<ListItem>)
    ensures |items| == |vs|
    ensures forall i :: 0 <= i < |vs| ==> items[i] == DecodeItem(vs[i])
  {
    if vs == [] then [] else DecodeItems(vs[..|vs| - 1]) + [DecodeItem(vs[|vs| - 1])]
  }

  /** Rebuilding a list from its own array gives back the items, in order. */
  lemma DecodeEncodeItems(items: seq<ListItem>)
    ensures DecodeItems(EncodeItems(items)) == items
  {
  }

  // ---------------------------------------------------------------------------
  // One widget
  // ---------------------------------------------------------------------------

  /** The value `widgetToJson` writes for a widget; setting a valid widget from it changes nothing. */
  function Encode(w: Widget): (v: Json)
    ensures w.Unserialized? <==> v.JNull?
    ensures ValidWidget(w) ==> Apply(w, v) == w
  {
    match w
    case LineEdit(text) => JString(text)
    case CheckBox(checked) => JBool(checked)
    case ComboBox(index, _) => JNumber(index)
    case RadioButton(checked) => JBool(checked)
    case SpinBox(value, _, _) => JNumber(value)
    case ListWidget(items) => DecodeEncodeItems(items); JArray(EncodeItems(items))
    case Unserialized => JNull
  }

  /** QSpinBox::setValue keeps the value within the range. */
  function Clamp(v: int, lo: int, hi: int): (r: int)
    ensures lo <= hi ==> lo <= r <= hi
    ensures lo <= v <= hi ==> r == v
  {
    if v < lo then lo else if v > hi then hi else v
  }

  /**
    The setter `jsonToWidget` calls with a value: setText, setChecked, setCurrentIndex
    (an index outside the items selects nothing, -1), setValue, or clear-and-refill.
   */
  function Apply(w: Widget, v: Json): (r: Widget)
    ensures SameShape(w, r)
    ensures ValidWidget(w) ==> ValidWidget(r)
  {
    match w
    case LineEdit(_) => LineEdit(ToString(v))
    case CheckBox(_) => CheckBox(ToBool(v))
    case ComboBox(_, count) =>
      var i := ToInt(v);
      ComboBox(if 0 <= i < count then i else -1, count)
    case RadioButton(_) => RadioButton(ToBool(v))
    case SpinBox(_, lo, hi) => SpinBox(Clamp(ToInt(v), lo, hi), lo, hi)
    case ListWidget(_) => ListWidget(DecodeItems(ToArray(v)))
    case Unserialized => Unserialized
  }

  /** Restoring a widget from the value saved from a valid widget of the same shape reproduces that widget. */
  lemma ApplyEncode(target: Widget, w: Widget)
    requires SameShape(w, target) && ValidWidget(w)
    ensures Apply(target, Encode(w)) == w
  {
    if w.ListWidget? {
      DecodeEncodeItems(w.items);
    }
  }

  // ---------------------------------------------------------------------------
  // widgetToJson: the writes in loop order, later writes to a name replacing earlier ones
  // ---------------------------------------------------------------------------

  /** The write a child makes in the loop over kind `k`: none unless it is saved and of that kind. */
  function WriteOf(c: Child, k: nat): seq<(string, Json)> {
    if Saved(c) && KindOf(c.widget) == k then [(c.name, Encode(c.widget))] else []
  }

  /** The child is saved, under the name `n`, with the value `v`. */
  predicate Writes(c: Child, n: string, v: Json) {
    Saved(c) && c.name == n && Encode(c.widget) == v
  }

  /** The writes of the loop over the widgets of kind `k`, in child order. */
  function KindWrites(cs: seq<Child>, k: nat): seq<(string, Json)> {
    if cs == [] then [] else KindWrites(cs[..|cs| - 1], k) + WriteOf(cs[|cs| - 1], k)
  }

  /** The writes of the loops over the kinds before `k`, one loop after the other. */
  function WritesBefore(cs: seq<Child>, k: nat): seq<(string, Json)>
    requires k <= KindCount
  {
    if k == 0 then [] else WritesBefore(cs, k - 1) + KindWrites(cs, k - 1)
  }

  /** QJsonObject::operator[] assignments performed in order. */
  function Assign(m: map<string, Json>, ws: seq<(string, Json)>): map<string, Json> {
    if ws == [] then m else Assign(m, ws[..|ws| - 1])[ws[|ws| - 1].0 := ws[|ws| - 1].1]
  }

  /**
    widgetToJson: the object built by every loop of the serializer. Every saved
    child has a member; when names are unique, the member holds that child's value.
   */
  function JsonOf(cs: seq<Child>): (obj: map<string, Json>)
    ensures forall i :: 0 <= i < |cs| && Saved(cs[i]) ==>
              && cs[i].name in obj
              && (UniqueNames(cs) ==> obj[cs[i].name] == Encode(cs[i].widget))
  {
    SavedMembers(cs);
    Assign(map[], WritesBefore(cs, KindCount))
  }

  lemma {:induction false} AssignKeys(m: map<string, Json>, ws: seq<(string, Json)>, k: string)
    ensures k in Assign(m, ws) <==> k in m || exists j :: 0 <= j < |ws| && ws[j].0 == k
  {
    if ws != [] {
      var init := ws[..|ws| - 1];
      AssignKeys(m, init, k);
      if exists j :: 0 <= j < |init| && init[j].0 == k {
        var j :| 0 <= j < |init| && init[j].0 == k;
        assert ws[j] == init[j];
      }
      if exists j :: 0 <= j < |ws| && ws[j].0 == k {
        var j :| 0 <= j < |ws| && ws[j].0 == k;
        if j < |init| {
          assert init[j] == ws[j];
        }
      }
    }
  }

  /** When every write to `k` carries `v` and there is one, the object maps `k` to `v`. */
  lemma {:induction false} AssignAgreeing(m: map<string, Json>, ws: seq<(string, Json)>, k: string, v: Json)
    requires exists j :: 0 <= j < |ws| && ws[j].0 == k
    requires forall j :: 0 <= j < |ws| && ws[j].0 == k ==> ws[j].1 == v
    ensures k in Assign(m, ws) && Assign(m, ws)[k] == v
  {
    var last := ws[|ws| - 1];
    var init := ws[..|ws| - 1];
    if last.0 != k {
      var j :| 0 <= j < |ws| && ws[j].0 == k;
      assert init[j] == ws[j];
      forall i | 0 <= i < |init| && init[i].0 == k
        ensures init[i].1 == v
      {
        assert init[i] == ws[i];
      }
      AssignAgreeing(m, init, k, v);
    }
  }

  /** Assigning two runs of writes is assigning the first, then the second. */
  lemma {:induction false} AssignConcat(m: map<string, Json>, a: seq<(string, Json)>, b: seq<(string, Json)>)
    ensures Assign(m, a + b) == Assign(Assign(m, a), b)
  {
    if b == [] {
      assert a + b == a;
    } else {
      var init := b[..|b| - 1];
      AssignConcat(m, a, init);
      assert (a + b)[..|a + b| - 1] == a + init;
    }
  }

  /** Every write of the loop over kind `k` comes from a saved child of that kind. */
  lemma {:induction false} KindWriteSource(cs: seq<Child>, k: nat, n: string, v: Json) returns (i: nat)
    requires (n, v) in KindWrites(cs, k)
    ensures i < |cs| && KindOf(cs[i].widget) == k && Writes(cs[i], n, v)
  {
    var init := cs[..|cs| - 1];
    if (n, v) in KindWrites(init, k) {
      i := KindWriteSource(init, k, n, v);
      assert cs[i] == init[i];
    } else {
      i := |cs| - 1;
    }
  }

  /** Every saved child of kind `k` writes in the loop over kind `k`. */
  lemma {:induction false} KindWriteOf(cs: seq<Child>, i: nat)
    requires i < |cs| && Saved(cs[i])
    ensures (cs[i].name, Encode(cs[i].widget)) in KindWrites(cs, KindOf(cs[i].widget))
  {
    var init := cs[..|cs| - 1];
    if i < |init| {
      assert init[i] == cs[i];
      KindWriteOf(init, i);
    }
  }

  /** Every write of the first `k` loops comes from a saved child of a kind before `k`. */
  lemma {:induction false} WriteSource(cs: seq<Child>, k: nat, n: string, v: Json) returns (i: nat)
    requires k <= KindCount && (n, v) in WritesBefore(cs, k)
    ensures i < |cs| && KindOf(cs[i].widget) < k && Writes(cs[i], n, v)
  {
    if (n, v) in WritesBefore(cs, k - 1) {
      i := WriteSource(cs, k - 1, n, v);
    } else {
      i := KindWriteSource(cs, k - 1, n, v);
    }
  }

  /** Every saved child of a kind before `k` writes in the first `k` loops. */
  lemma {:induction false} WriteOfSaved(cs: seq<Child>, k: nat, i: nat)
    requires k <= KindCount && i < |cs| && Saved(cs[i]) && KindOf(cs[i].widget) < k
    ensures (cs[i].name, Encode(cs[i].widget)) in WritesBefore(cs, k)
  {
    if KindOf(cs[i].widget) == k - 1 {
      KindWriteOf(cs, i);
    } else {
      WriteOfSaved(cs, k - 1, i);
    }
  }

  /** The saved object has one member per saved child: exactly the names of the saved children. */
  lemma JsonOfKeys(cs: seq<Child>, n: string)
    ensures n in JsonOf(cs) <==> exists i :: 0 <= i < |cs| && Saved(cs[i]) && cs[i].name == n
  {
    var ws := WritesBefore(cs, KindCount);
    AssignKeys(map[], ws, n);
    if exists j :: 0 <= j < |ws| && ws[j].0 == n {
      var j :| 0 <= j < |ws| && ws[j].0 == n;
      assert ws[j] in ws;
      var i := WriteSource(cs, KindCount, n, ws[j].1);
      assert Saved(cs[i]) && cs[i].name == n;
    }
    if exists i :: 0 <= i < |cs| && Saved(cs[i]) && cs[i].name == n {
      var i :| 0 <= i < |cs| && Saved(cs[i]) && cs[i].name == n;
      WriteOfSaved(cs, KindCount, i);
      var j :| 0 <= j < |ws| && ws[j] == (n, Encode(cs[i].widget));
    }
  }

  /** The object has no member for the command line when no other saved widget shares its name. */
  lemma CommandLineNotSaved(cs: seq<Child>)
    requires forall i :: 0 <= i < |cs| && cs[i].name == CommandLineEdit ==> cs[i].widget.LineEdit? || cs[i].widget.Unserialized?
    ensures CommandLineEdit !in JsonOf(cs)
  {
    JsonOfKeys(cs, CommandLineEdit);
  }

  /** Two windows whose children write the same in every loop produce the same writes. */
  lemma {:induction false} SameKindWrites(cs: seq<Child>, ds: seq<Child>, k: nat)
    requires |cs| == |ds|
    requires forall i :: 0 <= i < |cs| ==> WriteOf(cs[i], k) == WriteOf(ds[i], k)
    ensures KindWrites(cs, k) == KindWrites(ds, k)
  {
    if cs != [] {
      SameKindWrites(cs[..|cs| - 1], ds[..|ds| - 1], k);
    }
  }

  /** Windows whose loops write the same produce the same writes before any kind. */
  lemma {:induction false} SameWritesBefore(cs: seq<Child>, ds: seq<Child>, k: nat)
    requires k <= KindCount
    requires forall j: nat :: j < KindCount ==> KindWrites(cs, j) == KindWrites(ds, j)
    ensures WritesBefore(cs, k) == WritesBefore(ds, k)
  {
    if k > 0 {
      SameWritesBefore(cs, ds, k - 1);
    }
  }

  /** The saved object does not depend on the text of the command line. */
  lemma CommandLineTextIgnored(cs: seq<Child>, i: nat, text: string)
    requires i < |cs| && IsCommandLine(cs[i])
    ensures JsonOf(cs[i := Child(CommandLineEdit, LineEdit(text))]) == JsonOf(cs)
  {
    var ds := cs[i := Child(CommandLineEdit, LineEdit(text))];
    forall k: nat | k < KindCount
      ensures KindWrites(cs, k) == KindWrites(ds, k)
    {
      SameKindWrites(cs, ds, k);
    }
    SameWritesBefore(cs, ds, KindCount);
  }

  /** Every saved child writes a member; with unique names the last write to it is its own. */
  lemma SavedMembers(cs: seq<Child>)
    ensures var obj := Assign(map[], WritesBefore(cs, KindCount));
            forall i :: 0 <= i < |cs| && Saved(cs[i]) ==>
              && cs[i].name in obj
              && (UniqueNames(cs) ==> obj[cs[i].name] == Encode(cs[i].widget))
  {
    forall i | 0 <= i < |cs| && Saved(cs[i])
      ensures cs[i].name in Assign(map[], WritesBefore(cs, KindCount))
    {
      var ws := WritesBefore(cs, KindCount);
      WriteOfSaved(cs, KindCount, i);
      var j :| 0 <= j < |ws| && ws[j] == (cs[i].name, Encode(cs[i].widget));
      AssignKeys(map[], ws, cs[i].name);
    }
    if UniqueNames(cs) {
      forall i | 0 <= i < |cs| && Saved(cs[i])
        ensures Assign(map[], WritesBefore(cs, KindCount))[cs[i].name] == Encode(cs[i].widget)
      {
        SavedValue(cs, i);
      }
    }
  }

  /** With unique names, every write to a saved child's name carries that child's value. */
  lemma SavedValue(cs: seq<Child>, i: nat)
    requires UniqueNames(cs) && i < |cs| && Saved(cs[i])
    ensures var obj := Assign(map[], WritesBefore(cs, KindCount));
            cs[i].name in obj && obj[cs[i].name] == Encode(cs[i].widget)
  {
    var ws := WritesBefore(cs, KindCount);
    var n, v := cs[i].name, Encode(cs[i].widget);
    WriteOfSaved(cs, KindCount, i);
    forall j | 0 <= j < |ws| && ws[j].0 == n
      ensures ws[j].1 == v
    {
      assert ws[j] in ws;
      var i' := WriteSource(cs, KindCount, n, ws[j].1);
      assert i' == i;
    }
    AssignAgreeing(map[], ws, n, v);
  }

  // ---------------------------------------------------------------------------
  // jsonToWidget
  // ---------------------------------------------------------------------------

  /** One child after `jsonToWidget`: set from its member when the object has one. */
  function RestoreChild(obj: map<string, Json>, c: Child): (r: Child)
    ensures r.name == c.name && SameShape(c.widget, r.widget)
    ensures c.name !in obj ==> r == c
    ensures ValidWidget(c.widget) ==> ValidWidget(r.widget)
    ensures c.name in obj && ValidWidget(c.widget) && obj[c.name] == Encode(c.widget) ==> r == c
  {
    if c.name in obj then Child(c.name, Apply(c.widget, obj[c.name])) else c
  }

  /**
    jsonToWidget: every child whose name is a member is set from it (the command
    line included), every other child is left as it is; names, kinds, item counts
    and ranges never change, and a valid state stays valid whatever the object holds.
   */
  function Restored(obj: map<string, Json>, cs: seq<Child>): (r: seq<Child>)
    ensures SameLayout(cs, r)
    ensures forall i :: 0 <= i < |cs| && cs[i].name !in obj ==> r[i] == cs[i]
    ensures forall i :: 0 <= i < |cs| && cs[i].widget.Unserialized? ==> r[i] == cs[i]
    ensures AllValid(cs) ==> AllValid(r)
  {
    seq(|cs|, i requires 0 <= i < |cs| => RestoreChild(obj, cs[i]))
  }

  /**
    Saving one window and restoring into another with the same layout reproduces
    every saved value; only the target's command line keeps its own text.
   */
  lemma ProfileRestores(cs: seq<Child>, target: seq<Child>)
    requires UniqueNames(cs) && AllValid(cs) && SameLayout(cs, target)
    ensures forall i :: 0 <= i < |cs| ==>
              Restored(JsonOf(cs), target)[i] == if IsCommandLine(cs[i]) then target[i] else cs[i]
  {
    var obj := JsonOf(cs);
    forall i | 0 <= i < |cs|
      ensures Restored(obj, target)[i] == if IsCommandLine(cs[i]) then target[i] else cs[i]
    {
      if Saved(cs[i]) {
        ApplyEncode(target[i].widget, cs[i].widget);
      } else if IsCommandLine(cs[i]) {
        JsonOfKeys(cs, cs[i].name);
        forall j | 0 <= j < |cs| && cs[j].name == cs[i].name
          ensures !Saved(cs[j])
        {
          if !cs[j].widget.Unserialized? {
            SameNameSameChild(cs, i, j);
          }
        }
      }
    }
  }

  /** Two serialized children with the same name are the same child. */
  lemma SameNameSameChild(cs: seq<Child>, i: nat, j: nat)
    requires UniqueNames(cs) && i < |cs| && j < |cs|
    requires !cs[i].widget.Unserialized? && !cs[j].widget.Unserialized? && cs[i].name == cs[j].name
    ensures i == j
  {
  }

  /** Restoring a window from its own saved object changes nothing. */
  lemma RoundTrip(cs: seq<Child>)
    requires UniqueNames(cs) && AllValid(cs)
    ensures Restored(JsonOf(cs), cs) == cs
  {
    ProfileRestores(cs, cs);
  }

  /** A list widget whose two internal scroll bars both carry the empty name still round-trips. */
  lemma UnnamedInternalWidgetsRoundTrip(items: seq<ListItem>)
    ensures var cs := [Child("listWidget_wordlist", ListWidget(items)), Child("", Unserialized), Child("", Unserialized)];
            UniqueNames(cs) && Restored(JsonOf(cs), cs) == cs
  {
    var cs := [Child("listWidget_wordlist", ListWidget(items)), Child("", Unserialized), Child("", Unserialized)];
    RoundTrip(cs);
  }

  // ---------------------------------------------------------------------------
  // Profile files
  // ---------------------------------------------------------------------------

  /** saveStateToFile: the document holds one root member, the profile key, mapped to the window's object. */
  function SaveDocument(key: string, cs: seq<Child>): (doc: Json)
    ensures doc.JObject? && doc.fields.Keys == {key}
    ensures ToObject(doc.fields[key]) == JsonOf(cs)
  {
    JObject(map[key := JObject(JsonOf(cs))])
  }

  /** What reading and parsing the file gave: nothing when it could not be opened. */
  datatype ParseResult = ParseError | Parsed(doc: Json)

  datatype LoadError = CannotOpen | InvalidJson | MissingProfile

  datatype LoadResult = LoadFailed(error: LoadError) | Loaded(children: seq<Child>)

  /**
    loadStateFromFile: fails when the file cannot be opened, does not parse, is not
    an object, or has no member for the key; otherwise restores from that member,
    read as an object (a non-object member restores nothing).
   */
  function Load(key: string, file: Option<ParseResult>, cs: seq<Child>): (r: LoadResult)
    ensures r.LoadFailed? <==>
              file.None? || file.value.ParseError? || !file.value.doc.JObject? || key !in file.value.doc.fields
    ensures r.Loaded? ==> SameLayout(cs, r.children)
  {
    match file
    case None => LoadFailed(CannotOpen)
    case Some(ParseError) => LoadFailed(InvalidJson)
    case Some(Parsed(doc)) =>
      if !doc.JObject? then LoadFailed(InvalidJson)
      else if key !in doc.fields then LoadFailed(MissingProfile)
      else Loaded(Restored(ToObject(doc.fields[key]), cs))
  }

  /** A saved profile loads under its own key and restores every saved value into a window of the same layout. */
  lemma LoadSavedProfile(key: string, cs: seq<Child>, target: seq<Child>)
    requires UniqueNames(cs) && AllValid(cs) && SameLayout(cs, target)
    ensures var r := Load(key, Some(Parsed(SaveDocument(key, cs))), target);
            && r.Loaded?
            && forall i :: 0 <= i < |cs| ==> r.children[i] == if IsCommandLine(cs[i]) then target[i] else cs[i]
  {
    ProfileRestores(cs, target);
  }

  /** A profile saved under one key is missing under any other. */
  lemma LoadOtherKey(key: string, other: string, cs: seq<Child>, target: seq<Child>)
    requires other != key
    ensures Load(other, Some(Parsed(SaveDocument(key, cs))), target) == LoadFailed(MissingProfile)
  {
  }

  /** A member for the key that is not an object loads successfully and changes nothing. */
  lemma LoadNonObjectProfile(key: string, root: map<string, Json>, cs: seq<Child>)
    requires key in root && !root[key].JObject?
    ensures Load(key, Some(Parsed(JObject(root))), cs) == Loaded(cs)
  {
  }
}
