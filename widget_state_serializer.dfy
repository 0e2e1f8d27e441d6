/**
  The profile serializer: `widgetToJson` and `jsonToWidget` walking the children of
  a window kind by kind, and the save and load operations on a profile file.
  Each method is proved against the functions of WidgetState.
 */
module WidgetStateSerializer {
  import opened QtCore
  import opened JsonValues
  import opened WidgetState

  /** The window handed to the serializer, with its child widgets in `findChildren` order. */
  class Window {
    var children: seq<Child>

    constructor (children: seq<Child>)
      ensures this.children == children
    {
      this.children := children;
    }
  }

  /** The array written for a list widget: one {text, checked} object per row. */
  method ListToJson(items: seq<ListItem>) returns (list: seq<Json>)
    ensures list == EncodeItems(items)
    ensures DecodeItems(list) == items
  {
    list := [];
    for i := 0 to |items|
      invariant list == EncodeItems(items[..i])
    {
      assert items[..i + 1][..i] == items[..i];
      list := list + [EncodeItem(items[i])];
    }
    assert items[..|items|] == items;
    DecodeEncodeItems(items);
  }

  /** The rows rebuilt from an array: one item per element, in order. */
  method JsonToList(list: seq<Json>) returns (items: seq<ListItem>)
    ensures items == DecodeItems(list)
  {
    items := [];
    for i := 0 to |list|
      invariant items == DecodeItems(list[..i])
    {
      assert list[..i + 1][..i] == list[..i];
      items := items + [DecodeItem(list[i])];
    }
    assert list[..|list|] == list;
  }

  /** The value written for one child; a list widget goes through the row loop. */
  method EncodeChild(c: Child) returns (v: Json)
    ensures v == Encode(c.widget)
  {
    if c.widget.ListWidget? {
      var list := ListToJson(c.widget.items);
      v := JArray(list);
    } else {
      v := Encode(c.widget);
    }
  }

  /** One more write is one more assignment. */
  lemma AssignAppend(m: map<string, Json>, ws: seq<(string, Json)>, n: string, v: Json)
    ensures Assign(m, ws + [(n, v)]) == Assign(m, ws)[n := v]
  {
    assert (ws + [(n, v)])[..|ws|] == ws;
  }

  /** The loop over kind `k` after one more child. */
  lemma KindWritesAppend(cs: seq<Child>, k: nat, i: nat)
    requires i < |cs|
    ensures KindWrites(cs[..i + 1], k) == KindWrites(cs[..i], k) + WriteOf(cs[i], k)
  {
    assert cs[..i + 1][..i] == cs[..i];
  }

  /** One loop of widgetToJson: the children of kind `k`, in order, each written under its name. */
  method WriteKind(cs: seq<Child>, k: nat, start: map<string, Json>) returns (obj: map<string, Json>)
    ensures obj == Assign(start, KindWrites(cs, k))
  {
    obj := start;
    ghost var writes: seq<(string, Json)> := [];
    for i := 0 to |cs|
      invariant writes == KindWrites(cs[..i], k)
      invariant obj == Assign(start, writes)
    {
      KindWritesAppend(cs, k, i);
      var c := cs[i];
      if Saved(c) && KindOf(c.widget) == k {
        var v := EncodeChild(c);
        AssignAppend(start, writes, c.name, v);
        writes := writes + [(c.name, v)];
        obj := obj[c.name := v];
      } else {
        assert writes + WriteOf(c, k) == writes;
      }
    }
    assert cs[..|cs|] == cs;
  }

  /**
    widgetToJson: one loop per widget kind over the children of that kind, the
    command line skipped, each write replacing any earlier one under the same name.
   */
  method WidgetToJson(w: Window) returns (obj: map<string, Json>)
    ensures obj == JsonOf(w.children)
  {
    var cs := w.children;
    obj := map[];
    for k := 0 to KindCount
      invariant obj == Assign(map[], WritesBefore(cs, k))
    {
      obj := WriteKind(cs, k, obj);
      AssignConcat(map[], WritesBefore(cs, k), KindWrites(cs, k));
    }
  }

  /** The widget a child becomes when set from a value; a list widget is cleared and refilled row by row. */
  method ApplyChild(c: Child, v: Json) returns (widget: Widget)
    ensures widget == Apply(c.widget, v)
  {
    if c.widget.ListWidget? {
      var items := JsonToList(ToArray(v));
      widget := ListWidget(items);
    } else {
      widget := Apply(c.widget, v);
    }
  }

  /** Whether the child at `j` has been handled once the loops are at kind `k`, child `i`. */
  ghost predicate Visited(cs: seq<Child>, j: int, k: nat, i: int)
    requires 0 <= j < |cs|
  {
    KindOf(cs[j].widget) < k || (KindOf(cs[j].widget) == k && j < i)
  }

  /**
    jsonToWidget: one loop per widget kind, setting each child whose name is a
    member of the object and leaving every other child as it is.
   */
  method JsonToWidget(obj: map<string, Json>, w: Window)
    modifies w
    ensures w.children == Restored(obj, old(w.children))
  {
    ghost var cs := w.children;
    for k := 0 to KindCount
      invariant |w.children| == |cs|
      invariant forall j :: 0 <= j < |cs| ==>
                  w.children[j] == if Visited(cs, j, k, 0) then RestoreChild(obj, cs[j]) else cs[j]
    {
      for i := 0 to |w.children|
        invariant |w.children| == |cs|
        invariant forall j :: 0 <= j < |cs| ==>
                    w.children[j] == if Visited(cs, j, k, i) then RestoreChild(obj, cs[j]) else cs[j]
      {
        var c := w.children[i];
        if KindOf(c.widget) == k && c.name in obj {
          var widget := ApplyChild(c, obj[c.name]);
          w.children := w.children[i := Child(c.name, widget)];
        }
      }
      forall j | 0 <= j < |cs|
        ensures Visited(cs, j, k, |cs|) == Visited(cs, j, k + 1, 0)
      {
      }
    }
    assert forall j :: 0 <= j < |cs| ==> Restored(obj, cs)[j] == RestoreChild(obj, cs[j]);
  }

  /**
    saveStateToFile: the document is one object with the profile key as its only
    member; it is written when the file opens, and nothing is written otherwise.
   */
  method SaveStateToFile(key: string, w: Window, canOpen: bool) returns (ok: bool, written: Option<Json>)
    ensures ok == canOpen
    ensures ok ==> written == Some(SaveDocument(key, w.children))
    ensures !ok ==> written.None?
  {
    var profile := WidgetToJson(w);
    var root := map[key := JObject(profile)];
    if !canOpen {
      return false, None;
    }
    return true, Some(JObject(root));
  }

  /**
    loadStateFromFile: `file` is what opening and parsing the file gave. A failure
    returns false and leaves the window untouched; otherwise the window is
    restored from the profile's member.
   */
  method LoadStateFromFile(key: string, w: Window, file: Option<ParseResult>) returns (ok: bool)
    modifies w
    ensures ok <==> Load(key, file, old(w.children)).Loaded?
    ensures ok ==> w.children == Load(key, file, old(w.children)).children
    ensures !ok ==> w.children == old(w.children)
  {
    if file.None? {
      return false;
    }
    if file.value.ParseError? || !file.value.doc.JObject? {
      return false;
    }
    var root := file.value.doc.fields;
    if key !in root {
      return false;
    }
    JsonToWidget(ToObject(root[key]), w);
    return true;
  }
}
