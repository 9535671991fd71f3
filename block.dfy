/**
 * The Block node: its `attrs` are written into an activity by `ToXml` and
 * replaced by what `FromXml` reads, and what survives the trip from one to
 * the other.
 */
module Blocks {
  import opened Wrappers
  import opened Xml
  import opened Nodes
  import opened BlockXml
  import opened BlockParse

  lemma ItemsStep(es: seq<BlockElement>, i: nat)
    requires i < |es|
    ensures Items(es[..i + 1], false) == Items(es[..i], false) + [ItemOf(es[i], false)]
  {
  }

  lemma DefinitionsStep(es: seq<BlockElement>, i: nat)
    requires i < |es|
    ensures Definitions(es[..i + 1]) == Definitions(es[..i]) + ElementDefinitions(es[i])
  {
    assert es[..i + 1][..i] == es[..i];
  }

  lemma DefineTableStep(ds: seq<Node>, i: nat)
    requires i < |ds|
    ensures DefineTable(ds[..i + 1]) == DefineTable(ds[..i])[NameOf(ds[i]) := TextContent(ds[i])]
  {
    assert ds[..i + 1][..i] == ds[..i];
  }

  lemma ApplyAttributesStep(e: BlockElement, attributes: seq<Node>, defs: map<string, string>, k: nat)
    requires k < |attributes|
    ensures ApplyAttributes(e, attributes[..k + 1], defs)
         == Assign(ApplyAttributes(e, attributes[..k], defs), NameOf(attributes[k]), Resolve(Attr(attributes[k], "value"), defs))
  {
    assert attributes[..k + 1][..k] == attributes[..k];
  }

  /**
   * The `$.each` callback of `Block.toXml` for one element: its item goes to
   * the task, and what `addItem` stores for its label and its value goes to
   * the activity.
   */
  method AppendElement(task: seq<Node>, definitions: seq<Node>, e: BlockElement)
    returns (task': seq<Node>, definitions': seq<Node>)
    ensures task' == task + [ItemOf(e, false)]
    ensures definitions' == definitions + ElementDefinitions(e)
  {
    task' := task + [ItemOf(e, false)];
    definitions' := definitions;
    if Truthy(Prop(e, "label")) {
      definitions' := definitions' + AddItem(e["label"], "label", false);
    }
    if Truthy(Prop(e, "value")) {
      definitions' := definitions' + AddItem(e["value"], "value", true);
    }
  }

  /** The table of `define` elements, built in document order: a later definition of a name replaces an earlier one. */
  method ReadDefines(ds: seq<Node>) returns (defines: map<string, string>)
    ensures defines == DefineTable(ds)
  {
    defines := map[];
    var i := 0;
    while i < |ds|
      invariant 0 <= i <= |ds|
      invariant defines == DefineTable(ds[..i])
    {
      defines := defines[NameOf(ds[i]) := TextContent(ds[i])];
      DefineTableStep(ds, i);
      i := i + 1;
    }
    assert ds[..i] == ds;
  }

  /**
   * The element read from one `item`: `label` from its `name`, its `type`,
   * then each `attribute` child in order, whose value is replaced by the
   * table's text when the table holds a non-empty one under that value.
   */
  method ReadItem(item: Node, defines: map<string, string>) returns (element: BlockElement)
    ensures element == ParseItem(item, defines)
  {
    element := map[];
    element := Assign(element, "label", Attr(item, "name"));
    element := Assign(element, "type", Attr(item, "type"));
    var attributes := FindIn(item, "attribute");
    var k := 0;
    while k < |attributes|
      invariant 0 <= k <= |attributes|
      invariant element == ApplyAttributes(ItemBase(item), attributes[..k], defines)
    {
      var value := Attr(attributes[k], "value");
      var key := KeyOf(value);
      if key in defines && defines[key] != "" {
        value := Some(defines[key]);
      }
      assert value == Resolve(Attr(attributes[k], "value"), defines);
      element := Assign(element, NameOf(attributes[k]), value);
      ApplyAttributesStep(ItemBase(item), attributes, defines, k);
      k := k + 1;
    }
    assert attributes[..k] == attributes;
  }

  /** `$xml.find('item').each(...)`: one element per item, in document order. */
  method ReadItems(items: seq<Node>, defines: map<string, string>) returns (elements: seq<BlockElement>)
    ensures elements == ParseItems(items, defines)
  {
    elements := [];
    var j := 0;
    while j < |items|
      invariant 0 <= j <= |items|
      invariant |elements| == j
      invariant forall k :: 0 <= k < j ==> elements[k] == ParseItem(items[k], defines)
    {
      var element := ReadItem(items[j], defines);
      elements := elements + [element];
      j := j + 1;
    }
  }

  class Block {
    const cid: string
    /** The position of the node's cell. */
    const position: Position
    var attrs: BlockAttrs

    constructor (cid: string, position: Position, attrs: BlockAttrs)
      ensures this.cid == cid && this.position == position && this.attrs == attrs
    {
      this.cid := cid;
      this.position := position;
      this.attrs := attrs;
    }

    /** `Block.toXml(predecessors)`: the activity, built one element at a time. */
    method ToXml(preds: seq<string>) returns (cell: Node)
      ensures cell == BlockFragment(cid, position, attrs, preds)
    {
      var params := PlaceAttrs(cid, position);
      params := if Truthy(attrs.labelText) then params["label" := attrs.labelText.value] else params;
      params := if |preds| == 1 then params["predecessor" := preds[0]] else params;
      var es := attrs.elements;
      if |es| == 0 {
        return Element("activity", params, []);
      }
      var task := HandleAttributes();
      var definitions: seq<Node> := [];
      var i := 0;
      while i < |es|
        invariant 0 <= i <= |es|
        invariant task == HandleAttributes() + Items(es[..i], false)
        invariant definitions == Definitions(es[..i])
      {
        task, definitions := AppendElement(task, definitions, es[i]);
        ItemsStep(es, i);
        DefinitionsStep(es, i);
        i := i + 1;
      }
      assert es[..i] == es;
      cell := Element("activity", params, [Message(task)] + definitions);
    }

    /** `Block.fromXml($xml, $model)`: reads the definition table, then one element per item. */
    method FromXml(xml: Node, model: Node)
      modifies this
      ensures attrs == ParsedBlock(xml, model)
    {
      var labelText: Option<string> := None;
      if Truthy(Attr(xml, "label")) {
        labelText := Attr(xml, "label");
      }

      var defines := ReadDefines(FindIn(model, "define"));
      var elements := ReadItems(FindIn(xml, "item"), defines);
      attrs := BlockAttrs(labelText, elements);
    }
  }

  // ----- what survives writing and reading back -----

  /** The element the parser makes of an item that holds no attribute: `label` is the element's `name`, and `type`. */
  function ItemView(e: BlockElement): BlockElement {
    Assign(Assign(map[], "label", Prop(e, "name")), "type", Prop(e, "type"))
  }

  /**
   * The element the parser makes of an item that refers to its stored
   * fields, given the texts the table holds for them.
   */
  function ReadBack(e: BlockElement, labelText: string, valueText: string): BlockElement {
    var view := ItemView(e);
    var labelled := if Truthy(Prop(e, "label")) then view["label" := labelText] else view;
    if Truthy(Prop(e, "value")) then labelled["value" := valueText] else labelled
  }

  lemma ItemBaseOf(e: BlockElement, attach: bool)
    ensures ItemBase(ItemOf(e, attach)) == ItemView(e)
  {
    var item := ItemOf(e, attach);
    assert Attr(item, "name") == Prop(e, "name");
    assert Attr(item, "type") == Prop(e, "type");
  }

  /** An item as written holds no attribute, so reading it ignores the table. */
  lemma ParseWrittenItem(e: BlockElement, defs: map<string, string>)
    ensures ParseItem(ItemOf(e, false), defs) == ItemView(e)
  {
    ItemBaseOf(e, false);
  }

  lemma DefineNamesDistinct()
    ensures DefineName("label") != DefineName("value")
  {
    assert DefineName("label")[2] == 'l' && DefineName("value")[2] == 'v';
  }

  lemma ApplyOne(e: BlockElement, x: Node, defs: map<string, string>)
    ensures ApplyAttributes(e, [x], defs) == Assign(e, NameOf(x), Resolve(Attr(x, "value"), defs))
  {
    assert [x][..0] == [];
  }

  lemma ApplyTwo(e: BlockElement, x: Node, y: Node, defs: map<string, string>)
    ensures ApplyAttributes(e, [x, y], defs)
         == Assign(Assign(e, NameOf(x), Resolve(Attr(x, "value"), defs)), NameOf(y), Resolve(Attr(y, "value"), defs))
  {
    assert [x, y][..1] == [x];
    ApplyOne(e, x, defs);
  }

  /** The reference an attached item holds for a stored field, and what it resolves to. */
  lemma FieldRef(field: string, defs: map<string, string>)
    requires Truthy(Lookup(defs, DefineName(field)))
    ensures var r := AttributeRef(field, DefineName(field));
            NameOf(r) == field
            && Resolve(Attr(r, "value"), defs) == Some(defs[DefineName(field)])
  {
  }

  /** An attached item reads back its stored fields from the table when the table holds them. */
  lemma ParseAttachedItem(e: BlockElement, defs: map<string, string>)
    requires Truthy(Prop(e, "label")) ==> Truthy(Lookup(defs, DefineName("label")))
    requires Truthy(Prop(e, "value")) ==> Truthy(Lookup(defs, DefineName("value")))
    ensures ParseItem(ItemOf(e, true), defs)
         == ReadBack(e, Lookup(defs, DefineName("label")).GetOr(""), Lookup(defs, DefineName("value")).GetOr(""))
  {
    ItemBaseOf(e, true);
    ItemContents(e, true);
    var view := ItemView(e);
    var l := AttributeRef("label", DefineName("label"));
    var v := AttributeRef("value", DefineName("value"));
    if Truthy(Prop(e, "label")) && Truthy(Prop(e, "value")) {
      FieldRef("label", defs);
      FieldRef("value", defs);
      assert FieldRefs(e) == [l, v];
      ApplyTwo(view, l, v, defs);
    } else if Truthy(Prop(e, "label")) {
      FieldRef("label", defs);
      assert FieldRefs(e) == [l];
      ApplyOne(view, l, defs);
    } else if Truthy(Prop(e, "value")) {
      FieldRef("value", defs);
      assert FieldRefs(e) == [v];
      ApplyOne(view, v, defs);
    } else {
      assert FieldRefs(e) == [];
    }
  }

  lemma DefineTableSnoc(ds: seq<Node>, d: Node)
    ensures DefineTable(ds + [d]) == DefineTable(ds)[NameOf(d) := TextContent(d)]
  {
    assert (ds + [d])[..|ds|] == ds;
  }

  lemma DefineEntry(field: string, value: string)
    ensures NameOf(Define(field, value)) == DefineName(field)
    ensures TextContent(Define(field, value)) == value
  {
    assert Texts([Text(value)]) == value + Texts([]);
  }

  /** The table one element's defines add to. */
  lemma DefineTableElement(ds: seq<Node>, e: BlockElement)
    ensures var before := DefineTable(ds);
            var labelled := if Truthy(Prop(e, "label")) then before[DefineName("label") := e["label"]] else before;
            DefineTable(ds + ElementDefines(e))
            == if Truthy(Prop(e, "value")) then labelled[DefineName("value") := e["value"]] else labelled
  {
    var dl := Define("label", if "label" in e then e["label"] else "");
    var dv := Define("value", if "value" in e then e["value"] else "");
    DefineEntry("label", if "label" in e then e["label"] else "");
    DefineEntry("value", if "value" in e then e["value"] else "");
    if Truthy(Prop(e, "label")) && Truthy(Prop(e, "value")) {
      assert ds + ElementDefines(e) == (ds + [dl]) + [dv];
      DefineTableSnoc(ds, dl);
      DefineTableSnoc(ds + [dl], dv);
    } else if Truthy(Prop(e, "label")) {
      assert ds + ElementDefines(e) == ds + [dl];
      DefineTableSnoc(ds, dl);
    } else if Truthy(Prop(e, "value")) {
      assert ds + ElementDefines(e) == ds + [dv];
      DefineTableSnoc(ds, dv);
    } else {
      assert ds + ElementDefines(e) == ds;
    }
  }

  /** One element's defines set a field's name to the element's field when it is truthy, and leave it otherwise. */
  lemma DefineTableField(ds: seq<Node>, e: BlockElement, field: string)
    requires field == "label" || field == "value"
    ensures Lookup(DefineTable(ds + ElementDefines(e)), DefineName(field))
         == if Truthy(Prop(e, field)) then Some(e[field]) else Lookup(DefineTable(ds), DefineName(field))
  {
    DefineTableElement(ds, e);
    DefineNamesDistinct();
  }

  /**
   * The table of a written Block holds only `d_label` and `d_value`, each
   * with non-empty text.
   */
  lemma {:induction false} DefinesTableEntries(es: seq<BlockElement>)
    ensures var t := DefineTable(Defines(es));
            forall k :: k in t ==> (k == DefineName("label") || k == DefineName("value")) && t[k] != ""
    decreases |es|
  {
    if es != [] {
      var init := es[..|es| - 1];
      var e := es[|es| - 1];
      DefinesTableEntries(init);
      DefineTableElement(Defines(init), e);
      assert Defines(es) == Defines(init) + ElementDefines(e);
      assert Truthy(Prop(e, "label")) ==> e["label"] != "";
      assert Truthy(Prop(e, "value")) ==> e["value"] != "";
    }
  }

  /** The table of a written Block holds a field's name exactly when some element has that field. */
  lemma {:induction false} DefinesTableHas(es: seq<BlockElement>, field: string)
    requires field == "label" || field == "value"
    ensures DefineName(field) in DefineTable(Defines(es)) <==> exists i :: 0 <= i < |es| && Truthy(Prop(es[i], field))
    decreases |es|
  {
    if es != [] {
      var init := es[..|es| - 1];
      var e := es[|es| - 1];
      DefinesTableHas(init, field);
      DefineTableField(Defines(init), e, field);
      assert Defines(es) == Defines(init) + ElementDefines(e);
      assert forall i :: 0 <= i < |init| ==> init[i] == es[i];
      if Truthy(Prop(e, field)) {
        assert Truthy(Prop(es[|es| - 1], field));
      } else {
        assert (exists i :: 0 <= i < |es| && Truthy(Prop(es[i], field)))
           ==> (exists i :: 0 <= i < |init| && Truthy(Prop(init[i], field)));
      }
    }
  }

  /**
   * Since every element stores its label under the same name, the table
   * holds the label of the last element that has one; likewise for values.
   */
  lemma {:induction false} DefinesTableLast(es: seq<BlockElement>, field: string, i: nat)
    requires field == "label" || field == "value"
    requires i < |es| && Truthy(Prop(es[i], field))
    requires forall j :: i < j < |es| ==> !Truthy(Prop(es[j], field))
    ensures Lookup(DefineTable(Defines(es)), DefineName(field)) == Some(es[i][field])
    decreases |es|
  {
    var init := es[..|es| - 1];
    var e := es[|es| - 1];
    DefineTableField(Defines(init), e, field);
    assert Defines(es) == Defines(init) + ElementDefines(e);
    if i < |es| - 1 {
      assert init[i] == es[i];
      assert forall j :: i < j < |init| ==> init[j] == es[j];
      DefinesTableLast(init, field, i);
    }
  }

  /**
   * As written, reading a Block back keeps its non-empty label and one
   * element per element, in order, but each holds only the element's `name`
   * (now under `label`) and `type`: stored labels and values are lost,
   * whatever the model document holds.
   */
  lemma WrittenRoundTrip(cid: string, pos: Position, a: BlockAttrs, preds: seq<string>, model: Node)
    ensures var p := ParsedBlock(BlockFragment(cid, pos, a, preds), model);
            p.labelText == (if Truthy(a.labelText) then a.labelText else None)
            && |p.elements| == |a.elements|
            && forall i :: 0 <= i < |a.elements| ==> p.elements[i] == ItemView(a.elements[i])
  {
    var cell := BlockFragment(cid, pos, a, preds);
    FragmentAttributes(cid, pos, a, preds, false);
    FindInFragment(cid, pos, a, preds, false, "item");
    var defs := DefineTable(FindIn(model, "define"));
    forall i | 0 <= i < |a.elements|
      ensures ParseItem(FindIn(cell, "item")[i], defs) == ItemView(a.elements[i])
    {
      ParseWrittenItem(a.elements[i], defs);
    }
  }

  /**
   * With the references attached, reading back a Block from a model that
   * holds just that activity gives each element its `name` as `label`, its
   * `type`, and, for each field it stores, the text the table holds for
   * that field.
   */
  lemma AttachedRoundTrip(cid: string, pos: Position, a: BlockAttrs, preds: seq<string>, model: Node)
    requires model.Element? && model.children == [AttachedBlockFragment(cid, pos, a, preds)]
    ensures var p := ParsedBlock(AttachedBlockFragment(cid, pos, a, preds), model);
            var t := DefineTable(Defines(a.elements));
            p.labelText == (if Truthy(a.labelText) then a.labelText else None)
            && |p.elements| == |a.elements|
            && forall i :: 0 <= i < |a.elements| ==>
                 p.elements[i] == ReadBack(a.elements[i], Lookup(t, DefineName("label")).GetOr(""),
                                           Lookup(t, DefineName("value")).GetOr(""))
  {
    var cell := AttachedBlockFragment(cid, pos, a, preds);
    AttachedSources(cid, pos, a, preds, model);
    var t := DefineTable(Defines(a.elements));
    DefinesTableEntries(a.elements);
    DefinesTableHas(a.elements, "label");
    DefinesTableHas(a.elements, "value");
    ParseAttachedItems(a.elements, t);
  }

  /** Where the parser looks in a model holding just the attached activity: its items, and its defines. */
  lemma AttachedSources(cid: string, pos: Position, a: BlockAttrs, preds: seq<string>, model: Node)
    requires model.Element? && model.children == [AttachedBlockFragment(cid, pos, a, preds)]
    ensures FindIn(AttachedBlockFragment(cid, pos, a, preds), "item") == Items(a.elements, true)
    ensures FindIn(model, "define") == Defines(a.elements)
    ensures var cell := AttachedBlockFragment(cid, pos, a, preds);
            (if Truthy(Attr(cell, "label")) then Attr(cell, "label") else None)
            == (if Truthy(a.labelText) then a.labelText else None)
  {
    var cell := AttachedBlockFragment(cid, pos, a, preds);
    FragmentAttributes(cid, pos, a, preds, true);
    FindInFragment(cid, pos, a, preds, true, "item");
    FindInFragment(cid, pos, a, preds, true, "define");
    FindSingle(cell, "define");
  }

  lemma ParseAttachedItems(es: seq<BlockElement>, t: map<string, string>)
    requires (exists i :: 0 <= i < |es| && Truthy(Prop(es[i], "label"))) ==> Truthy(Lookup(t, DefineName("label")))
    requires (exists i :: 0 <= i < |es| && Truthy(Prop(es[i], "value"))) ==> Truthy(Lookup(t, DefineName("value")))
    ensures var items := Items(es, true);
            |items| == |es|
            && forall i :: 0 <= i < |es| ==>
                 ParseItem(items[i], t)
                 == ReadBack(es[i], Lookup(t, DefineName("label")).GetOr(""), Lookup(t, DefineName("value")).GetOr(""))
  {
    forall i | 0 <= i < |es|
      ensures ParseItem(Items(es, true)[i], t)
           == ReadBack(es[i], Lookup(t, DefineName("label")).GetOr(""), Lookup(t, DefineName("value")).GetOr(""))
    {
      ParseAttachedItem(es[i], t);
    }
  }

  /**
   * With the references attached, a Block with one element reads back that
   * element's own label and value.
   */
  lemma AttachedSingleRoundTrip(cid: string, pos: Position, labelText: Option<string>, e: BlockElement,
                                preds: seq<string>, model: Node)
    requires model.Element? && model.children == [AttachedBlockFragment(cid, pos, BlockAttrs(labelText, [e]), preds)]
    ensures ParsedBlock(AttachedBlockFragment(cid, pos, BlockAttrs(labelText, [e]), preds), model).elements
         == [ReadBack(e, Prop(e, "label").GetOr(""), Prop(e, "value").GetOr(""))]
  {
    var a := BlockAttrs(labelText, [e]);
    AttachedRoundTrip(cid, pos, a, preds, model);
    var t := DefineTable(Defines(a.elements));
    if Truthy(Prop(e, "label")) { DefinesTableLast(a.elements, "label", 0); }
    if Truthy(Prop(e, "value")) { DefinesTableLast(a.elements, "value", 0); }
    assert ReadBack(e, Lookup(t, DefineName("label")).GetOr(""), Lookup(t, DefineName("value")).GetOr(""))
        == ReadBack(e, Prop(e, "label").GetOr(""), Prop(e, "value").GetOr(""));
  }

  /**
   * Even with the references attached, every element that has a label reads
   * back the label of the last element that has one, since all of them are
   * stored under the one name `d_label`.
   */
  lemma AttachedLabelsCollide(cid: string, pos: Position, a: BlockAttrs, preds: seq<string>, model: Node, i: nat, last: nat)
    requires model.Element? && model.children == [AttachedBlockFragment(cid, pos, a, preds)]
    requires i < |a.elements| && Truthy(Prop(a.elements[i], "label"))
    requires last < |a.elements| && Truthy(Prop(a.elements[last], "label"))
    requires forall j :: last < j < |a.elements| ==> !Truthy(Prop(a.elements[j], "label"))
    ensures var p := ParsedBlock(AttachedBlockFragment(cid, pos, a, preds), model);
            i < |p.elements| && Prop(p.elements[i], "label") == Some(a.elements[last]["label"])
  {
    AttachedRoundTrip(cid, pos, a, preds, model);
    DefinesTableLast(a.elements, "label", last);
    var t := DefineTable(Defines(a.elements));
    var p := ParsedBlock(AttachedBlockFragment(cid, pos, a, preds), model);
    var labelText := Lookup(t, DefineName("label")).GetOr("");
    assert labelText == a.elements[last]["label"];
    assert p.elements[i] == ReadBack(a.elements[i], labelText, Lookup(t, DefineName("value")).GetOr(""));
    ReadBackLabel(a.elements[i], labelText, Lookup(t, DefineName("value")).GetOr(""));
  }

  lemma ReadBackLabel(e: BlockElement, labelText: string, valueText: string)
    requires Truthy(Prop(e, "label"))
    ensures Prop(ReadBack(e, labelText, valueText), "label") == Some(labelText)
  {
  }

  /** The element {name: n, type: t, label: hello, value: 42}, as written, reads back as {label: n, type: t}. */
  lemma WrittenExample(cid: string, pos: Position, preds: seq<string>, model: Node)
    ensures var e := map["name" := "n", "type" := "t", "label" := "hello", "value" := "42"];
            ParsedBlock(BlockFragment(cid, pos, BlockAttrs(None, [e]), preds), model).elements
            == [map["label" := "n", "type" := "t"]]
  {
    var e := map["name" := "n", "type" := "t", "label" := "hello", "value" := "42"];
    WrittenRoundTrip(cid, pos, BlockAttrs(None, [e]), preds, model);
    assert ItemView(e) == map["label" := "n", "type" := "t"];
  }

  /** With the references attached, the same element reads back as {label: hello, type: t, value: 42}. */
  lemma AttachedExample(cid: string, pos: Position, preds: seq<string>, model: Node)
    requires var e := map["name" := "n", "type" := "t", "label" := "hello", "value" := "42"];
             model.Element? && model.children == [AttachedBlockFragment(cid, pos, BlockAttrs(None, [e]), preds)]
    ensures var e := map["name" := "n", "type" := "t", "label" := "hello", "value" := "42"];
            ParsedBlock(AttachedBlockFragment(cid, pos, BlockAttrs(None, [e]), preds), model).elements
            == [map["label" := "hello", "type" := "t", "value" := "42"]]
  {
    var e := map["name" := "n", "type" := "t", "label" := "hello", "value" := "42"];
    AttachedSingleRoundTrip(cid, pos, None, e, preds, model);
    assert ReadBack(e, "hello", "42") == map["label" := "hello", "type" := "t", "value" := "42"];
  }
}
