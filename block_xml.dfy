/**
 * How a Block writes itself: an `activity` element whose task parameters
 * are not inlined but stored in `define` entries of a definition table,
 * with a fixed message envelope around the task description.
 */
module BlockXml {
  import opened Wrappers
  import opened Xml
  import opened JsNumber
  import opened Nodes

  /** A block element as the JavaScript object it is: property name to text; a missing key is undefined. */
  type BlockElement = map<string, string>

  /** Reading a property of a block element. */
  function Prop(e: BlockElement, key: string): Option<string> {
    if key in e then Some(e[key]) else None
  }

  /** A Block's `attrs`: an optional label and the ordered block elements. */
  datatype BlockAttrs = BlockAttrs(labelText: Option<string>, elements: seq<BlockElement>)

  /** Setting an attribute from a possibly undefined value: jQuery sets nothing for undefined. */
  function SetAttr(m: map<string, string>, name: string, v: Option<string>): map<string, string> {
    if v.Some? then m[name := v.value] else m
  }

  const ActivityNs := "http://adaptivity.nl/ProcessEngine/activity"
  const HandlerNs := "http://adaptivity.nl/userMessageHandler"

  /** An `attribute` entry of the task, naming a value by reference. */
  function AttributeRef(name: string, value: string): Node {
    Element("attribute", map["xmlns:jbi" := ActivityNs, "value" := value, "name" := name], [])
  }

  /** The three fixed task attributes, referring to names the engine provides. */
  function HandleAttributes(): seq<Node> {
    [AttributeRef("instancehandle", "instancehandle"),
     AttributeRef("remotehandle", "handle"),
     AttributeRef("owner", "owner")]
  }

  /** The constant message envelope of a task invocation, holding `task` as its task children. */
  function Message(task: seq<Node>): Node {
    Element("message",
      map["type" := "application/soap+xml", "serviceNS" := HandlerNs,
          "serviceName" := "userMessageHandler", "endpoint" := "internal", "operation" := "postTask"],
      [Element("Envelope",
         map["xmlns:env" := "http://www.w3.org/2003/05/soap-envelope",
             "encodingStyle" := "http://www.w3.org/2003/05/soap-encoding"],
         [Element("Body", map[],
            [Element("postTask", map["xmlns:umh" := HandlerNs],
               [Element("repliesParam", map[],
                  [Element("element", map["xmlns:jbi" := ActivityNs, "value" := "endpoint"], [])]),
                Element("taskParam", map[], [Element("task", map[], task)])])])])])
  }

  /** The definition name a field's literal is stored under. */
  function DefineName(field: string): string {
    "d_" + field
  }

  /**
   * The fragments `addItem` appends to the activity for one field: for a
   * result field a `result` bound to the runtime values document, then the
   * `define` holding the literal.
   */
  function AddItem(value: string, field: string, result: bool): seq<Node> {
    (if result then [ResultBinding(field)] else []) + [Define(field, value)]
  }

  /** The `result` that binds `r_<field>` to the field's text in the runtime values document. */
  function ResultBinding(field: string): Node {
    Element("result", map["xpath" := "/values/" + field + "/text()", "name" := "r_" + field], [])
  }

  /** The `define` entry storing a field's literal. */
  function Define(field: string, value: string): Node {
    Element("define", map["name" := DefineName(field)], [Text(value)])
  }

  /** The fragments appended to the activity for one element: its label's, then its value's. */
  function ElementDefinitions(e: BlockElement): (r: seq<Node>)
    ensures |r| == (if Truthy(Prop(e, "label")) then 1 else 0) + (if Truthy(Prop(e, "value")) then 2 else 0)
    ensures Truthy(Prop(e, "label")) ==> r[0] == Define("label", e["label"])
    ensures Truthy(Prop(e, "value")) ==> r[|r| - 2] == ResultBinding("value") && r[|r| - 1] == Define("value", e["value"])
  {
    (if Truthy(Prop(e, "label")) then AddItem(e["label"], "label", false) else [])
    + (if Truthy(Prop(e, "value")) then AddItem(e["value"], "value", true) else [])
  }

  /**
   * The `item` of one element. `addItem` builds an `attribute` referring to
   * each stored field but never appends it; `attach` says whether the item
   * holds those references (false is the code as written).
   */
  function ItemOf(e: BlockElement, attach: bool): Node {
    Element("item", SetAttr(SetAttr(map[], "name", Prop(e, "name")), "type", Prop(e, "type")),
            if attach then FieldRefs(e) else [])
  }

  /** The attribute references to an element's stored fields. */
  function FieldRefs(e: BlockElement): seq<Node> {
    (if Truthy(Prop(e, "label")) then [AttributeRef("label", DefineName("label"))] else [])
    + (if Truthy(Prop(e, "value")) then [AttributeRef("value", DefineName("value"))] else [])
  }

  /**
   * An item carries the element's `name` and `type`, and holds the
   * references to the element's stored fields exactly when they are attached.
   */
  lemma ItemContents(e: BlockElement, attach: bool)
    ensures var item := ItemOf(e, attach);
            Attr(item, "name") == Prop(e, "name") && Attr(item, "type") == Prop(e, "type")
            && FindIn(item, "attribute") == (if attach then FieldRefs(e) else [])
  {
    var l := AttributeRef("label", DefineName("label"));
    var v := AttributeRef("value", DefineName("value"));
    FindSingle(l, "attribute");
    FindSingle(v, "attribute");
    var refs := FieldRefs(e);
    if Truthy(Prop(e, "label")) && Truthy(Prop(e, "value")) {
      assert refs == [l] + [v];
      FindCons(l, [v], "attribute");
    } else if Truthy(Prop(e, "label")) {
      assert refs == [l];
    } else if Truthy(Prop(e, "value")) {
      assert refs == [v];
    } else {
      assert refs == [];
    }
  }

  /** The items of all elements, in element order. */
  function Items(es: seq<BlockElement>, attach: bool): (r: seq<Node>)
    ensures |r| == |es|
    ensures forall i :: 0 <= i < |es| ==> r[i] == ItemOf(es[i], attach)
  {
    seq(|es|, i requires 0 <= i < |es| => ItemOf(es[i], attach))
  }

  /** The definition fragments of all elements, in element order. */
  function Definitions(es: seq<BlockElement>): (r: seq<Node>)
    ensures forall i :: 0 <= i < |r| ==> r[i].Element? && r[i].tag in {"result", "define"}
    decreases |es|
  {
    if es == [] then [] else Definitions(es[..|es| - 1]) + ElementDefinitions(es[|es| - 1])
  }

  /** The attributes of the `activity` element. */
  function ActivityAttrs(cid: string, pos: Position, labelText: Option<string>, preds: seq<string>): map<string, string> {
    var place := PlaceAttrs(cid, pos);
    var labelled := if Truthy(labelText) then place["label" := labelText.value] else place;
    if |preds| == 1 then labelled["predecessor" := preds[0]] else labelled
  }

  /** The activity a Block writes; `attach` as for `ItemOf`. */
  function Fragment(cid: string, pos: Position, a: BlockAttrs, preds: seq<string>, attach: bool): Node {
    var params := ActivityAttrs(cid, pos, a.labelText, preds);
    if a.elements == [] then Element("activity", params, [])
    else Element("activity", params,
                 [Message(HandleAttributes() + Items(a.elements, attach))] + Definitions(a.elements))
  }

  /**
   * The activity is placed at the node's position, carries the label only
   * when it is non-empty and the predecessor only when there is exactly
   * one, and has no children at all when there are no elements.
   */
  lemma FragmentAttributes(cid: string, pos: Position, a: BlockAttrs, preds: seq<string>, attach: bool)
    ensures var r := Fragment(cid, pos, a, preds, attach);
            Placed(r, cid, pos) && r.tag == "activity"
            && r.attrs.Keys <= {"id", "x", "y", "label", "predecessor"}
            && ("label" in r.attrs <==> Truthy(a.labelText))
            && ("label" in r.attrs ==> r.attrs["label"] == a.labelText.value)
            && ("predecessor" in r.attrs <==> |preds| == 1)
            && ("predecessor" in r.attrs ==> r.attrs["predecessor"] == preds[0])
            && (a.elements == [] <==> r.children == [])
  {
    ToNumberRoundTrip(pos.x);
    ToNumberRoundTrip(pos.y);
  }

  /** `Block.toXml` as written. */
  function BlockFragment(cid: string, pos: Position, a: BlockAttrs, preds: seq<string>): Node {
    Fragment(cid, pos, a, preds, false)
  }

  /** `Block.toXml` with every `attribute` that `addItem` builds appended to its item. */
  function AttachedBlockFragment(cid: string, pos: Position, a: BlockAttrs, preds: seq<string>): Node {
    Fragment(cid, pos, a, preds, true)
  }

  // ----- what a selection finds in the fragment -----

  /** The tags of the fixed envelope. */
  predicate EnvelopeTag(tag: string) {
    tag in {"message", "Envelope", "Body", "postTask", "repliesParam", "element", "taskParam", "task"}
  }

  /** Below the envelope, a selection of any other tag finds only what the task holds. */
  lemma FindMessage(task: seq<Node>, tag: string)
    requires !EnvelopeTag(tag)
    ensures Find([Message(task)], tag) == Find(task, tag)
  {
    var taskNode := Element("task", map[], task);
    var taskParam := Element("taskParam", map[], [taskNode]);
    var element := Element("element", map["xmlns:jbi" := ActivityNs, "value" := "endpoint"], []);
    var replies := Element("repliesParam", map[], [element]);
    var postTask := Element("postTask", map["xmlns:umh" := HandlerNs], [replies, taskParam]);
    var body := Element("Body", map[], [postTask]);
    var msg := Message(task);
    var envelope := msg.children[0];
    assert envelope.children == [body];
    FindSingle(taskNode, tag);
    FindSingle(taskParam, tag);
    FindSingle(element, tag);
    FindSingle(replies, tag);
    FindCons(replies, [taskParam], tag);
    FindSingle(postTask, tag);
    FindSingle(body, tag);
    FindSingle(envelope, tag);
    FindSingle(msg, tag);
  }

  /** The fixed task attributes hold no item and no definition. */
  lemma FindHandleAttributes(tag: string)
    requires tag != "attribute"
    ensures Find(HandleAttributes(), tag) == []
  {
    var hs := HandleAttributes();
    FindCons(hs[0], hs[1..], tag);
    FindCons(hs[1], hs[2..], tag);
    assert hs[2..] == [hs[2]];
    FindSingle(hs[0], tag);
    FindSingle(hs[1], tag);
    FindSingle(hs[2], tag);
  }

  /** An item's attribute references hold nothing but attributes. */
  lemma FindFieldRefs(e: BlockElement, tag: string)
    requires tag != "attribute"
    ensures Find(FieldRefs(e), tag) == []
  {
    var l := AttributeRef("label", DefineName("label"));
    var v := AttributeRef("value", DefineName("value"));
    FindSingle(l, tag);
    FindSingle(v, tag);
    FindCons(l, [v], tag);
  }

  /** A selection below one item, of a tag that is neither item nor attribute, finds nothing. */
  lemma FindItem(e: BlockElement, attach: bool, tag: string)
    requires tag != "attribute"
    ensures Find([ItemOf(e, attach)], tag) == (if tag == "item" then [ItemOf(e, attach)] else [])
  {
    FindSingle(ItemOf(e, attach), tag);
    FindFieldRefs(e, tag);
  }

  /** Selecting items among the items finds each of them, in order; selecting any other tag but attribute finds none. */
  lemma {:induction false} FindItems(es: seq<BlockElement>, attach: bool, tag: string)
    requires tag != "attribute"
    ensures Find(Items(es, attach), tag) == (if tag == "item" then Items(es, attach) else [])
    decreases |es|
  {
    if es != [] {
      var items := Items(es, attach);
      assert items == [ItemOf(es[0], attach)] + Items(es[1..], attach);
      FindCons(ItemOf(es[0], attach), Items(es[1..], attach), tag);
      FindItem(es[0], attach, tag);
      FindItems(es[1..], attach, tag);
    }
  }

  /** The `define` entries among one element's definition fragments, in order. */
  function ElementDefines(e: BlockElement): seq<Node> {
    (if Truthy(Prop(e, "label")) then [Define("label", e["label"])] else [])
    + (if Truthy(Prop(e, "value")) then [Define("value", e["value"])] else [])
  }

  /** What `addItem` appends holds the define of the literal and, for a result field, the result binding before it. */
  lemma FindAddItem(value: string, field: string, result: bool, tag: string)
    ensures Find(AddItem(value, field, result), tag)
         == (if tag == "define" then [Define(field, value)]
             else if tag == "result" && result then [ResultBinding(field)]
             else [])
  {
    var d := Define(field, value);
    FindSingle(d, tag);
    assert FindIn(d, tag) == [] by { FindSingle(Text(value), tag); }
    if result {
      var res := AddItem(value, field, result)[0];
      assert AddItem(value, field, result) == [res] + [d];
      FindSingle(res, tag);
      FindCons(res, [d], tag);
    } else {
      assert AddItem(value, field, result) == [d];
    }
  }

  lemma FindElementDefinitions(e: BlockElement, tag: string)
    ensures Find(ElementDefinitions(e), tag)
         == (if tag == "define" then ElementDefines(e) else if tag == "result" then ElementResults(e) else [])
  {
    var lab := if Truthy(Prop(e, "label")) then AddItem(e["label"], "label", false) else [];
    var val := if Truthy(Prop(e, "value")) then AddItem(e["value"], "value", true) else [];
    FindAppend(lab, val, tag);
    if Truthy(Prop(e, "label")) { FindAddItem(e["label"], "label", false, tag); }
    if Truthy(Prop(e, "value")) { FindAddItem(e["value"], "value", true, tag); }
  }

  /** The `result` bindings among one element's definition fragments. */
  function ElementResults(e: BlockElement): seq<Node> {
    if Truthy(Prop(e, "value")) then [ResultBinding("value")] else []
  }

  /** The `result` bindings of all elements: one for each element with a non-empty value, in element order. */
  function Results(es: seq<BlockElement>): (r: seq<Node>)
    ensures |r| <= |es|
    ensures forall i :: 0 <= i < |r| ==> r[i] == ResultBinding("value")
    ensures r == [] <==> forall i :: 0 <= i < |es| ==> !Truthy(Prop(es[i], "value"))
    decreases |es|
  {
    if es == [] then []
    else
      var init := es[..|es| - 1];
      assert forall i :: 0 <= i < |init| ==> init[i] == es[i];
      Results(init) + ElementResults(es[|es| - 1])
  }

  /** The `define` entries of all elements, in element order. */
  function Defines(es: seq<BlockElement>): seq<Node>
    decreases |es|
  {
    if es == [] then [] else Defines(es[..|es| - 1]) + ElementDefines(es[|es| - 1])
  }

  /**
   * Among the definition fragments, a `define` selection finds the defines
   * in order, a `result` selection the result bindings, any other nothing.
   */
  lemma {:induction false} FindDefinitions(es: seq<BlockElement>, tag: string)
    ensures Find(Definitions(es), tag)
         == (if tag == "define" then Defines(es) else if tag == "result" then Results(es) else [])
    decreases |es|
  {
    if es != [] {
      var init := es[..|es| - 1];
      FindAppend(Definitions(init), ElementDefinitions(es[|es| - 1]), tag);
      FindDefinitions(init, tag);
      FindElementDefinitions(es[|es| - 1], tag);
    }
  }

  /** What an item, define or result selection finds in the whole activity. */
  lemma FindInFragment(cid: string, pos: Position, a: BlockAttrs, preds: seq<string>, attach: bool, tag: string)
    requires tag == "item" || tag == "define" || tag == "result"
    ensures FindIn(Fragment(cid, pos, a, preds, attach), tag)
         == (if tag == "item" then Items(a.elements, attach)
             else if tag == "define" then Defines(a.elements)
             else Results(a.elements))
  {
    var es := a.elements;
    if es == [] {
      assert Items(es, attach) == [];
    } else {
      var task := HandleAttributes() + Items(es, attach);
      FindCons(Message(task), Definitions(es), tag);
      FindMessage(task, tag);
      FindAppend(HandleAttributes(), Items(es, attach), tag);
      FindHandleAttributes(tag);
      FindItems(es, attach, tag);
      FindDefinitions(es, tag);
      assert FindIn(Fragment(cid, pos, a, preds, attach), tag) == Find([Message(task)] + Definitions(es), tag);
    }
  }

  /** A Block refers to its predecessor only when it has exactly one, within its input limit of 1. */
  lemma BlockPredecessors(cid: string, pos: Position, a: BlockAttrs, preds: seq<string>, attach: bool)
    ensures PredecessorRefs(Fragment(cid, pos, a, preds, attach)) == (if |preds| == 1 then preds else [])
    ensures Admits(Limits(Block).input, |PredecessorRefs(Fragment(cid, pos, a, preds, attach))|)
  {
    var r := Fragment(cid, pos, a, preds, attach);
    ChildTextsNone(r.children, "predecessor");
    if |preds| == 1 {
      assert PredecessorRefs(r) == [preds[0]] + [];
    }
  }
}
