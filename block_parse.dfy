/**
 * How a Block reads its attributes back: the `define` entries of the whole
 * model form a definition table (name to text, the last entry for a name
 * winning), and each `attribute` of an item whose value names a non-empty
 * entry is replaced by that entry's text.
 */
module BlockParse {
  import opened Wrappers
  import opened Xml
  import opened BlockXml

  /** The property key JavaScript uses for a string-or-undefined: undefined becomes "undefined". */
  function KeyOf(v: Option<string>): string {
    v.GetOr("undefined")
  }

  /** The key a `define` or `attribute` entry is filed under: its `name` attribute. */
  function NameOf(n: Node): string {
    KeyOf(Attr(n, "name"))
  }

  /** `defines[name] = this.textContent` for each entry in turn. */
  function DefineTable(ds: seq<Node>): map<string, string>
    decreases |ds|
  {
    if ds == [] then map[]
    else DefineTable(ds[..|ds| - 1])[NameOf(ds[|ds| - 1]) := TextContent(ds[|ds| - 1])]
  }

  /** Reading `defines[key]`. */
  function Lookup(defs: map<string, string>, key: string): Option<string> {
    if key in defs then Some(defs[key]) else None
  }

  /** `if (defines[value]) value = defines[value]`. */
  function Resolve(v: Option<string>, defs: map<string, string>): Option<string> {
    if Truthy(Lookup(defs, KeyOf(v))) then Lookup(defs, KeyOf(v)) else v
  }

  /** `element[key] = v`; storing undefined reads like a missing key. */
  function Assign(e: BlockElement, key: string, v: Option<string>): BlockElement {
    if v.Some? then e[key := v.value] else e - {key}
  }

  /** The attributes of an item applied to its element in order. */
  function ApplyAttributes(e: BlockElement, attrs: seq<Node>, defs: map<string, string>): BlockElement
    decreases |attrs|
  {
    if attrs == [] then e
    else
      var last := attrs[|attrs| - 1];
      Assign(ApplyAttributes(e, attrs[..|attrs| - 1], defs), NameOf(last), Resolve(Attr(last, "value"), defs))
  }

  /** An item's element before its attributes: `label` from the item's `name`, and its `type`. */
  function ItemBase(item: Node): BlockElement {
    Assign(Assign(map[], "label", Attr(item, "name")), "type", Attr(item, "type"))
  }

  /** The element read from one item. */
  function ParseItem(item: Node, defs: map<string, string>): BlockElement {
    ApplyAttributes(ItemBase(item), FindIn(item, "attribute"), defs)
  }

  /** The elements read from the items, one per item, in document order. */
  function ParseItems(items: seq<Node>, defs: map<string, string>): seq<BlockElement> {
    seq(|items|, i requires 0 <= i < |items| => ParseItem(items[i], defs))
  }

  /** `Block.fromXml($xml, $model)`: the attrs it assigns. */
  function ParsedBlock(xml: Node, model: Node): BlockAttrs {
    BlockAttrs(if Truthy(Attr(xml, "label")) then Attr(xml, "label") else None,
               ParseItems(FindIn(xml, "item"), DefineTable(FindIn(model, "define"))))
  }

  /**
   * The table holds a name exactly when some entry has it, and then the
   * text of the last entry with that name.
   */
  lemma {:induction false} DefineTableLastWins(ds: seq<Node>, key: string)
    ensures key in DefineTable(ds) <==> exists i :: 0 <= i < |ds| && NameOf(ds[i]) == key
    ensures forall i :: 0 <= i < |ds| && NameOf(ds[i]) == key
                        && (forall j :: i < j < |ds| ==> NameOf(ds[j]) != key)
                        ==> key in DefineTable(ds) && DefineTable(ds)[key] == TextContent(ds[i])
    decreases |ds|
  {
    if ds != [] {
      var init := ds[..|ds| - 1];
      DefineTableLastWins(init, key);
      assert forall i :: 0 <= i < |init| ==> init[i] == ds[i];
      if NameOf(ds[|ds| - 1]) != key {
        assert (exists i :: 0 <= i < |ds| && NameOf(ds[i]) == key)
           ==> (exists i :: 0 <= i < |init| && NameOf(init[i]) == key);
      }
    }
  }

  /** After applying an item's attributes, a key holds the resolved value of the last attribute with that name. */
  lemma {:induction false} ApplyAttributesLastWins(e: BlockElement, attrs: seq<Node>, defs: map<string, string>, key: string, i: nat)
    requires i < |attrs| && NameOf(attrs[i]) == key
    requires forall j :: i < j < |attrs| ==> NameOf(attrs[j]) != key
    ensures Prop(ApplyAttributes(e, attrs, defs), key) == Resolve(Attr(attrs[i], "value"), defs)
    decreases |attrs|
  {
    var n := |attrs| - 1;
    var init := attrs[..n];
    PropAssign(ApplyAttributes(e, init, defs), NameOf(attrs[n]), Resolve(Attr(attrs[n], "value"), defs), key);
    if i < n {
      assert init[i] == attrs[i];
      assert forall j :: i < j < |init| ==> init[j] == attrs[j];
      ApplyAttributesLastWins(e, init, defs, key, i);
    }
  }

  /** A key no attribute names keeps its value. */
  lemma {:induction false} ApplyAttributesUntouched(e: BlockElement, attrs: seq<Node>, defs: map<string, string>, key: string)
    requires forall i :: 0 <= i < |attrs| ==> NameOf(attrs[i]) != key
    ensures Prop(ApplyAttributes(e, attrs, defs), key) == Prop(e, key)
    decreases |attrs|
  {
    if attrs != [] {
      var n := |attrs| - 1;
      var init := attrs[..n];
      PropAssign(ApplyAttributes(e, init, defs), NameOf(attrs[n]), Resolve(Attr(attrs[n], "value"), defs), key);
      assert forall i :: 0 <= i < |init| ==> init[i] == attrs[i];
      ApplyAttributesUntouched(e, init, defs, key);
    }
  }

  lemma PropAssign(e: BlockElement, k: string, v: Option<string>, key: string)
    ensures Prop(Assign(e, k, v), key) == if k == key then v else Prop(e, key)
  {
  }

  /** A resolved value is the table's non-empty text for the named entry, or the literal otherwise. */
  lemma ResolveMeaning(v: Option<string>, defs: map<string, string>)
    ensures KeyOf(v) in defs && defs[KeyOf(v)] != "" ==> Resolve(v, defs) == Some(defs[KeyOf(v)])
    ensures !(KeyOf(v) in defs && defs[KeyOf(v)] != "") ==> Resolve(v, defs) == v
  {
  }

  /** A key of a parsed element named by some attribute: the last such attribute's value, resolved through the table. */
  lemma ParseItemAttribute(item: Node, defs: map<string, string>, key: string, i: nat)
    requires var attrs := FindIn(item, "attribute");
             i < |attrs| && NameOf(attrs[i]) == key
             && forall j :: i < j < |attrs| ==> NameOf(attrs[j]) != key
    ensures Prop(ParseItem(item, defs), key) == Resolve(Attr(FindIn(item, "attribute")[i], "value"), defs)
  {
    ApplyAttributesLastWins(ItemBase(item), FindIn(item, "attribute"), defs, key, i);
  }

  /** A key of a parsed element named by no attribute: `label` is the item's `name`, `type` its `type`, any other key missing. */
  lemma ParseItemOwn(item: Node, defs: map<string, string>, key: string)
    requires var attrs := FindIn(item, "attribute");
             forall i :: 0 <= i < |attrs| ==> NameOf(attrs[i]) != key
    ensures Prop(ParseItem(item, defs), key)
         == (if key == "label" then Attr(item, "name") else if key == "type" then Attr(item, "type") else None)
  {
    ApplyAttributesUntouched(ItemBase(item), FindIn(item, "attribute"), defs, key);
  }

  /** One element per item, in item order, and the label only when non-empty. */
  lemma ParsedBlockShape(xml: Node, model: Node)
    ensures var a := ParsedBlock(xml, model);
            |a.elements| == |FindIn(xml, "item")|
            && (a.labelText.Some? <==> Truthy(Attr(xml, "label")))
            && (a.labelText.Some? ==> a.labelText == Attr(xml, "label"))
  {
  }
}
