# Workflow graph nodes: link limits and XML fragments

This project models the node variants of the fyp process editor's
workflow graph: Start, Block, Split, Join and End. It covers:

- the number of incoming and outgoing links each variant accepts;
- how each variant writes itself as a fragment of a process-definition
  document;
- how Gates (Split and Join) and Blocks read their attributes back from such
  a fragment.

A Block holds an ordered list of block elements (name, type, optional label
and value). It writes them as `item`s of a task carried in a fixed message
envelope. It stores each element's label and value as a `define` entry
(`d_label`, `d_value`) of the activity, and adds a `result` binding
(`r_value`) for a value. Reading back, the Block builds a definition table
from every `define` of the model document. It then reads one element per
`item`, resolving each `attribute` child's value through the table.

The modules are:

- `Wrappers`: the `Option` type.
- `Xml`: the document tree.
  - Elements hold a tag, a map of attributes and ordered children.
  - jQuery's `.attr` is `Attr`, `.find` is `Find`/`FindIn` (descendants in
    document order) and `textContent` is `TextContent`.
  - JavaScript truthiness of a string-or-undefined is `Truthy`.
- `JsNumber`: JavaScript's `String(n)` on integers (`IntToString`) and
  `s - 0` on strings (`ToNumber`).
- `Nodes`:
  - link limits;
  - Start, End and Gate serialisation;
  - Gate deserialisation.
- `BlockXml`: the activity a Block writes, and what an `item` or `define`
  selection finds in it.
- `BlockParse`: the definition table and the element read from an `item`.
- `Blocks`:
  - the `Block` class: `attrs` is a mutable field, `ToXml` builds the
    activity one element at a time, and `FromXml` replaces `attrs`;
  - the `$.each` callbacks as methods;
  - what survives writing and reading back.

Start, End and Gate are pure functions of their inputs. Each fragment's `id`
is the node's `cid` and its `x`, `y` are the cell's position. The
predecessors are passed as the list of their `cid`s.

The code differs from a natural reading of the intended design in two places.
The model follows the code, and each difference is a row under "## Findings".

- **Gate label.** `Gate.fromXml` reads a `label` attribute, but `Gate.toXml`
  never writes one. The gate's label therefore does not survive a round trip.
- **Block attribute.** `addItem` builds an `<attribute name=… value=d_…>` but
  never appends it anywhere. The written `item` therefore refers to nothing,
  and reading back yields only the element's `name` (stored under `label`)
  and `type`.

Two further notes on reading back:

- `Block.fromXml` fills the definition table from the whole model document,
  not only from the activity's own `define` children.
- `Block.toXml` writes an item's `name` from the element's `name`.
  `Block.fromXml` stores an item's `name` under the element's `label`.

## Model

| member | source | states |
|---|---|---|
| Nodes.Limits | js/model/node.js:20-261 | Start accepts no input and End no output; Join accepts any number of inputs and Split any number of outputs; every other bound is exactly one (Block keeps the base's 1/1) |
| Nodes.StartToXml | js/model/node.js:44-53 | a `start` element with exactly `id`, `x`, `y`, whose `x`, `y` read back as the position, and no children |
| Nodes.StartPredecessors | js/model/node.js:46-53 | a Start fragment refers to no predecessor, within its input limit of 0 |
| Nodes.EndToXml | js/model/node.js:259-272 | an `end` element placed at the position; `predecessor` is present exactly when there is a predecessor, and is then the first one |
| Nodes.EndPredecessors | js/model/node.js:259-272 | an End fragment refers to the first predecessor only, within its input limit of 1 |
| Nodes.GateToXml | js/model/node.js:222-242 | the gate's tag; `min`/`max` present exactly when the bound is >= 0; a single predecessor as attribute and no children; several as `predecessor` children in order, and no attribute |
| Nodes.GateAttributes | js/model/node.js:223-229 | the gate fragment's `id`, `x`, `y` name and place the node, and the written bounds read back as the stored numbers |
| Nodes.GatePredecessors | js/model/node.js:230-240 | the predecessors a gate fragment refers to are exactly the given ones, in order; Join's unbounded input admits any number of them |
| Nodes.ChildTextsOfPredecessors | js/model/node.js:235-239 | reading the text of each `predecessor` child the gate appends gives back the predecessor list, in order |
| Nodes.GateFromXml | js/model/node.js:215-220 | label only when non-empty; a present, non-empty `min` or `max` is its text minus 0; an absent or empty one is -1 |
| Nodes.GateRoundTrip | js/model/node.js:215-242 | reading back a written gate keeps every bound >= 0, turns every other bound into -1, and has no label |
| Nodes.GateRoundTripIdempotent | js/model/node.js:215-242 | a second write-and-read changes nothing more |
| Nodes.GateLabelLost | js/model/node.js:217 | a gate labelled "approve" reads back with no label |
| Nodes.LabelledGateToXml | js/model/node.js:217-233 | the corrected serialiser writes `label` exactly when the label is non-empty, and otherwise writes the same attributes and children as `Gate.toXml` |
| Nodes.LabelledGateRoundTrip | js/model/node.js:215-242 | with the label written, label and set bounds survive the round trip |
| BlockXml.ItemContents | js/model/node.js:188-191 | an item carries the element's `name` and `type`; it holds the `attribute` references to the stored fields only when they are attached, and none as written (node.js:70-74) |
| BlockXml.ElementDefinitions | js/model/node.js:192-197 | for one element: the label's `define` first when it has a label; for a value, the `r_value` result binding immediately followed by the `d_value` define; nothing else |
| BlockXml.Results | js/model/node.js:61-67 | the result bindings of all elements are each `r_value` bound to `/values/value/text()`, at most one per element, and there are none exactly when no element has a non-empty value |
| BlockXml.FragmentAttributes | js/model/node.js:129-143 | the activity is placed at the position; `label` present exactly when the label is non-empty; `predecessor` exactly when there is one predecessor; no children when there are no elements |
| BlockXml.BlockPredecessors | js/model/node.js:137-139 | a Block refers to its predecessor only when it has exactly one, within its input limit of 1 |
| BlockXml.FindAddItem | js/model/node.js:60-75 | a `define` selection over what `addItem` appends finds the one `define` holding the literal under `d_<field>`; a `result` selection finds the `r_<field>` binding exactly for a result field |
| BlockXml.FindElementDefinitions | js/model/node.js:192-197 | one element's fragments hold its label's `define`, then its value's, and a `result` binding exactly when it has a value |
| BlockXml.FindItems | js/model/node.js:187-191 | an `item` selection over the task's items finds each of them, in order |
| BlockXml.FindMessage | js/model/node.js:145-185 | below the constant envelope, a selection of any non-envelope tag finds only what the task holds |
| BlockXml.FindHandleAttributes | js/model/node.js:171-185 | the three fixed task attributes hold no item and no definition |
| BlockXml.FindDefinitions | js/model/node.js:187-198 | a `define` selection over all elements' fragments finds the defines in element order, a `result` selection the result bindings |
| BlockXml.FindInFragment | js/model/node.js:129-201 | selecting `item` in the activity finds exactly the elements' items in order; selecting `define` finds exactly the elements' defines in order; selecting `result` finds one binding per element with a value |
| Blocks.AppendElement | js/model/node.js:187-198 | one callback step appends the element's item to the task and its label's and value's fragments to the activity |
| Blocks.Block.ToXml | js/model/node.js:129-201 | the activity built step by step equals the Block's fragment for its current `attrs` |
| Blocks.ReadDefines | js/model/node.js:97-102 | the table built entry by entry is the definition table of the selected defines |
| Blocks.ReadItem | js/model/node.js:105-123 | the element built from one item is its `name` as `label`, its `type`, and its attributes applied in order with resolution |
| Blocks.ReadItems | js/model/node.js:104-123 | one element per item, in item order |
| Blocks.Block.FromXml | js/model/node.js:93-127 | afterwards `attrs` is the label (when non-empty) and the elements read from the items through the model's definition table |
| BlockParse.DefineTableLastWins | js/model/node.js:97-102 | the table holds a name exactly when some define has it, and then the text of the last define with that name |
| BlockParse.ApplyAttributesLastWins | js/model/node.js:113-120 | a key named by attributes holds the resolved value of the last such attribute |
| BlockParse.ApplyAttributesUntouched | js/model/node.js:113-120 | a key named by no attribute keeps its value |
| BlockParse.PropAssign | js/model/node.js:119 | storing under one key changes only that key, and storing undefined reads as missing |
| BlockParse.ResolveMeaning | js/model/node.js:117 | a value naming a non-empty table entry becomes that entry's text; otherwise it is kept |
| BlockParse.ParseItemAttribute | js/model/node.js:104-123 | a parsed element's key named by an attribute is the last such attribute's value, resolved through the table |
| BlockParse.ParseItemOwn | js/model/node.js:106-112 | a key named by no attribute: `label` is the item's `name`, `type` its `type`, any other key is missing |
| BlockParse.ParsedBlockShape | js/model/node.js:93-127 | one element per item, and the label exactly when non-empty |
| Blocks.ParseWrittenItem | js/model/node.js:187-191 | an item as written reads back as the element's `name` under `label` and its `type`, whatever the table |
| Blocks.ParseAttachedItem | js/model/node.js:60-75 | an item holding its references reads back its label and value as the table's texts for `d_label`, `d_value` |
| Blocks.DefinesTableEntries | js/model/node.js:60-75 | a written Block's table holds only `d_label` and `d_value`, with non-empty texts |
| Blocks.DefinesTableHas | js/model/node.js:192-197 | the table holds `d_label` (`d_value`) exactly when some element has a non-empty label (value) |
| Blocks.DefinesTableLast | js/model/node.js:97-102 | the table's `d_label` (`d_value`) is the label (value) of the last element that has one |
| Blocks.WrittenRoundTrip | js/model/node.js:93-201 | reading back a written Block keeps the non-empty label and one element per element, each holding only `name` (as `label`) and `type`, for any model document |
| Blocks.AttachedRoundTrip | js/model/node.js:93-201 | with references attached and the activity as the model, each element reads back with the table's `d_label`, `d_value` texts |
| Blocks.AttachedSingleRoundTrip | js/model/node.js:93-201 | with references attached, a one-element Block reads back its own label and value |
| Blocks.AttachedLabelsCollide | js/model/node.js:68-69 | even with references attached, every labelled element reads back the last element's label, since all share `d_label` |
| Blocks.WrittenExample | js/model/node.js:70-74 | {name n, type t, label hello, value 42} reads back as {label n, type t} |
| Blocks.AttachedExample | js/model/node.js:70-74 | with the references attached, the same element reads back as {label hello, type t, value 42} |
| JsNumber.ToNumberRoundTrip | js/model/node.js:218-229 | a written integer read back with `- 0` is that integer |
| JsNumber.IntToStringInjective | js/model/node.js:228-229 | distinct integers are written as distinct strings |
| Xml.Find | js/model/node.js:99 | every node a selection finds carries the selected tag |
| Xml.FindComplete | js/model/node.js:99 | a selection misses nothing: every element with the selected tag, among the nodes or at any depth below them, is found |
| Xml.FindAppend | js/model/node.js:99 | selecting in two consecutive forests finds the first one's matches, then the second one's: document order |
| Xml.FindSingle | js/model/node.js:113 | selecting below one node finds the node itself when it matches, then its descendants' matches |

## Left out

- Rendering and interaction are not modelled, because they do not affect the
  documents: the `NodeClass` cell, `create`, `tooltip`, `edit`, `setText` and
  the dialogues.
- The graph-level driver that calls `toXml` and `fromXml` on each node and
  resolves predecessor references is not part of this model. Whether a
  node's predecessor count fits its limit is stated here as `Admits` only.
  js/store/model.js (upload, fetch, delete and caching of models) and
  js/viewer.js (page start-up) are not part of this model either.
- Namespace-prefixed selectors (`pe:define`, `umh:item`, `jbi:attribute`)
  are modelled by their unprefixed tag only.
- XML text serialisation and parsing are left out. So are jQuery's HTML
  parsing of `$('<predecessor>' + cid + '</predecessor>')` and of
  `.append(value)`. The model takes each as producing the element or text
  node it evidently intends.
- `ToNumber` models `s - 0` only for the empty string and for an optional
  '-' followed by decimal digits. Every other string becomes NaN, including
  whitespace, '+', fractions, exponents and hexadecimal, which JavaScript
  reads differently. Positions are integers, and `String` of a non-integer
  position is not modelled.
- Keys of JavaScript's object prototype (such as `constructor`), which a
  lookup in `defines = {}` would find, are not modelled. The table holds
  only what the defines put there.
- A Block or Gate whose `attrs` were never set is not modelled: `create`
  sets no `attrs`, so `toXml` would throw reading `this.attrs`. In the
  model `attrs` always has a value.
- JavaScript numbers are doubles, but `IntToString` and `ToNumber` are exact
  on unbounded integers. `String(n)` switches to exponent form from 1e21,
  and `s - 0` rounds digit strings above 2^53. Neither is modelled.
- Assigning `undefined` to an element property (`element.label = undefined`
  when an item has no `name`, or an attribute with no `value`) creates a key
  that holds undefined. `Assign` removes the key instead. Every read through
  `Prop` sees undefined either way, but the set of keys differs.
- `Gate.fromXml` assigns `this.attrs`. It is modelled as a pure function
  returning the new attrs, since a gate's state is nothing else.
- Attribute namespace declarations (`xmlns:jbi`, `xmlns:env`, `xmlns:umh`)
  are kept as ordinary attributes of the constant envelope.
- Blocks.AttachedRoundTrip: stated only for a model document holding just
  the activity, because a larger model can supply further `define` entries
  that the table would also pick up.

## Findings

| source | as written | input that shows it | evidently intended | confidence | as-written member | corrected member |
|---|---|---|---|---|---|---|
| js/model/node.js:70-74 | `addItem` builds the `<attribute name=field value=d_field>` but never appends it to `$item`, so the item carries no reference to the stored literal | a Block element {name n, type t, label hello, value 42}, written then read back from the same document | the attribute is appended to the item, so the element reads back as {label hello, type t, value 42} | high (not executed) | Blocks.WrittenExample | Blocks.AttachedExample |
| js/model/node.js:222-233 | `Gate.toXml` writes `min`, `max` and `predecessor` but not the `label` that `Gate.fromXml` reads at line 217 | a gate labelled "approve" with no bounds, written then read back | the label is written when non-empty and reads back unchanged | high (not executed) | Nodes.GateLabelLost | Nodes.LabelledGateRoundTrip |
