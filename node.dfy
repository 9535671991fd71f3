/**
 * The node variants of a workflow graph (Start, Split, Join, End; Block is
 * in module Blocks): the number of links each variant accepts, and how
 * each one writes itself as a process-definition fragment and reads its
 * attributes back.
 */
module Nodes {
  import opened Wrappers
  import opened Xml
  import opened JsNumber

  datatype Kind = Start | Block | Split | Join | End

  /** The link limit that stands for "any number". */
  const Unbounded: int := -1

  datatype LinkLimit = LinkLimit(input: int, output: int)

  /**
   * The `linkLimit` each variant declares; Block keeps the default of the
   * shared base (one in, one out).
   */
  function Limits(k: Kind): (l: LinkLimit)
    ensures l.input >= Unbounded && l.output >= Unbounded
    ensures l.input == 0 <==> k == Start
    ensures l.output == 0 <==> k == End
    ensures l.input == Unbounded <==> k == Join
    ensures l.output == Unbounded <==> k == Split
    ensures k in {Start, Block, Join} ==> l.output == 1
    ensures k in {Block, Split, End} ==> l.input == 1
  {
    match k
    case Start => LinkLimit(0, 1)
    case Block => LinkLimit(1, 1)
    case Split => LinkLimit(1, Unbounded)
    case Join => LinkLimit(Unbounded, 1)
    case End => LinkLimit(1, 0)
  }

  /** Whether `count` links fit under a declared limit. */
  predicate Admits(limit: int, count: nat) {
    limit == Unbounded || count <= limit
  }

  /** The position of the node's cell on the canvas, passed through unchanged. */
  datatype Position = Position(x: int, y: int)

  /** The `id`, `x` and `y` attributes every variant writes. */
  function PlaceAttrs(cid: string, pos: Position): map<string, string> {
    map["id" := cid, "x" := IntToString(pos.x), "y" := IntToString(pos.y)]
  }

  /** A fragment names its node and its place: `id`, and `x`, `y` that read back as the position. */
  predicate Placed(r: Node, cid: string, pos: Position) {
    r.Element? && Attr(r, "id") == Some(cid)
    && "x" in r.attrs && ToNumber(r.attrs["x"]) == Int(pos.x)
    && "y" in r.attrs && ToNumber(r.attrs["y"]) == Int(pos.y)
  }

  /**
   * The ids a fragment refers to as predecessors: its `predecessor`
   * attribute, then the text of each `<predecessor>` child, in order.
   */
  function PredecessorRefs(n: Node): seq<string> {
    (if n.Element? && "predecessor" in n.attrs then [n.attrs["predecessor"]] else [])
    + (if n.Element? then ChildTexts(n.children, "predecessor") else [])
  }

  /** The text of each direct child element with the given tag, in order. */
  function ChildTexts(cs: seq<Node>, tag: string): seq<string>
    decreases |cs|
  {
    if cs == [] then []
    else
      (if cs[0].Element? && cs[0].tag == tag then [TextContent(cs[0])] else [])
      + ChildTexts(cs[1..], tag)
  }

  /** With no direct child carrying the tag, there are no child texts. */
  lemma {:induction false} ChildTextsNone(cs: seq<Node>, tag: string)
    requires forall i :: 0 <= i < |cs| ==> !(cs[i].Element? && cs[i].tag == tag)
    ensures ChildTexts(cs, tag) == []
    decreases |cs|
  {
    if cs != [] {
      ChildTextsNone(cs[1..], tag);
    }
  }

  // ----- Start -----

  /** `Start.toXml`: a `start` element placed at the node's position. */
  function StartToXml(cid: string, pos: Position): (r: Node)
    ensures Placed(r, cid, pos) && r.tag == "start"
    ensures r.attrs.Keys == {"id", "x", "y"} && r.children == []
  {
    ToNumberRoundTrip(pos.x);
    ToNumberRoundTrip(pos.y);
    Element("start", PlaceAttrs(cid, pos), [])
  }

  /** A Start fragment refers to no predecessor, as its input limit of 0 requires. */
  lemma StartPredecessors(cid: string, pos: Position)
    ensures PredecessorRefs(StartToXml(cid, pos)) == []
    ensures Admits(Limits(Start).input, |PredecessorRefs(StartToXml(cid, pos))|)
  {
    assert "predecessor" !in StartToXml(cid, pos).attrs;
  }

  // ----- End -----

  /** `End.toXml`: an `end` element naming the first predecessor, if there is one. */
  function EndToXml(cid: string, pos: Position, preds: seq<string>): (r: Node)
    ensures Placed(r, cid, pos) && r.tag == "end" && r.children == []
    ensures "predecessor" in r.attrs <==> |preds| > 0
    ensures |preds| > 0 ==> r.attrs["predecessor"] == preds[0]
    ensures r.attrs.Keys <= {"id", "x", "y", "predecessor"}
  {
    ToNumberRoundTrip(pos.x);
    ToNumberRoundTrip(pos.y);
    var place := PlaceAttrs(cid, pos);
    Element("end", if |preds| > 0 then place["predecessor" := preds[0]] else place, [])
  }

  /** An End fragment refers to the first predecessor only, within its input limit of 1. */
  lemma EndPredecessors(cid: string, pos: Position, preds: seq<string>)
    ensures PredecessorRefs(EndToXml(cid, pos, preds)) == (if preds == [] then [] else [preds[0]])
    ensures Admits(Limits(End).input, |PredecessorRefs(EndToXml(cid, pos, preds))|)
  {
  }

  // ----- Gate (Split and Join) -----

  datatype GateKind = SplitGate | JoinGate {
    function Tag(): string {
      match this
      case SplitGate => "split"
      case JoinGate => "join"
    }
    function Kind(): Kind {
      match this
      case SplitGate => Split
      case JoinGate => Join
    }
  }

  /** A gate's `attrs`: an optional label and the occurrence bounds, -1 meaning "not set". */
  datatype GateAttrs = GateAttrs(labelText: Option<string>, min: Number, max: Number)

  /** `this.attrs.min >= 0`: NaN and negative bounds are not written. */
  predicate IsSet(b: Number) {
    b.Int? && b.value >= 0
  }

  /** A set bound reads back as itself. */
  lemma BoundReadsBack(b: Number)
    ensures IsSet(b) ==> ToNumber(IntToString(b.value)) == b
  {
    if IsSet(b) { ToNumberRoundTrip(b.value); }
  }

  /** One `<predecessor>id</predecessor>` child. */
  function PredecessorChild(id: string): Node {
    Element("predecessor", map[], [Text(id)])
  }

  /** One predecessor child per predecessor, in list order. */
  function PredecessorChildren(preds: seq<string>): (cs: seq<Node>)
    ensures |cs| == |preds|
    ensures forall i :: 0 <= i < |preds| ==> cs[i] == PredecessorChild(preds[i])
  {
    seq(|preds|, i requires 0 <= i < |preds| => PredecessorChild(preds[i]))
  }

  /**
   * `Gate.toXml`: the `split` or `join` element with its set bounds, a single
   * predecessor as an attribute, several as child elements.
   */
  function GateToXml(g: GateKind, cid: string, pos: Position, a: GateAttrs, preds: seq<string>): (r: Node)
    ensures r.Element? && r.tag == g.Tag()
    ensures r.attrs.Keys <= {"id", "x", "y", "min", "max", "predecessor"}
    ensures "min" in r.attrs <==> IsSet(a.min)
    ensures "max" in r.attrs <==> IsSet(a.max)
    ensures "predecessor" in r.attrs <==> |preds| == 1
    ensures |preds| == 1 ==> r.attrs["predecessor"] == preds[0] && r.children == []
    ensures |preds| > 1 ==> r.children == PredecessorChildren(preds)
    ensures |preds| == 0 ==> r.children == []
  {
    var place := PlaceAttrs(cid, pos);
    var withMin := if IsSet(a.min) then place["min" := IntToString(a.min.value)] else place;
    var withMax := if IsSet(a.max) then withMin["max" := IntToString(a.max.value)] else withMin;
    var params := if |preds| == 1 then withMax["predecessor" := preds[0]] else withMax;
    Element(g.Tag(), params, if |preds| > 1 then PredecessorChildren(preds) else [])
  }

  /** A gate fragment is placed at the node's position, and its bounds read back as the stored ones. */
  lemma GateAttributes(g: GateKind, cid: string, pos: Position, a: GateAttrs, preds: seq<string>)
    ensures var r := GateToXml(g, cid, pos, a, preds);
            Placed(r, cid, pos)
            && ("min" in r.attrs ==> ToNumber(r.attrs["min"]) == a.min)
            && ("max" in r.attrs ==> ToNumber(r.attrs["max"]) == a.max)
  {
    ToNumberRoundTrip(pos.x);
    ToNumberRoundTrip(pos.y);
    BoundReadsBack(a.min);
    BoundReadsBack(a.max);
  }

  lemma {:induction false} ChildTextsOfPredecessors(preds: seq<string>)
    ensures ChildTexts(PredecessorChildren(preds), "predecessor") == preds
    decreases |preds|
  {
    if preds != [] {
      var cs := PredecessorChildren(preds);
      assert cs[1..] == PredecessorChildren(preds[1..]);
      ChildTextsOfPredecessors(preds[1..]);
      assert TextContent(cs[0]) == preds[0] by {
        assert cs[0] == PredecessorChild(preds[0]);
        assert Texts([Text(preds[0])]) == preds[0] + Texts([]);
      }
    }
  }

  /**
   * A gate fragment refers to exactly the given predecessors, in order,
   * whatever their number; only Split's input limit can then be exceeded.
   */
  lemma GatePredecessors(g: GateKind, cid: string, pos: Position, a: GateAttrs, preds: seq<string>)
    ensures PredecessorRefs(GateToXml(g, cid, pos, a, preds)) == preds
    ensures g == JoinGate || |preds| <= 1 ==> Admits(Limits(g.Kind()).input, |preds|)
  {
    var r := GateToXml(g, cid, pos, a, preds);
    if |preds| > 1 {
      ChildTextsOfPredecessors(preds);
    } else if |preds| == 1 {
      assert PredecessorRefs(r) == [preds[0]] + [];
    }
  }

  /** `number - 0` of a present, non-empty attribute, -1 otherwise. */
  function BoundFrom(v: Option<string>): Number {
    if Truthy(v) then ToNumber(v.value) else Int(-1)
  }

  /** `Gate.fromXml`: the label when non-empty, and `min`, `max` defaulting to -1. */
  function GateFromXml(xml: Node): (a: GateAttrs)
    ensures a.labelText.Some? <==> Truthy(Attr(xml, "label"))
    ensures a.labelText.Some? ==> a.labelText == Attr(xml, "label")
    ensures !Truthy(Attr(xml, "min")) ==> a.min == Int(-1)
    ensures !Truthy(Attr(xml, "max")) ==> a.max == Int(-1)
    ensures Truthy(Attr(xml, "min")) ==> a.min == ToNumber(Attr(xml, "min").value)
    ensures Truthy(Attr(xml, "max")) ==> a.max == ToNumber(Attr(xml, "max").value)
  {
    GateAttrs(if Truthy(Attr(xml, "label")) then Attr(xml, "label") else None,
              BoundFrom(Attr(xml, "min")), BoundFrom(Attr(xml, "max")))
  }

  /** What a bound becomes after writing and reading back: kept when set, -1 otherwise. */
  function Normalised(b: Number): Number {
    if IsSet(b) then b else Int(-1)
  }

  /**
   * Writing a gate and reading it back keeps every bound >= 0, turns
   * every other bound into -1, and loses the label (toXml does not write it).
   */
  lemma GateRoundTrip(g: GateKind, cid: string, pos: Position, a: GateAttrs, preds: seq<string>)
    ensures GateFromXml(GateToXml(g, cid, pos, a, preds)) == GateAttrs(None, Normalised(a.min), Normalised(a.max))
  {
    var r := GateToXml(g, cid, pos, a, preds);
    GateAttributes(g, cid, pos, a, preds);
    if IsSet(a.min) { assert Truthy(Attr(r, "min")) by { assert r.attrs["min"] == IntToString(a.min.value); } }
    if IsSet(a.max) { assert Truthy(Attr(r, "max")) by { assert r.attrs["max"] == IntToString(a.max.value); } }
  }

  /** A second write-and-read changes nothing more. */
  lemma GateRoundTripIdempotent(g: GateKind, cid: string, pos: Position, a: GateAttrs, preds: seq<string>)
    ensures var once := GateFromXml(GateToXml(g, cid, pos, a, preds));
            GateFromXml(GateToXml(g, cid, pos, once, preds)) == once
  {
    var once := GateFromXml(GateToXml(g, cid, pos, a, preds));
    GateRoundTrip(g, cid, pos, a, preds);
    GateRoundTrip(g, cid, pos, once, preds);
  }

  // ----- Gate label -----

  /**
   * Gate.toXml with the label written when it is non-empty, in the
   * attribute Gate.fromXml reads it from.
   */
  function LabelledGateToXml(g: GateKind, cid: string, pos: Position, a: GateAttrs, preds: seq<string>): (r: Node)
    ensures r.Element? && r.tag == g.Tag()
    ensures "label" in r.attrs <==> Truthy(a.labelText)
    ensures Truthy(a.labelText) ==> r.attrs["label"] == a.labelText.value
    ensures var plain := GateToXml(g, cid, pos, a, preds);
            r.attrs - {"label"} == plain.attrs - {"label"} && r.children == plain.children
  {
    var plain := GateToXml(g, cid, pos, a, preds);
    if Truthy(a.labelText) then Element(plain.tag, plain.attrs["label" := a.labelText.value], plain.children)
    else plain
  }

  /** As written, a gate's non-empty label does not survive writing and reading back. */
  lemma GateLabelLost(g: GateKind, cid: string, pos: Position, preds: seq<string>)
    ensures var a := GateAttrs(Some("approve"), Int(-1), Int(-1));
            GateFromXml(GateToXml(g, cid, pos, a, preds)).labelText == None
  {
    GateRoundTrip(g, cid, pos, GateAttrs(Some("approve"), Int(-1), Int(-1)), preds);
  }

  /** With the label written, it survives the round trip along with the set bounds. */
  lemma LabelledGateRoundTrip(g: GateKind, cid: string, pos: Position, a: GateAttrs, preds: seq<string>)
    ensures GateFromXml(LabelledGateToXml(g, cid, pos, a, preds))
         == GateAttrs(if Truthy(a.labelText) then a.labelText else None, Normalised(a.min), Normalised(a.max))
  {
    var plain := GateToXml(g, cid, pos, a, preds);
    var r := LabelledGateToXml(g, cid, pos, a, preds);
    assert Attr(r, "min") == Attr(plain, "min") && Attr(r, "max") == Attr(plain, "max");
    GateRoundTrip(g, cid, pos, a, preds);
  }
}
