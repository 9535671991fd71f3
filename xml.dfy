/**
 * The document fragments the node variants build and read: a tree of
 * elements and text, with the few jQuery operations the variants use on it
 * (`.attr`, `.find`, `.textContent`) and the JavaScript truthiness test
 * applied to what `.attr` returns.
 */
module Xml {
  import opened Wrappers

  /** An element carries each attribute name at most once, as a DOM element does. */
  datatype Node =
    | Element(tag: string, attrs: map<string, string>, children: seq<Node>)
    | Text(text: string)

  /** `$(n).attr(name)`: the attribute's text, or undefined. */
  function Attr(n: Node, name: string): Option<string> {
    if n.Element? && name in n.attrs then Some(n.attrs[name]) else None
  }

  /** JavaScript truthiness of a string-or-undefined: defined and not empty. */
  predicate Truthy(v: Option<string>) {
    v.Some? && v.value != ""
  }

  /**
   * Every element with the given tag inside the forest `ns`, at any depth,
   * in document order: what jQuery's `.find(tag)` selects below a node.
   */
  function Find(ns: seq<Node>, tag: string): (r: seq<Node>)
    ensures forall i :: 0 <= i < |r| ==> r[i].Element? && r[i].tag == tag
    decreases ns
  {
    if ns == [] then []
    else
      var n := ns[0];
      (if n.Element? && n.tag == tag then [n] else [])
      + (if n.Element? then Find(n.children, tag) else [])
      + Find(ns[1..], tag)
  }

  /** `$(n).find(tag)`: the descendants of `n` (not `n` itself) with that tag. */
  function FindIn(n: Node, tag: string): seq<Node> {
    if n.Element? then Find(n.children, tag) else []
  }

  /** The concatenated text of a forest, in document order. */
  function Texts(ns: seq<Node>): string
    decreases ns
  {
    if ns == [] then ""
    else
      (match ns[0]
       case Text(t) => t
       case Element(_, _, cs) => Texts(cs))
      + Texts(ns[1..])
  }

  /** The DOM `textContent` of a node. */
  function TextContent(n: Node): string {
    match n
    case Text(t) => t
    case Element(_, _, cs) => Texts(cs)
  }

  /** A selection misses nothing: every element with the tag, at any depth, is found. */
  lemma {:induction false} FindComplete(ns: seq<Node>, tag: string)
    ensures forall k :: 0 <= k < |ns| && ns[k].Element? && ns[k].tag == tag ==> ns[k] in Find(ns, tag)
    ensures forall k, x :: 0 <= k < |ns| && ns[k].Element? && x in Find(ns[k].children, tag) ==> x in Find(ns, tag)
    decreases ns
  {
    if ns != [] {
      FindComplete(ns[1..], tag);
      forall k | 1 <= k < |ns|
        ensures ns[k] == ns[1..][k - 1]
      {
      }
    }
  }

  /** Selecting in two consecutive forests selects in each, in order. */
  lemma {:induction false} FindAppend(a: seq<Node>, b: seq<Node>, tag: string)
    ensures Find(a + b, tag) == Find(a, tag) + Find(b, tag)
    decreases a
  {
    if a == [] {
      assert a + b == b;
    } else {
      assert (a + b)[0] == a[0];
      assert (a + b)[1..] == a[1..] + b;
      FindAppend(a[1..], b, tag);
    }
  }

  /** Selecting below a single node: the node itself if it matches, then its descendants. */
  lemma FindSingle(n: Node, tag: string)
    ensures Find([n], tag) == (if n.Element? && n.tag == tag then [n] else []) + FindIn(n, tag)
  {
    assert [n][1..] == [];
  }

  /** Selecting below a node with one more child appended. */
  lemma FindCons(n: Node, rest: seq<Node>, tag: string)
    ensures Find([n] + rest, tag) == Find([n], tag) + Find(rest, tag)
  {
    FindAppend([n], rest, tag);
  }
}
