/**
 * The documentation tree: the node kinds the `unist-builder` calls in
 * docs/directives.mjs create, plus a catch-all for whatever else the
 * external markup parser returns. Two observers are defined over it: the
 * set of anchor identifiers a tree carries and its plain text.
 */
module Nodes {

  datatype Node =
    | Text(value: string)
    | InlineCode(value: string)
    | Strong(children: seq<Node>)
    | Emphasis(children: seq<Node>)
    | Paragraph(children: seq<Node>)
    | Div(children: seq<Node>)
    | Heading(depth: nat, identifier: string, children: seq<Node>)
    | DefinitionList(children: seq<Node>)
    | DefinitionTerm(identifier: string, children: seq<Node>)
    | DefinitionDescription(children: seq<Node>)
    | CrossReference(identifier: string, children: seq<Node>)
      /** Any other node kind, produced only by the markup parser. */
    | Element(kind: string, children: seq<Node>)

  predicate IsLeaf(n: Node) {
    n.Text? || n.InlineCode?
  }

  predicate HasIdentifier(n: Node) {
    n.Heading? || n.DefinitionTerm? || n.CrossReference?
  }

  /** The identifiers carried by the nodes of `ns`, at any depth. */
  function Anchors(ns: seq<Node>): set<string>
    decreases ns
  {
    if ns == [] then {} else NodeAnchors(ns[0]) + Anchors(ns[1..])
  }

  function NodeAnchors(n: Node): set<string>
    decreases n
  {
    (if HasIdentifier(n) then {n.identifier} else {})
    + (if IsLeaf(n) then {} else Anchors(n.children))
  }

  /** The text of the leaves of `ns`, in document order (what a renderer shows). */
  function TextOf(ns: seq<Node>): string
    decreases ns
  {
    if ns == [] then "" else NodeText(ns[0]) + TextOf(ns[1..])
  }

  function NodeText(n: Node): string
    decreases n
  {
    if IsLeaf(n) then n.value else TextOf(n.children)
  }

  lemma {:induction false} AnchorsConcat(a: seq<Node>, b: seq<Node>)
    ensures Anchors(a + b) == Anchors(a) + Anchors(b)
    decreases |a|
  {
    if a != [] {
      assert (a + b)[1..] == a[1..] + b;
      AnchorsConcat(a[1..], b);
    } else {
      assert a + b == b;
    }
  }

  lemma {:induction false} TextOfConcat(a: seq<Node>, b: seq<Node>)
    ensures TextOf(a + b) == TextOf(a) + TextOf(b)
    decreases |a|
  {
    if a != [] {
      assert (a + b)[1..] == a[1..] + b;
      TextOfConcat(a[1..], b);
    } else {
      assert a + b == b;
    }
  }
}
