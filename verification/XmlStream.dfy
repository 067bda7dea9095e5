/** `StreamOut` on the tree in memory. */
module XmlStream {
  import opened XmlTree
  import opened XmlScan
  import opened AttributeRing
  import opened Dom

  /** The tree as the walks over attribute lists show it; see `AttributeRing.WalkIsCompleteExactly`. */
  function Seen(t: Xml): Xml {
    match t
    case Element(name, attributes, kids) => Element(name, Visited(attributes), SeenKids(kids))
    case _ => t
  }

  function SeenKids(kids: seq<Xml>): (r: seq<Xml>)
    ensures |r| == |kids|
  {
    if kids == [] then [] else [Seen(kids[0])] + SeenKids(kids[1..])
  }

  /** No attribute but the first may lack both name and value. */
  predicate Visible(t: Xml) {
    match t
    case Element(_, attributes, kids) =>
      && (forall i :: 1 <= i < |attributes| ==> !LooksLikeSentinel(attributes[i]))
      && (forall i :: 0 <= i < |kids| ==> Visible(kids[i]))
    case _ => true
  }

  /** Exactly the visible trees are seen whole. */
  lemma {:induction false} SeenIsWholeExactly(t: Xml)
    ensures Seen(t) == t <==> Visible(t)
    decreases t, 1
  {
    if t.Element? {
      WalkIsCompleteExactly(t.attributes);
      SeenKidsAreWholeExactly(t.kids);
    }
  }

  lemma {:induction false} SeenKidsAreWholeExactly(kids: seq<Xml>)
    ensures SeenKids(kids) == kids <==> forall i :: 0 <= i < |kids| ==> Visible(kids[i])
    decreases kids, 0
  {
    if kids != [] {
      SeenIsWholeExactly(kids[0]);
      SeenKidsAreWholeExactly(kids[1..]);
      assert kids == [kids[0]] + kids[1..];
    }
  }

  /** `TiXmlAttribute::StreamOut`. */
  method StreamAttribute(a: AttributeNode, stream: string) returns (out: string)
    ensures out == stream + PrintAttribute(Attribute(a.name, a.value))
  {
    var q := QuoteFor(a.value);
    out := PutStringTo(a.name, stream);
    out := out + "=" + [q];
    out := PutStringTo(a.value, out);
    out := out + [q];
  }

  /** The attribute loop of `TiXmlElement::StreamOut`. */
  method StreamAttributes(attributes: AttributeSet, stream: string) returns (out: string)
    requires attributes.Valid()
    ensures out == stream + PrintAttributes(Visited(attributes.contents))
  {
    hide PrintAttributes, AttributeSet.Linked, DistinctNames, PrintAttribute, Visited, NextRun;
    hide AttributeSet.Ahead;
    out := stream;
    var a := attributes.First();
    ghost var i := 0;
    AheadStarts(attributes, a);
    while a != null
      invariant a != null ==> i < |attributes.contents| && a == attributes.ring[i + 1]
      invariant out + PrintAttributes(attributes.Ahead(a, i)) == stream + PrintAttributes(Visited(attributes.contents))
      decreases if a == null then 0 else |attributes.contents| - i
    {
      ghost var ahead := attributes.Ahead(a, i);
      AheadIs(attributes, a, i);
      FirstAttribute(ahead, out);
      out := StreamAttribute(a, out + " ");
      a := attributes.Next(a, i);
      i := i + 1;
      AheadGoesOn(attributes, a, i);
      assert ahead[1..] == attributes.Ahead(a, i);
    }
    NothingAhead(attributes, i);
    NoAttributes(out);
  }

  lemma FirstAttribute(s: seq<Attribute>, out: string)
    requires s != []
    ensures out + PrintAttributes(s) == out + " " + PrintAttribute(s[0]) + PrintAttributes(s[1..])
  {
    hide PrintAttribute;
    assert PrintAttributes(s) == " " + PrintAttribute(s[0]) + PrintAttributes(s[1..]);
  }

  lemma NoAttributes(out: string)
    ensures out + PrintAttributes([]) == out
  {
  }

  /** `StreamOut` of a node. */
  method StreamOut(n: Node, stream: string, ghost nodes: set<Node>) returns (out: string)
    requires Wf(nodes) && n in nodes && !n.kind.DocumentKind?
    ensures out == stream + Print(Seen(n.tree))
    decreases n.tree, 2
  {
    match n.kind {
      case TextKind =>
        if n.cdata {
          out := stream + ("<![CDATA[" + n.value + "]]>");
        } else {
          out := PutStringTo(n.value, stream);
        }
      case CommentKind =>
        out := stream + ("<!--" + n.value + "-->");
      case ElementKind =>
        out := StreamElement(n, stream, nodes);
    }
  }

  lemma ThreeParts(stream: string, a: string, b: string, c: string)
    ensures stream + a + b + c == stream + (a + b + c)
  {
  }

  method StreamElement(n: Node, stream: string, ghost nodes: set<Node>) returns (out: string)
    requires Wf(nodes) && n in nodes && n.kind.ElementKind?
    ensures out == stream + Print(Seen(n.tree))
    decreases n.tree, 1
  {
    ghost var attributes := PrintAttributes(Visited(n.attributeSet.contents));
    ghost var body := PrintBody(n.value, SeenKids(n.tree.kids));
    assert Print(Seen(n.tree)) == "<" + n.value + attributes + body;
    hide Print, PrintAttributes, PrintBody;
    out := stream + ("<" + n.value);
    out := StreamAttributes(n.attributeSet, out);
    out := StreamBody(n, out, nodes);
    ThreeParts(stream, "<" + n.value, attributes, body);
  }

  lemma EndOfBody(name: string, kids: seq<Xml>, stream: string)
    requires kids != []
    ensures stream + ">" + PrintKids(kids) + EndTag(name) == stream + PrintBody(name, kids)
  {
    hide PrintKids, EndTag;
  }

  lemma FirstKid(kids: seq<Xml>, out: string)
    requires kids != []
    ensures out + PrintKids(SeenKids(kids)) == out + Print(Seen(kids[0])) + PrintKids(SeenKids(kids[1..]))
  {
    hide Print;
  }

  lemma NoKids(out: string)
    ensures out + PrintKids(SeenKids([])) == out
  {
  }

  /** The part of `TiXmlElement::StreamOut` after the attributes. */
  method StreamBody(n: Node, stream: string, ghost nodes: set<Node>) returns (out: string)
    requires Wf(nodes) && n in nodes && n.kind.ElementKind?
    ensures out == stream + PrintBody(n.value, SeenKids(n.tree.kids))
    decreases n.tree, 0
  {
    hide *;
    ListStarts(n, nodes);
    ghost var kids := n.tree.kids;
    BodyOf(n.value, kids, stream);
    if n.firstChild == null {
      return stream + " />";
    }
    out := stream + ">";
    var node := n.firstChild;
    ghost var i := 0;
    assert kids[0..] == kids;
    while node != null
      invariant 0 <= i <= |kids| == |n.kids| && node == if i < |kids| then n.kids[i] else null
      invariant out + PrintKids(SeenKids(kids[i..])) == stream + ">" + PrintKids(SeenKids(kids))
      decreases |kids| - i
    {
      KidIs(n, i, nodes);
      FirstKid(kids[i..], out);
      out := StreamOut(node, out, nodes);
      assert kids[i..][1..] == kids[i + 1..];
      node, i := node.next, i + 1;
    }
    assert kids[i..] == [];
    NoKids(out);
    out := out + EndTag(n.value);
  }

  lemma BodyOf(name: string, kids: seq<Xml>, stream: string)
    ensures if kids == [] then stream + PrintBody(name, SeenKids(kids)) == stream + " />"
            else stream + ">" + PrintKids(SeenKids(kids)) + EndTag(name) == stream + PrintBody(name, SeenKids(kids))
  {
    hide PrintKids, EndTag;
    if kids != [] {
      EndOfBody(name, SeenKids(kids), stream);
    }
  }
}
