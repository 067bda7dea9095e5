/** `Clone` and `CopyTo`: deep copies of trees in memory. */
module DomClone {
  import opened XmlText
  import opened XmlTree
  import opened XmlParser
  import opened AttributeRing
  import opened Dom

  /** The calls of `SetAttribute` on the copy. */
  function CopiedAttributes(done: seq<Attribute>, rest: seq<Attribute>): seq<Attribute>
    decreases rest
  {
    if rest == [] then done
    else CopiedAttributes(Put(done, CString(rest[0].name), CString(rest[0].value)), rest[1..])
  }

  /** The value of a copy. */
  function Copied(t: Xml): Xml {
    match t
    case Text(text, cdata) => Text(CString(text), cdata)
    case Comment(comment) => Comment(CString(comment))
    case Element(name, attributes, kids) =>
      Element(CString(name), CopiedAttributes([], Visited(attributes)), CopiedKids(kids))
  }

  function CopiedKids(kids: seq<Xml>): (r: seq<Xml>)
    ensures |r| == |kids|
  {
    if kids == [] then [] else [Copied(kids[0])] + CopiedKids(kids[1..])
  }

  predicate NulFreeAttributes(attributes: seq<Attribute>) {
    forall i :: 0 <= i < |attributes| ==> NulFree(attributes[i].name) && NulFree(attributes[i].value)
  }

  /** No NUL in any string, and no attribute but the first without name and value. */
  predicate Copyable(t: Xml) {
    match t
    case Text(text, _) => NulFree(text)
    case Comment(comment) => NulFree(comment)
    case Element(name, attributes, kids) =>
      && NulFree(name) && NulFreeAttributes(attributes)
      && (forall i :: 1 <= i < |attributes| ==> !LooksLikeSentinel(attributes[i]))
      && (forall i :: 0 <= i < |kids| ==> Copyable(kids[i]))
  }

  predicate DistinctNamesWithin(t: Xml) {
    t.Element? ==> DistinctNames(t.attributes) && forall i :: 0 <= i < |t.kids| ==> DistinctNamesWithin(t.kids[i])
  }

  lemma {:induction false} NulFreeAttributesAreCopied(done: seq<Attribute>, rest: seq<Attribute>)
    requires DistinctNames(done + rest) && NulFreeAttributes(rest)
    ensures CopiedAttributes(done, rest) == done + rest
    decreases rest
  {
    if rest == [] {
      assert done + rest == done;
    } else {
      var a := rest[0];
      assert (done + rest)[|done|] == a;
      assert forall i :: 0 <= i < |done| ==> (done + rest)[i] == done[i];
      assert Put(done, CString(a.name), CString(a.value)) == done + [a];
      assert done + [a] + rest[1..] == done + rest;
      NulFreeAttributesAreCopied(done + [a], rest[1..]);
    }
  }

  lemma {:induction false} CopiesAreNulFree(done: seq<Attribute>, rest: seq<Attribute>)
    requires NulFreeAttributes(done)
    ensures NulFreeAttributes(CopiedAttributes(done, rest))
    decreases rest
  {
    if rest != [] {
      CopiesAreNulFree(Put(done, CString(rest[0].name), CString(rest[0].value)), rest[1..]);
    }
  }

  lemma AttributesAreCopiedExactly(attributes: seq<Attribute>)
    requires DistinctNames(attributes)
    ensures CopiedAttributes([], Visited(attributes)) == attributes
       <==> NulFreeAttributes(attributes) && forall i :: 1 <= i < |attributes| ==> !LooksLikeSentinel(attributes[i])
  {
    var visited := Visited(attributes);
    WalkIsCompleteExactly(attributes);
    CopiesAreNulFree([], visited);
    VisitedIsPrefix(attributes);
    hide Visited;
    if NulFreeAttributes(attributes) {
      PrefixKeeps(attributes, visited);
      assert [] + visited == visited;
      NulFreeAttributesAreCopied([], visited);
    }
  }

  lemma PrefixKeeps(s: seq<Attribute>, t: seq<Attribute>)
    requires t <= s && DistinctNames(s) && NulFreeAttributes(s)
    ensures DistinctNames(t) && NulFreeAttributes(t)
  {
    assert forall i :: 0 <= i < |t| ==> t[i] == s[i];
  }

  lemma {:induction false} NextRunIsPrefix(s: seq<Attribute>)
    ensures NextRun(s) <= s
  {
    if s != [] && !LooksLikeSentinel(s[0]) {
      NextRunIsPrefix(s[1..]);
      assert s == [s[0]] + s[1..];
    }
  }

  lemma VisitedIsPrefix(s: seq<Attribute>)
    ensures Visited(s) <= s
  {
    if s != [] {
      NextRunIsPrefix(s[1..]);
      assert s == [s[0]] + s[1..];
    }
  }

  /** A copy equals the original exactly for the copyable trees. */
  lemma {:induction false} CopyEqualsOriginalExactly(t: Xml)
    requires DistinctNamesWithin(t)
    ensures Copied(t) == t <==> Copyable(t)
    decreases t, 1
  {
    if t.Element? {
      AttributesAreCopiedExactly(t.attributes);
      CopiedKidsEqualExactly(t.kids);
    }
  }

  lemma {:induction false} CopiedKidsEqualExactly(kids: seq<Xml>)
    requires forall i :: 0 <= i < |kids| ==> DistinctNamesWithin(kids[i])
    ensures CopiedKids(kids) == kids <==> forall i :: 0 <= i < |kids| ==> Copyable(kids[i])
    decreases kids, 0
  {
    if kids != [] {
      CopyEqualsOriginalExactly(kids[0]);
      CopiedKidsEqualExactly(kids[1..]);
      assert kids == [kids[0]] + kids[1..];
    }
  }

  // ---------- In memory ----------

  /** The attribute loop of `TiXmlElement::CopyTo`; setting attributes of the copy does not disturb the walk
      over the original, so the walk is made first. */
  method CopyAttributes(from: AttributeSet, to: AttributeSet)
    requires from != to && from.Valid() && to.Valid() && to.contents == []
    modifies to, to.sentinel
    ensures to.Valid() && to.contents == CopiedAttributes([], Visited(from.contents))
  {
    hide *;
    var visited := from.Walk();
    EmptyRing(to);
    var k := 0;
    while k < |visited|
      invariant 0 <= k <= |visited| && to.Valid()
      invariant to.ring != [] && to.ring[0] == to.sentinel && forall i :: 1 <= i < |to.ring| ==> fresh(to.ring[i])
      invariant CopiedAttributes(to.contents, visited[k..]) == CopiedAttributes([], visited)
    {
      NextCopied(to.contents, visited, k);
      to.SetAttribute(CString(visited[k].name), CString(visited[k].value));
      RingStarts(to);
      k := k + 1;
    }
    NoneLeft(to.contents, visited[k..]);
  }

  lemma EmptyRing(attributes: AttributeSet)
    requires attributes.Valid() && attributes.contents == []
    ensures attributes.ring == [attributes.sentinel]
  {
  }

  lemma RingStarts(attributes: AttributeSet)
    requires attributes.Valid()
    ensures attributes.ring != [] && attributes.ring[0] == attributes.sentinel
  {
  }

  lemma NextCopied(done: seq<Attribute>, all: seq<Attribute>, k: nat)
    requires k < |all|
    ensures CopiedAttributes(done, all[k..])
         == CopiedAttributes(Put(done, CString(all[k].name), CString(all[k].value)), all[k + 1..])
  {
    hide Put, CString;
    assert all[k..][1..] == all[k + 1..];
  }

  lemma NoneLeft(done: seq<Attribute>, rest: seq<Attribute>)
    requires rest == []
    ensures CopiedAttributes(done, rest) == done
  {
  }

  /** `Clone`: the copy consists of new nodes, and nothing that existed changes. */
  method Clone(n: Node, ghost nodes: set<Node>) returns (c: Node, ghost more: set<Node>)
    requires Wf(nodes) && n in nodes && !n.kind.DocumentKind?
    ensures fresh(more) && c in more && Forest(more)
    ensures c.kind == n.kind && c.parent == null && c.tree == Copied(n.tree)
    decreases n.tree, 3
  {
    assert n.Shaped();
    if n.kind == ElementKind {
      c, more := CloneElement(n, nodes);
    } else {
      c := CloneLeaf(n);
      more := {c};
    }
  }

  /** `TiXmlText::Clone` and `TiXmlComment::Clone`. */
  method CloneLeaf(n: Node) returns (c: Node)
    requires n.kind.TextKind? || n.kind.CommentKind?
    requires n.Shaped()
    ensures fresh(c) && Forest({c}) && c.kind == n.kind && c.parent == null && c.tree == Copied(n.tree)
  {
    c := new Node(n.kind, "");
    c.value := CString(n.value);
    c.cdata := n.kind.TextKind? && n.cdata;
    c.tree := if n.kind.TextKind? then Text(c.value, c.cdata) else Comment(c.value);
    SingleNodeIsWf(c);
  }

  /** `TiXmlElement::Clone` and `CopyTo`. */
  method CloneElement(n: Node, ghost nodes: set<Node>) returns (c: Node, ghost more: set<Node>)
    requires Wf(nodes) && n in nodes && n.kind.ElementKind?
    ensures fresh(more) && c in more && Forest(more)
    ensures c.kind == n.kind && c.parent == null && c.tree == Copied(n.tree)
    decreases n.tree, 2
  {
    hide *;
    ElementIs(n, nodes);
    c := new Node(ElementKind, "");
    EmptyIsPartial(c);
    c.value := CString(n.value);
    CopyAttributes(n.attributeSet, c.attributeSet);
    ghost var trees;
    more, trees := CopyKids(n, nodes, c);
    NotItsOwnKid(c, more);
    c.tree := Element(c.value, c.attributeSet.contents, trees);
    ElementIsShaped(c, trees);
    CompleteIsWf(c, more);
    more := more + {c};
  }

  lemma ElementIs(n: Node, nodes: set<Node>)
    requires Wf(nodes) && n in nodes && n.kind.ElementKind?
    ensures n.attributeSet.Valid()
    ensures n.tree.Element?
    ensures Copied(n.tree)
         == Element(CString(n.value), CopiedAttributes([], Visited(n.attributeSet.contents)), CopiedKids(n.tree.kids))
  {
    assert n.Shaped();
    hide AttributeSet.Valid, Visited, CopiedAttributes, CString, CopiedKids;
  }

  lemma CopyStarts(n: Node, nodes: set<Node>, target: Node)
    requires Wf(nodes) && n in nodes && n.kind.ElementKind? && n.tree.Element?
    requires target.Linked() && target.kids == []
    ensures |n.tree.kids| == |n.kids| && n.firstChild == if n.kids == [] then null else n.kids[0]
    ensures Partial(target, {}) && Node.TreesOf(target.kids, []) && CopiedKids(n.tree.kids[..0]) == []
  {
    assert n.Shaped() && n.Linked();
    hide AttributeSet.Valid;
  }

  /** The child loop of `TiXmlElement::CopyTo`. */
  method CopyKids(n: Node, ghost nodes: set<Node>, target: Node) returns (ghost more: set<Node>, ghost trees: seq<Xml>)
    requires Wf(nodes) && n in nodes && n.kind.ElementKind? && n.tree.Element? && target !in nodes
    requires target.Linked() && target.kids == []
    modifies target`kids, target`firstChild, target`lastChild
    ensures fresh(more) && Partial(target, more) && Node.TreesOf(target.kids, trees)
    ensures trees == CopiedKids(n.tree.kids)
    decreases n.tree, 1
  {
    hide *;
    more, trees := {}, [];
    CopyStarts(n, nodes, target);
    ghost var kids, originals := n.tree.kids, n.kids;
    var node := n.firstChild;
    ghost var i := 0;
    while node != null
      invariant Partial(target, more) && Node.TreesOf(target.kids, trees) && fresh(more)
      invariant forall i :: 0 <= i < |target.kids| ==> fresh(target.kids[i])
      invariant 0 <= i <= |originals| && node == if i < |originals| then originals[i] else null
      invariant trees == CopiedKids(kids[..i])
      decreases |originals| - i
    {
      KidIs(n, i, nodes);
      more, trees := CopyKid(node, nodes, target, more, trees);
      CopiedKidsGrow(kids, i);
      node, i := node.next, i + 1;
    }
    assert kids[..i] == kids;
  }

  /** One turn of that loop. */
  method CopyKid(kid: Node, ghost nodes: set<Node>, target: Node, ghost done: set<Node>, ghost trees: seq<Xml>)
    returns (ghost more: set<Node>, ghost trees': seq<Xml>)
    requires Wf(nodes) && kid in nodes && !kid.kind.DocumentKind?
    requires Partial(target, done) && Node.TreesOf(target.kids, trees)
    modifies target`kids, target`firstChild, target`lastChild, target.kids`next
    ensures fresh(more - done) && done <= more && Partial(target, more)
    ensures Node.TreesOf(target.kids, trees') && trees' == trees + [Copied(kid.tree)]
    ensures forall k :: k in target.kids ==> k in more
    decreases kid.tree, 4
  {
    hide Copied, Forest, Node.Linked, Node.TreesOf;
    var copy;
    ghost var below;
    copy, below := Clone(kid, nodes);
    AddPartial(target, copy, done, below, trees);
    more, trees' := done + below, trees + [copy.tree];
  }

  lemma {:induction false} CopiedKidsGrow(kids: seq<Xml>, i: nat)
    requires i < |kids|
    ensures CopiedKids(kids[..i + 1]) == CopiedKids(kids[..i]) + [Copied(kids[i])]
  {
    if i > 0 {
      CopiedKidsGrow(kids[1..], i - 1);
      assert kids[..i + 1][1..] == kids[1..][..i] && kids[..i][1..] == kids[1..][..i - 1];
    }
  }
}
