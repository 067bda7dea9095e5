/** The recursive-descent parser, building the tree in memory as it goes. Each method is proved against the
    function of `XmlTree` with the same name. */
module XmlParser {
  import opened XmlText
  import opened XmlTree
  import opened XmlScan
  import opened AttributeRing
  import opened Dom

  /** The pointer handed back and the value of the node built are those of the specification; when the parse
      fails, a partial node remains. */
  ghost predicate Matches(r: Outcome<()>, tree: Xml, spec: Outcome<Xml>) {
    match spec
    case Done(t, rest) => r == Done((), rest) && tree == t
    case Null => r == Null
    case Wild => r == Wild
    case Unmodelled => r == Unmodelled
  }

  function Ended<T>(r: Outcome<T>): Outcome<()> {
    match r
    case Done(_, rest) => Done((), rest)
    case Null => Null
    case Wild => Wild
    case Unmodelled => Unmodelled
  }

  /** `TiXmlAttribute::Parse`. */
  method ScanAttribute(p: string) returns (r: Outcome<Attribute>)
    ensures r == ParseAttribute(p)
  {
    if p == [] {
      return Null;
    }
    var q := SkipSpace(p);
    var name := ScanName(q);
    if name.IsFailure() || name.rest == [] {
      return Null;
    }
    q := SkipSpace(name.rest);
    if q == [] || q[0] != '=' || q[1..] == [] {
      return Null;
    }
    q := SkipSpace(q[1..]);
    if q == [] {
      return Null;
    }
    var value := ScanAttributeValue(q);
    r := match value
    case Done(v, rest) => Done(Attribute(name.value, v), rest)
    case Null => Null
    case Wild => Wild
    case Unmodelled => Unmodelled;
  }

  method ScanAttributeValue(p: string) returns (r: Outcome<string>)
    requires p != []
    ensures r == ReadAttributeValue(p)
  {
    if IsQuote(p[0]) {
      r := ScanText(p[1..], [p[0]], Legacy);
      r := AfterTag(r, [p[0]]);
    } else {
      var value, rest := ScanBareValue(p);
      r := Done(value, rest);
    }
  }

  /** `TiXmlText::Parse`. */
  method BuildText(p: string, cdata: bool) returns (n: Node, r: Outcome<()>)
    requires p != []
    ensures fresh(n) && n.Ok() && n.parent == null && n.kind == TextKind && n.kids == [] && n.cdata == cdata
    ensures Matches(r, n.tree, if cdata then ParseCData(p) else ParseText(p))
  {
    hide ParseCData, ParseText;
    var text: Outcome<string>;
    if cdata {
      text := ScanCData(p);
    } else {
      text := ScanPlainText(p);
    }
    n := new Node(TextKind, if text.Done? then text.value else "");
    n.cdata := cdata;
    n.tree := Text(n.value, cdata);
    r := Ended(text);
  }

  predicate ReadsText(r: Outcome<string>, spec: Outcome<Xml>, cdata: bool) {
    match spec
    case Done(t, rest) => r.Done? && r.rest == rest && t == Text(r.value, cdata)
    case Null => r == Null
    case Wild => r == Wild
    case Unmodelled => r == Unmodelled
  }

  method ScanPlainText(p: string) returns (r: Outcome<string>)
    requires p != []
    ensures ReadsText(r, ParseText(p), false)
  {
    r := ScanTrimmedText(p, "<", Legacy);
  }

  method ScanCData(p: string) returns (r: Outcome<string>)
    ensures ReadsText(r, ParseCData(p), true)
  {
    if !("<![CDATA[" <= p) {
      return Null;
    }
    var run, q := ScanRun(p[9..], "]]>");
    var dummy := ScanText(q, "]]>", Legacy);
    dummy := AfterTag(dummy, "]]>");
    r := match dummy
    case Done(_, rest) => Done(run, rest)
    case Null => Null
    case Wild => Wild
    case Unmodelled => Unmodelled;
  }

  /** `TiXmlComment::Parse`. */
  method BuildComment(p: string) returns (n: Node, r: Outcome<()>)
    ensures fresh(n) && n.Ok() && n.parent == null && n.kind == CommentKind && n.kids == []
    ensures Matches(r, n.tree, ParseComment(p))
  {
    n := new Node(CommentKind, "");
    n.tree := Comment("");
    if !("<!--" <= p) {
      return n, Null;
    }
    var text := ScanText(p[4..], "-->", Legacy);
    text := AfterTag(text, "-->");
    if text.Done? {
      n.value := text.value;
    }
    r := Ended(text);
    n.tree := Comment(n.value);
  }

  /** The attribute branch of `TiXmlElement::Parse`: a repeated name changes the attribute that is there, and
      the parse ends. */
  method ReadAttributeInto(attributes: AttributeSet, p: string) returns (r: Outcome<()>)
    requires attributes.Valid()
    modifies attributes`ring, attributes`contents, attributes.ring`next, attributes.ring`value, attributes.sentinel`prev
    ensures attributes.Valid()
    ensures attributes.ring == old(attributes.ring)
         || (attributes.ring[..|attributes.ring| - 1] == old(attributes.ring)
             && fresh(attributes.ring[|attributes.ring| - 1]))
    ensures var spec := ParseAttribute(p);
            if spec.Done? && spec.rest != [] && !HasName(old(attributes.contents), spec.value.name) then
              r == Done((), spec.rest) && attributes.contents == old(attributes.contents) + [spec.value]
            else r == if spec.Done? then Null else Ended(spec)
  {
    hide ParseAttribute;
    var a := ScanAttribute(p);
    if a.IsFailure() {
      return Ended(a);
    }
    if a.rest == [] {
      return Null;
    }
    var node := attributes.Find(a.value.name);
    if node != null {
      attributes.SetValue(node, a.value.value, IndexOf(attributes.contents, a.value.name));
      return Null;
    }
    node := new AttributeNode(a.value.name, a.value.value);
    attributes.Add(node);
    r := Done((), a.rest);
  }

  /** A node being built and the finished nodes below it. */
  ghost predicate Partial(n: Node, nodes: set<Node>)
    reads n`kids, n`firstChild, n`lastChild
    reads nodes, (set m | m in nodes :: m.attributeSet), (set m | m in nodes :: m.attributeSet.sentinel)
    reads set m, i | m in nodes && 0 <= i < |m.attributeSet.ring| :: m.attributeSet.ring[i]
  {
    && n !in nodes && (forall k :: k in n.kids ==> k in nodes && !k.kind.DocumentKind?)
    && n.Linked() && Wf(nodes) && TiedUnder(nodes, n)
  }

  /** `Identify`, `new` and `Parse` of the node at the front of `p`. */
  method BuildNode(p: string) returns (n: Node?, r: Outcome<()>, ghost nodes: set<Node>)
    requires p != [] && p[0] == '<'
    ensures n == null ==> r == Unmodelled && ParseNode(p) == Unmodelled && nodes == {}
    ensures n != null ==> n in nodes && Forest(nodes) && n.parent == null && !n.kind.DocumentKind?
    ensures n != null ==> Matches(r, n.tree, ParseNode(p))
    ensures fresh(nodes)
    decreases |p|, 3
  {
    nodes := {};
    match Identify(p) {
      case ElementNode =>
        n, r, nodes := BuildElement(p);
      case CommentNode =>
        n, r := BuildComment(p);
        nodes := {n};
      case CDataNode =>
        n, r := BuildText(p, true);
        nodes := {n};
      case _ =>
        n, r := null, Unmodelled;
    }
  }

  /** The head of `TiXmlElement::Parse`, up to the end of the name. */
  method ScanElementName(p: string) returns (r: Outcome<string>)
    ensures if r.Done? then
              r.rest != [] && |r.rest| < |p| && ParseElement(p) == ParseRest(r.value, [], r.rest)
            else r == Null && ParseElement(p) == Null
  {
    hide ParseRest, ReadName;
    var q := SkipSpace(p);
    if q == [] || q[0] != '<' || q[1..] == [] {
      return Null;
    }
    q := SkipSpace(q[1..]);
    r := ScanName(q);
    if r.IsFailure() || r.rest == [] {
      return Null;
    }
  }

  /** `TiXmlElement::Parse`. */
  method BuildElement(p: string) returns (n: Node, r: Outcome<()>, ghost nodes: set<Node>)
    ensures n in nodes && Forest(nodes) && n.parent == null && n.kind == ElementKind
    ensures Matches(r, n.tree, ParseElement(p))
    ensures fresh(nodes)
    decreases |p|, 2
  {
    hide *;
    n := new Node(ElementKind, "");
    EmptyIsPartial(n);
    NoTrees();
    var name := ScanElementName(p);
    if !name.Done? {
      n.tree := Element("", [], []);
      ElementIsShaped(n, []);
      CompleteIsWf(n, {});
      FailureMatches(n.tree, ParseElement(p));
      return n, Null, {} + {n};
    }
    n.value := name.value;
    r, nodes := FinishElement(n, name.rest);
  }

  lemma FailureMatches(tree: Xml, spec: Outcome<Xml>)
    requires !spec.Done?
    ensures Matches(Ended(spec), tree, spec)
    ensures spec == Null ==> Ended(spec) == Null
  {
  }

  lemma NoTrees()
    ensures Node.TreesOf([], [])
  {
  }

  /** The loop of `TiXmlElement::Parse`. */
  method FinishElement(n: Node, start: string) returns (r: Outcome<()>, ghost nodes: set<Node>)
    requires start != [] && n.kind == ElementKind && n.Linked() && n.kids == [] && n.parent == null
    requires n.attributeSet.Valid() && n.attributeSet.contents == []
    modifies n`tree, n`kids, n`firstChild, n`lastChild
    modifies n.attributeSet, n.attributeSet.sentinel
    ensures n in nodes && Forest(nodes) && fresh(nodes - {n})
    ensures Matches(r, n.tree, ParseRest(n.value, [], start))
    decreases |start|, 1
  {
    hide *;
    ghost var trees: seq<Xml> := [];
    nodes := {};
    EmptyLinkedIsPartial(n);
    NoTrees();
    r := ReadAttributes(n, start);
    if r.Done? {
      r, nodes, trees := EndElement(n, r.rest);
    } else {
      FailureMatches(Element(n.value, n.attributeSet.contents, []), ParseRest(n.value, [], start));
    }
    NotItsOwnKid(n, nodes);
    n.tree := Element(n.value, n.attributeSet.contents, trees);
    ElementIsShaped(n, trees);
    CompleteIsWf(n, nodes);
    nodes := nodes + {n};
  }

  lemma NotItsOwnKid(n: Node, nodes: set<Node>)
    requires Partial(n, nodes)
    ensures n !in n.kids
  {
  }

  lemma ElementIsShaped(n: Node, trees: seq<Xml>)
    requires n.kind.ElementKind? && n.tree == Element(n.value, n.attributeSet.contents, trees)
    requires Node.TreesOf(n.kids, trees)
    ensures n.Shaped()
  {
  }

  lemma CompleteIsWf(n: Node, nodes: set<Node>)
    requires Partial(n, nodes) && n.Shaped() && n.attributeSet.Valid() && n.parent == null
    ensures Forest(nodes + {n})
  {
    hide Node.Linked, Node.Shaped, AttributeSet.Valid;
  }

  /** The turns of that loop that read attributes; the result is at the end of the start tag. */
  method ReadAttributes(n: Node, start: string) returns (r: Outcome<()>)
    requires start != [] && n.attributeSet.Valid() && n.attributeSet.contents == []
    modifies n.attributeSet, n.attributeSet.sentinel
    ensures n.attributeSet.Valid()
    ensures var spec := ParseRest(n.value, [], start);
            if r.Done? then
              |r.rest| <= |start| && AtTagEnd(r.rest)
              && spec == ParseTagEnd(n.value, n.attributeSet.contents, r.rest)
            else !spec.Done? && r == Ended(spec)
  {
    hide ParseRest, ParseTagEnd, ParseAttribute, AttributeSet.Valid, AtTagEnd, DropSpace;
    var attributes := n.attributeSet;
    SentinelOnly(attributes);
    var p := start;
    var q := SkipSpace(p);
    while !AtTagEnd(q)
      invariant p != [] && q == DropSpace(p) && |p| <= |start| && attributes.Valid()
      invariant attributes.ring != [] && attributes.ring[0] == attributes.sentinel
      invariant forall i :: 1 <= i < |attributes.ring| ==> fresh(attributes.ring[i])
      invariant ParseRest(n.value, attributes.contents, p) == ParseRest(n.value, [], start)
      decreases |p|
    {
      AttributeTurn(n.value, attributes.contents, p, q);
      r := ReadAttributeInto(attributes, q);
      SentinelFirst(attributes);
      if r.IsFailure() {
        return;
      }
      p := r.rest;
      q := SkipSpace(p);
    }
    EndTurn(n.value, attributes.contents, p, q);
    r := Done((), q);
  }

  lemma SentinelOnly(attributes: AttributeSet)
    requires attributes.Valid() && attributes.contents == []
    ensures attributes.ring == [attributes.sentinel]
  {
  }

  lemma SentinelFirst(attributes: AttributeSet)
    requires attributes.Valid()
    ensures attributes.ring != [] && attributes.ring[0] == attributes.sentinel
  {
  }

  lemma AttributeTurn(name: string, attributes: seq<Attribute>, p: string, q: string)
    requires p != [] && q == DropSpace(p) && !AtTagEnd(q)
    ensures var a := ParseAttribute(q);
            var spec := ParseRest(name, attributes, p);
            if a.Done? && a.rest != [] && !HasName(attributes, a.value.name) then
              |a.rest| < |p| && spec == ParseRest(name, attributes + [a.value], a.rest)
            else !spec.Done? && Ended(spec) == if a.Done? then Null else Ended(a)
  {
    hide ParseAttribute;
  }

  lemma EndTurn(name: string, attributes: seq<Attribute>, p: string, q: string)
    requires p != [] && q == DropSpace(p) && AtTagEnd(q)
    ensures ParseRest(name, attributes, p) == ParseTagEnd(name, attributes, q)
  {
  }

  /** The branches of that loop for "/>" and ">". */
  method EndElement(n: Node, p: string) returns (r: Outcome<()>, ghost nodes: set<Node>, ghost trees: seq<Xml>)
    requires AtTagEnd(p) && n.Linked() && n.kids == []
    modifies n`kids, n`firstChild, n`lastChild
    ensures Partial(n, nodes) && Node.TreesOf(n.kids, trees) && fresh(nodes)
    ensures Matches(r, Element(n.value, n.attributeSet.contents, trees), ParseTagEnd(n.value, n.attributeSet.contents, p))
    decreases |p|, 0
  {
    hide *;
    nodes, trees := {}, [];
    EmptyLinkedIsPartial(n);
    NoTrees();
    if p == [] || p[0] == '/' {
      r := if |p| > 1 && p[1] == '>' then Done((), p[2..]) else Null;
      EmptyElementEnds(n.value, n.attributeSet.contents, p, r);
    } else {
      r, nodes, trees := ReadKidsOf(n, p[1..]);
      KidsEnd(n.value, n.attributeSet.contents, p, trees, r);
      if r.Done? {
        var endTag := EndTag(n.value);
        r := if endTag <= r.rest then Done((), r.rest[|endTag|..]) else Null;
      }
    }
  }

  lemma EmptyElementEnds(name: string, attributes: seq<Attribute>, p: string, r: Outcome<()>)
    requires AtTagEnd(p) && (p == [] || p[0] == '/')
    requires r == if |p| > 1 && p[1] == '>' then Done((), p[2..]) else Null
    ensures Matches(r, Element(name, attributes, []), ParseTagEnd(name, attributes, p))
  {
  }

  lemma KidsEnd(name: string, attributes: seq<Attribute>, p: string, trees: seq<Xml>, q: Outcome<()>)
    requires AtTagEnd(p) && p != [] && p[0] != '/'
    requires q == Ended(ReadValue(p[1..])) && (q.Done? ==> trees == ReadValue(p[1..]).value)
    ensures var endTag := EndTag(name);
            var r := if !q.Done? then q
                     else if endTag <= q.rest then Done((), q.rest[|endTag|..]) else Null;
            Matches(r, Element(name, attributes, trees), ParseTagEnd(name, attributes, p))
  {
    hide ReadValue, EndTag;
  }

  /** `TiXmlElement::ReadValue`. */
  method ReadKidsOf(n: Node, start: string) returns (r: Outcome<()>, ghost nodes: set<Node>, ghost trees: seq<Xml>)
    requires n.Linked() && n.kids == []
    modifies n`kids, n`firstChild, n`lastChild
    ensures Partial(n, nodes) && Node.TreesOf(n.kids, trees) && fresh(nodes)
    ensures r == Ended(ReadValue(start))
    ensures r.Done? ==> trees == ReadValue(start).value
    decreases |start|, 7
  {
    hide *;
    EmptyLinkedIsPartial(n);
    ReadValueIs(start);
    nodes, trees := {}, [];
    if start == [] {
      return Null, nodes, trees;
    }
    var p := SkipSpace(start);
    while p != [] && !("</" <= p)
      invariant |p| <= |start| && Partial(n, nodes) && Node.TreesOf(n.kids, trees) && fresh(nodes)
      invariant forall i :: 0 <= i < |n.kids| ==> fresh(n.kids[i])
      invariant ReadKids(trees, p) == ReadValue(start)
      decreases |p|
    {
      ghost var more, was := {}, trees;
      r, more, trees := ReadKid(n, p, nodes, trees);
      nodes := nodes + more;
      KidsAmong(n, nodes);
      TurnTells(was, p, trees, r);
      if !r.Done? {
        return;
      }
      p := r.rest;
    }
    KidsStop(trees, p);
    r := Done((), p);
  }

  lemma ReadValueIs(start: string)
    ensures ReadValue(start) == if start == [] then Null else ReadKids([], DropSpace(start))
    ensures Ended(ReadValue(start)) == match ReadValue(start)
                                       case Done(_, rest) => Done((), rest)
                                       case Null => Null
                                       case Wild => Wild
                                       case Unmodelled => Unmodelled
    ensures |DropSpace(start)| <= |start|
    ensures Node.TreesOf([], [])
  {
    hide ReadKids, DropSpace;
  }

  lemma KidsAmong(n: Node, nodes: set<Node>)
    requires Partial(n, nodes)
    ensures forall i :: 0 <= i < |n.kids| ==> n.kids[i] in nodes
  {
    hide Wf, TiedUnder, Node.Linked;
  }

  lemma TurnTells(trees: seq<Xml>, p: string, trees': seq<Xml>, r: Outcome<()>)
    requires Turn(trees, p, trees', r)
    ensures if r.Done? then |r.rest| < |p| && ReadKids(trees', r.rest) == ReadKids(trees, p)
            else r == Ended(ReadKids(trees, p)) && !ReadKids(trees, p).Done?
  {
    hide ReadKids;
  }

  lemma KidsStop(trees: seq<Xml>, p: string)
    requires p == [] || "</" <= p
    ensures ReadKids(trees, p) == Done(trees, p)
  {
  }

  /** The end of a turn of the loop of `ReadValue`: white space is skipped, a null pointer stays null. */
  method AfterKid(r: Outcome<()>) returns (q: Outcome<()>)
    ensures q == SkipAfter(r)
  {
    if r.IsFailure() {
      return r;
    }
    if r.rest == [] {
      return Null;
    }
    var p := SkipSpace(r.rest);
    q := Done((), p);
  }

  function SkipAfter(r: Outcome<()>): Outcome<()> {
    if r.Done? then SkipWhiteSpace(r.rest) else r
  }

  /** From the children `trees` and the pointer `p`, one turn leads to `trees'` and the pointer in `r`. */
  ghost predicate Turn(trees: seq<Xml>, p: string, trees': seq<Xml>, r: Outcome<()>) {
    if r.Done? then |r.rest| < |p| && ReadKids(trees', r.rest) == ReadKids(trees, p)
    else r == Ended(ReadKids(trees, p)) && !ReadKids(trees, p).Done?
  }

  lemma TextTurn(trees: seq<Xml>, p: string, text: string, q: Outcome<()>)
    requires p != [] && p[0] != '<' && Matches(q, Text(text, false), ParseText(p))
    ensures Turn(trees, p, if Blank(text) then trees else trees + [Text(text, false)], SkipAfter(q))
  {
    hide ParseText, Blank;
  }

  lemma NodeTurn(trees: seq<Xml>, p: string, tree: Xml, q: Outcome<()>)
    requires p != [] && p[0] == '<' && !("</" <= p) && Matches(q, tree, ParseNode(p))
    ensures Turn(trees, p, trees + [tree], SkipAfter(q))
  {
    hide ParseNode;
  }

  /** One turn of the loop of `ReadValue`. */
  method ReadKid(n: Node, p: string, ghost nodes: set<Node>, ghost trees: seq<Xml>)
    returns (r: Outcome<()>, ghost more: set<Node>, ghost trees': seq<Xml>)
    requires p != [] && !("</" <= p) && Partial(n, nodes) && Node.TreesOf(n.kids, trees)
    modifies n`kids, n`firstChild, n`lastChild, n.kids`next
    ensures fresh(more) && Partial(n, nodes + more) && Node.TreesOf(n.kids, trees')
    ensures Turn(trees, p, trees', r)
    decreases |p|, 6
  {
    if p[0] != '<' {
      r, more, trees' := ReadTextKid(n, p, nodes, trees);
    } else {
      r, more, trees' := ReadNodeKid(n, p, nodes, trees);
    }
  }

  method ReadTextKid(n: Node, p: string, ghost nodes: set<Node>, ghost trees: seq<Xml>)
    returns (r: Outcome<()>, ghost more: set<Node>, ghost trees': seq<Xml>)
    requires p != [] && p[0] != '<' && Partial(n, nodes) && Node.TreesOf(n.kids, trees)
    modifies n`kids, n`firstChild, n`lastChild, n.kids`next
    ensures fresh(more) && Partial(n, nodes + more) && Node.TreesOf(n.kids, trees')
    ensures Turn(trees, p, trees', r)
  {
    hide Turn, Partial, Blank, Forest, Node.TreesOf;
    var kid;
    kid, r := BuildTextKid(p, trees);
    if Blank(kid.value) {
      more, trees' := {}, trees;
      assert nodes + more == nodes;
    } else {
      more, trees' := {kid}, trees + [kid.tree];
      AddPartial(n, kid, nodes, more, trees);
    }
  }

  method BuildTextKid(p: string, ghost trees: seq<Xml>) returns (kid: Node, r: Outcome<()>)
    requires p != [] && p[0] != '<'
    ensures fresh(kid) && Forest({kid}) && kid.parent == null && kid.kind == TextKind
    ensures Turn(trees, p, if Blank(kid.value) then trees else trees + [kid.tree], r)
  {
    hide ParseText;
    var q;
    kid, q := BuildText(p, false);
    TextTurn(trees, p, kid.value, q);
    hide Turn;
    SingleNodeIsWf(kid);
    r := AfterKid(q);
  }

  lemma SingleNodeIsWf(n: Node)
    requires n.Ok() && n.kids == [] && n.parent == null
    ensures Forest({n})
  {
  }

  method ReadNodeKid(n: Node, p: string, ghost nodes: set<Node>, ghost trees: seq<Xml>)
    returns (r: Outcome<()>, ghost more: set<Node>, ghost trees': seq<Xml>)
    requires p != [] && p[0] == '<' && !("</" <= p) && Partial(n, nodes) && Node.TreesOf(n.kids, trees)
    modifies n`kids, n`firstChild, n`lastChild, n.kids`next
    ensures fresh(more) && Partial(n, nodes + more) && Node.TreesOf(n.kids, trees')
    ensures Turn(trees, p, trees', r)
    decreases |p|, 5
  {
    hide *;
    var kid, q;
    kid, q, more := BuildNode(p);
    if kid == null {
      UnmodelledTurn(trees, p);
      assert nodes + more == nodes;
      return Unmodelled, more, trees;
    }
    NodeTurn(trees, p, kid.tree, q);
    trees' := trees + [kid.tree];
    AddPartial(n, kid, nodes, more, trees);
    r := AfterKid(q);
  }

  lemma UnmodelledTurn(trees: seq<Xml>, p: string)
    requires p != [] && p[0] == '<' && !("</" <= p) && ParseNode(p) == Unmodelled
    ensures Turn(trees, p, trees, Unmodelled)
  {
    hide ParseNode;
  }

  method AddPartial(n: Node, kid: Node, ghost nodes: set<Node>, ghost more: set<Node>, ghost trees: seq<Xml>)
    requires Partial(n, nodes) && Node.TreesOf(n.kids, trees)
    requires Forest(more) && kid in more && n !in more && nodes !! more && kid.parent == null && !kid.kind.DocumentKind?
    modifies n`kids, n`firstChild, n`lastChild, n.kids`next, kid`parent, kid`prev, kid`next
    ensures Partial(n, nodes + more) && Node.TreesOf(n.kids, trees + [kid.tree])
  {
    hide Wf, Node.Linked, Tied, TiedUnder;
    AddKid(n, kid, nodes, more);
  }

  lemma EmptyLinkedIsPartial(n: Node)
    requires n.Linked() && n.kids == []
    ensures Partial(n, {})
  {
  }

  lemma EmptyIsPartial(n: Node)
    requires n.kids == [] && n.firstChild == null && n.lastChild == null
    ensures Partial(n, {}) && n.Linked()
  {
  }

  lemma FirstChildTells(n: Node)
    requires n.Linked()
    ensures n.kids == [] <==> n.firstChild == null
  {
  }
}
