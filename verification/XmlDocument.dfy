/** Whole documents: printing, parsing and reading back. */
module XmlDocument {
  import opened XmlText
  import opened XmlTree
  import opened XmlScan
  import opened XmlStream
  import opened XmlParser
  import opened Dom

  /** `TiXmlDocument::StreamOut` stops after the root element. */
  function PrintDocument(kids: seq<Xml>): string {
    if kids == [] then []
    else if kids[0].Element? then Print(kids[0])
    else Print(kids[0]) + PrintDocument(kids[1..])
  }

  /** Comments and CDATA sections, then the root element. */
  predicate NormalDocument(kids: seq<Xml>) {
    && kids != [] && (forall i :: 0 <= i < |kids| ==> Normal(kids[i]) && !IsPlainText(kids[i]))
    && (forall i :: 0 <= i < |kids| ==> (kids[i].Element? <==> i == |kids| - 1))
  }

  lemma DocumentStarts(kids: seq<Xml>)
    requires NormalDocument(kids)
    ensures PrintDocument(kids) != [] && PrintDocument(kids)[0] == '<'
  {
    KidStarts(kids[0], "");
    assert Print(kids[0]) + "" == Print(kids[0]);
  }

  lemma DocumentTurn(done: seq<Xml>, p: string, t: Xml, rest: string)
    requires ParsesTo(p, t, rest) && (rest != [] ==> !IsWhiteSpace(rest[0]))
    ensures ParseDocumentFrom(done, p)
         == if rest == [] then Done(done + [t], rest) else ParseDocumentFrom(done + [t], rest)
  {
    hide ParseNode;
  }

  lemma {:induction false} DocumentIsRead(done: seq<Xml>, kids: seq<Xml>)
    requires NormalDocument(kids)
    ensures ParseDocumentFrom(done, PrintDocument(kids)) == Done(done + kids, "")
    decreases |kids|
  {
    hide ParseDocumentFrom, Print, ParsesTo, ParseElement;
    var t := kids[0];
    if t.Element? {
      assert kids == [t];
      assert Print(t) + "" == Print(t);
      ElementRoundTrip(t, "");
      ElementNodeRoundTrip(t, "");
      DocumentTurn(done, Print(t), t, "");
    } else {
      var tail := PrintDocument(kids[1..]);
      assert |kids| > 1 && NormalDocument(kids[1..]);
      DocumentStarts(kids[1..]);
      hide NormalDocument, PrintDocument;
      match t {
        case Text(text, _) => CDataNodeRoundTrip(text, tail);
        case Comment(comment) => CommentNodeRoundTrip(comment, tail);
      }
      DocumentTurn(done, Print(t) + tail, t, tail);
      DocumentIsRead(done + [t], kids[1..]);
      assert done + [t] + kids[1..] == done + kids;
    }
  }

  /** Parsing a normal document's output gives the document back with nothing left over. */
  lemma DocumentRoundTrip(kids: seq<Xml>)
    requires NormalDocument(kids)
    ensures ParseDocument(PrintDocument(kids)) == Done(kids, "")
  {
    DocumentStarts(kids);
    DocumentIsRead([], kids);
    hide ParseDocumentFrom, PrintDocument;
    assert [] + kids == kids;
  }

  // ---------- In memory ----------

  /** `TiXmlDocument::Parse`. */
  method BuildDocument(start: string) returns (doc: Node, r: Outcome<()>, ghost nodes: set<Node>)
    ensures fresh(nodes) && Forest(nodes) && doc in nodes && doc.kind == DocumentKind && doc.parent == null
    ensures r == Ended(ParseDocument(start))
    ensures r.Done? ==> doc.tree == Element("", [], ParseDocument(start).value)
  {
    hide *;
    doc := new Node(DocumentKind, "");
    EmptyIsPartial(doc);
    ghost var trees;
    r, nodes, trees := ReadDocument(doc, start);
    NotItsOwnKid(doc, nodes);
    doc.tree := Element("", [], trees);
    DocumentIsShaped(doc, trees);
    CompleteIsWf(doc, nodes);
    nodes := nodes + {doc};
  }

  lemma DocumentIsShaped(n: Node, trees: seq<Xml>)
    requires n.kind.DocumentKind? && n.tree == Element("", [], trees) && Node.TreesOf(n.kids, trees)
    ensures n.Shaped()
  {
  }

  method ReadDocument(doc: Node, start: string) returns (r: Outcome<()>, ghost nodes: set<Node>, ghost trees: seq<Xml>)
    requires Partial(doc, {}) && doc.kids == []
    modifies doc`kids, doc`firstChild, doc`lastChild
    ensures fresh(nodes) && Partial(doc, nodes) && Node.TreesOf(doc.kids, trees)
    ensures r == Ended(ParseDocument(start))
    ensures r.Done? ==> trees == ParseDocument(start).value
  {
    hide ParseDocumentFrom, Node.Linked, Wf, TiedUnder;
    nodes, trees := {}, [];
    if start == [] {
      return Null, nodes, trees;
    }
    var p := SkipSpace(start);
    r, nodes, trees := ReadDocumentKids(doc, p);
    FirstChildTells(doc);
    if doc.firstChild == null && r.Done? {
      r := Null;
    }
  }

  /** The loop of `TiXmlDocument::Parse`. */
  method ReadDocumentKids(doc: Node, start: string) returns (r: Outcome<()>, ghost nodes: set<Node>, ghost trees: seq<Xml>)
    requires Partial(doc, {}) && doc.kids == []
    modifies doc`kids, doc`firstChild, doc`lastChild
    ensures fresh(nodes) && Partial(doc, nodes) && Node.TreesOf(doc.kids, trees)
    ensures r == Ended(ParseDocumentFrom([], start))
    ensures r.Done? ==> trees == ParseDocumentFrom([], start).value
  {
    hide *;
    NoTrees();
    nodes, trees := {}, [];
    var p := start;
    while p != [] && p[0] == '<'
      invariant Partial(doc, nodes) && Node.TreesOf(doc.kids, trees) && fresh(nodes)
      invariant forall i :: 0 <= i < |doc.kids| ==> fresh(doc.kids[i])
      invariant ParseDocumentFrom(trees, p) == ParseDocumentFrom([], start)
      decreases |p|
    {
      ghost var more, was := {}, trees;
      r, more, trees := ReadDocumentKid(doc, p, nodes, trees);
      nodes := nodes + more;
      KidsAmong(doc, nodes);
      DocumentTurnTells(was, p, trees, r);
      if !r.Done? {
        return;
      }
      p := r.rest;
    }
    DocumentStops(trees, p);
    r := Done((), p);
  }

  ghost predicate DocumentTurns(trees: seq<Xml>, p: string, trees': seq<Xml>, r: Outcome<()>) {
    if r.Done? then |r.rest| < |p| && ParseDocumentFrom(trees', r.rest) == ParseDocumentFrom(trees, p)
    else r == Ended(ParseDocumentFrom(trees, p)) && !ParseDocumentFrom(trees, p).Done?
  }

  lemma DocumentTurnTells(trees: seq<Xml>, p: string, trees': seq<Xml>, r: Outcome<()>)
    requires DocumentTurns(trees, p, trees', r)
    ensures if r.Done? then |r.rest| < |p| && ParseDocumentFrom(trees', r.rest) == ParseDocumentFrom(trees, p)
            else r == Ended(ParseDocumentFrom(trees, p)) && !ParseDocumentFrom(trees, p).Done?
  {
    hide ParseDocumentFrom;
  }

  lemma DocumentStops(trees: seq<Xml>, p: string)
    requires p == [] || p[0] != '<'
    ensures ParseDocumentFrom(trees, p).Done? && ParseDocumentFrom(trees, p).value == trees
    ensures Ended(ParseDocumentFrom(trees, p)) == Done((), p)
  {
  }

  lemma DocumentTurnIs(trees: seq<Xml>, p: string, tree: Xml, q: Outcome<()>)
    requires p != [] && p[0] == '<' && Matches(q, tree, ParseNode(p))
    ensures DocumentTurns(trees, p, trees + [tree], if q.Done? then Done((), DropSpace(q.rest)) else q)
  {
    hide ParseNode;
  }

  /** One turn of the loop of `TiXmlDocument::Parse`. */
  method ReadDocumentKid(doc: Node, p: string, ghost nodes: set<Node>, ghost trees: seq<Xml>)
    returns (r: Outcome<()>, ghost more: set<Node>, ghost trees': seq<Xml>)
    requires p != [] && p[0] == '<' && Partial(doc, nodes) && Node.TreesOf(doc.kids, trees)
    modifies doc`kids, doc`firstChild, doc`lastChild, doc.kids`next
    ensures fresh(more) && Partial(doc, nodes + more) && Node.TreesOf(doc.kids, trees')
    ensures DocumentTurns(trees, p, trees', r)
  {
    hide *;
    var kid, q;
    kid, q, more := BuildNode(p);
    if kid == null {
      UnmodelledDocument(trees, p);
      assert nodes + more == nodes;
      return Unmodelled, more, trees;
    }
    DocumentTurnIs(trees, p, kid.tree, q);
    trees' := trees + [kid.tree];
    AddPartial(doc, kid, nodes, more, trees);
    if !q.Done? {
      return q, more, trees';
    }
    var rest := SkipSpace(q.rest);
    r := Done((), rest);
  }

  lemma UnmodelledDocument(trees: seq<Xml>, p: string)
    requires p != [] && p[0] == '<' && ParseNode(p) == Unmodelled
    ensures DocumentTurns(trees, p, trees, Unmodelled)
  {
    hide ParseNode;
  }

  /** Writing an element tree out and parsing the text builds an equal tree, and consumes all of the text. */
  method WriteAndRead(n: Node, ghost nodes: set<Node>) returns (copy: Node?, r: Outcome<()>, ghost more: set<Node>)
    requires Wf(nodes) && n in nodes && n.kind == ElementKind && Normal(n.tree)
    ensures fresh(more) && copy != null && copy in more && Forest(more)
    ensures copy.tree == n.tree && r == Done((), "")
  {
    assert n.Shaped();
    hide Wf, Forest, ParseNode, Print, Seen, ParseElement;
    var text := StreamOut(n, "", nodes);
    NormalIsVisible(n.tree);
    SeenIsWholeExactly(n.tree);
    assert text + "" == text && "" + Print(n.tree) == Print(n.tree);
    ElementRoundTrip(n.tree, "");
    assert n.tree.Element?;
    ElementNodeRoundTrip(n.tree, "");
    copy, r, more := BuildNode(text);
  }

  lemma {:induction false} NormalIsVisible(t: Xml)
    requires Normal(t)
    ensures Visible(t)
    decreases t
  {
    if t.Element? {
      forall i | 0 <= i < |t.kids| ensures Visible(t.kids[i]) {
        NormalIsVisible(t.kids[i]);
      }
    }
  }
}
