/** The document tree in memory: nodes with doubly linked child lists. */
module Dom {
  import opened XmlTree
  import opened AttributeRing

  datatype Kind = DocumentKind | ElementKind | TextKind | CommentKind

  class Node {
    const kind: Kind
    var value: string
    var cdata: bool
    const attributeSet: AttributeSet
    var parent: Node?
    var firstChild: Node?
    var lastChild: Node?
    var prev: Node?
    var next: Node?
    ghost var kids: seq<Node>  // the children in order
    ghost var tree: Xml        // the value this node stands for

    constructor (kind: Kind, value: string)
      ensures this.kind == kind && this.value == value && !cdata
      ensures parent == null && firstChild == null && lastChild == null && prev == null && next == null
      ensures kids == [] && attributeSet.Valid() && attributeSet.contents == []
      ensures fresh(attributeSet) && fresh(attributeSet.sentinel)
    {
      this.kind, this.value, cdata := kind, value, false;
      parent, firstChild, lastChild, prev, next := null, null, null, null, null;
      kids, tree := [], Comment("");
      attributeSet := new AttributeSet();
    }

    /** The child list runs forwards and backwards between null pointers, and every child knows its parent. */
    ghost predicate Linked()
      reads this`kids, this`firstChild, this`lastChild, kids`next, kids`prev, kids`parent
    {
      && (kids == [] <==> firstChild == null) && (kids == [] <==> lastChild == null)
      && (kids != [] ==>
            && firstChild == kids[0] && lastChild == kids[|kids| - 1]
            && kids[0].prev == null && kids[|kids| - 1].next == null)
      && (forall i :: 0 <= i < |kids| - 1 ==> kids[i].next == kids[i + 1] && kids[i + 1].prev == kids[i])
      && (forall i :: 0 <= i < |kids| ==> kids[i].parent == this)
      && Injective(kids)
    }

    static ghost predicate Injective(s: seq<Node>) {
      forall i, j :: 0 <= i < j < |s| ==> s[i] != s[j]
    }

    static lemma InsertedIsInjective(s: seq<Node>, k: nat, n: Node, t: seq<Node>)
      requires k <= |s| && Injective(s) && n !in s && t == s[..k] + [n] + s[k..]
      ensures Injective(t) && t[k] == n && |t| == |s| + 1
      ensures forall i :: 0 <= i < k ==> t[i] == s[i]
      ensures forall i :: k < i < |t| ==> t[i] == s[i - 1]
    {
    }

    static ghost predicate TreesOf(nodes: seq<Node>, trees: seq<Xml>)
      reads nodes`tree
    {
      |nodes| == |trees| && forall i :: 0 <= i < |nodes| ==> nodes[i].tree == trees[i]
    }

    /** The value is what the fields say. A document counts as an element without name and attributes. */
    ghost predicate Shaped()
      reads this`tree, this`value, this`cdata, this`kids, kids`tree, attributeSet`contents
    {
      match kind
      case TextKind => kids == [] && tree == Text(value, cdata)
      case CommentKind => kids == [] && tree == Comment(value)
      case ElementKind =>
        && tree.Element? && tree.name == value && tree.attributes == attributeSet.contents
        && TreesOf(kids, tree.kids)
      case DocumentKind =>
        tree.Element? && tree.name == "" && tree.attributes == [] && TreesOf(kids, tree.kids)
    }

    ghost predicate Ok()
      reads this, kids, attributeSet, attributeSet.ring, attributeSet.sentinel
    {
      Linked() && Shaped() && attributeSet.Valid()
    }

    method LinkEndChild(node: Node) returns (r: Node)
      requires Linked() && node !in kids
      modifies this`firstChild, this`lastChild, this`kids, kids`next, node`parent, node`prev, node`next
      ensures r == node && Linked() && kids == old(kids) + [node]
    {
      ghost var was := kids;
      Differs(was, |was| - 1);
      AppendedIsInjective(was, node);
      hide Injective;
      node.parent := this;
      node.prev := lastChild;
      node.next := null;
      if lastChild != null {
        lastChild.next := node;
      } else {
        firstChild := node;
      }
      lastChild := node;
      kids := was + [node];
      r := node;
      forall i | 0 <= i < |kids| - 1 ensures kids[i].next == kids[i + 1] && kids[i + 1].prev == kids[i] {
        if i < |was| - 1 {
          assert was[i].next == was[i + 1];
        }
      }
      forall i | 0 <= i < |kids| ensures kids[i].parent == this {
        assert i < |was| ==> kids[i] == was[i];
      }
      LinkedIf();
    }

    static lemma AppendedIsInjective(s: seq<Node>, n: Node)
      requires Injective(s) && n !in s
      ensures Injective(s + [n])
    {
    }

    method LinkBefore(node: Node, beforeThis: Node, ghost k: nat)
      requires Linked() && node !in kids && k < |kids| && beforeThis == kids[k]
      modifies this`firstChild, this`kids, kids`prev, kids`next, node`parent, node`prev, node`next
      ensures Linked() && kids == old(kids[..k] + [node] + kids[k..])
    {
      node.parent := this;
      node.next := beforeThis;
      node.prev := beforeThis.prev;
      Between(node, beforeThis, k);
    }

    method Between(node: Node, beforeThis: Node, ghost k: nat)
      requires Linked() && node !in kids && k < |kids| && beforeThis == kids[k]
      requires node.parent == this && node.next == beforeThis && node.prev == beforeThis.prev
      modifies this`firstChild, this`kids, kids`prev, kids`next
      ensures Linked() && kids == old(kids[..k] + [node] + kids[k..])
    {
      ghost var was := kids;
      if k > 0 {
        assert was[k - 1].next == was[k];
      }
      Differs(was, k - 1);
      Differs(was, k);
      InsertedIsInjective(was, k, node, was[..k] + [node] + was[k..]);
      hide Injective;
      if beforeThis.prev != null {
        beforeThis.prev.next := node;
      } else {
        firstChild := node;
      }
      beforeThis.prev := node;
      kids := was[..k] + [node] + was[k..];
      forall i | 0 <= i < |kids| - 1 ensures kids[i].next == kids[i + 1] && kids[i + 1].prev == kids[i] {
        if i < k - 1 {
          assert was[i].next == was[i + 1];
        } else if i > k {
          assert was[i - 1].next == was[i];
        }
      }
      forall i | 0 <= i < |kids| ensures kids[i].parent == this {
        assert kids[i] == if i < k then was[i] else if i == k then node else was[i - 1];
      }
      LinkedIf();
    }

    method LinkAfter(node: Node, afterThis: Node, ghost k: nat)
      requires Linked() && node !in kids && k < |kids| && afterThis == kids[k]
      modifies this`lastChild, this`kids, kids`prev, kids`next, node`parent, node`prev, node`next
      ensures Linked() && kids == old(kids[..k + 1] + [node] + kids[k + 1..])
    {
      node.parent := this;
      node.prev := afterThis;
      node.next := afterThis.next;
      SpliceAfter(node, afterThis, k);
    }

    method SpliceAfter(node: Node, afterThis: Node, ghost k: nat)
      requires Linked() && node !in kids && k < |kids| && afterThis == kids[k]
      requires node.parent == this && node.prev == afterThis && node.next == afterThis.next
      modifies this`lastChild, this`kids, kids`prev, kids`next
      ensures Linked() && kids == old(kids[..k + 1] + [node] + kids[k + 1..])
    {
      ghost var was := kids;
      NeighboursOf(k);
      Differs(was, k);
      Differs(was, k + 1);
      InsertedIsInjective(was, k + 1, node, was[..k + 1] + [node] + was[k + 1..]);
      hide Injective;
      if afterThis.next != null {
        afterThis.next.prev := node;
      } else {
        lastChild := node;
      }
      afterThis.next := node;
      kids := was[..k + 1] + [node] + was[k + 1..];
      forall i | 0 <= i < |kids| - 1 ensures kids[i].next == kids[i + 1] && kids[i + 1].prev == kids[i] {
        if i < k {
          assert was[i].next == was[i + 1];
        } else if i > k + 1 {
          assert was[i - 1].next == was[i];
        }
      }
      forall i | 0 <= i < |kids| ensures kids[i].parent == this {
        assert kids[i] == if i <= k then was[i] else if i == k + 1 then node else was[i - 1];
      }
      LinkedIf();
    }

    /** The links of `ReplaceChild`. */
    method SwapIn(node: Node, replaceThis: Node, ghost k: nat)
      requires Linked() && node !in kids && k < |kids| && replaceThis == kids[k]
      modifies this`firstChild, this`lastChild, this`kids, kids`prev, kids`next, node`parent, node`prev, node`next
      ensures Linked() && kids == old(kids[k := node])
    {
      node.next := replaceThis.next;
      node.prev := replaceThis.prev;
      node.parent := this;
      SpliceOver(node, replaceThis, k);
    }

    method SpliceOver(node: Node, replaceThis: Node, ghost k: nat)
      requires Linked() && node !in kids && k < |kids| && replaceThis == kids[k]
      requires node.parent == this && node.prev == replaceThis.prev && node.next == replaceThis.next
      modifies this`firstChild, this`lastChild, this`kids, kids`prev, kids`next
      ensures Linked() && kids == old(kids[k := node])
    {
      ghost var was := kids;
      NeighboursOf(k);
      Differs(was, k - 1);
      Differs(was, k + 1);
      ReplacedIsInjective(was, k, node);
      hide Injective;
      if replaceThis.next != null {
        replaceThis.next.prev := node;
      } else {
        lastChild := node;
      }
      if replaceThis.prev != null {
        replaceThis.prev.next := node;
      } else {
        firstChild := node;
      }
      kids := was[k := node];
      forall i | 0 <= i < |kids| - 1 ensures kids[i].next == kids[i + 1] && kids[i + 1].prev == kids[i] {
        if i != k && i + 1 != k {
          assert was[i].next == was[i + 1];
        }
      }
      forall i | 0 <= i < |kids| ensures kids[i].parent == this {
        assert i != k ==> kids[i] == was[i];
      }
      LinkedIf();
    }

    lemma NeighboursOf(k: nat)
      requires Linked() && k < |kids|
      ensures kids[k].prev == if k > 0 then kids[k - 1] else null
      ensures kids[k].next == if k + 1 < |kids| then kids[k + 1] else null
    {
      if k > 0 {
        assert kids[k - 1].next == kids[k];
      }
    }

    static lemma ReplacedIsInjective(s: seq<Node>, k: nat, n: Node)
      requires k < |s| && Injective(s) && n !in s
      ensures Injective(s[k := n])
    {
    }

    /** The links of `RemoveChild`. */
    method Unlink(removeThis: Node, ghost k: nat)
      requires Linked() && k < |kids| && removeThis == kids[k]
      modifies this`firstChild, this`lastChild, this`kids, kids`prev, kids`next
      ensures Linked() && kids == old(kids[..k] + kids[k + 1..])
    {
      ghost var was := kids;
      NeighboursOf(k);
      Differs(was, k - 1);
      Differs(was, k + 1);
      CutIsInjective(was, k);
      hide Injective;
      if removeThis.next != null {
        removeThis.next.prev := removeThis.prev;
      } else {
        lastChild := removeThis.prev;
      }
      if removeThis.prev != null {
        removeThis.prev.next := removeThis.next;
      } else {
        firstChild := removeThis.next;
      }
      kids := was[..k] + was[k + 1..];
      forall i | 0 <= i < |kids| - 1 ensures kids[i].next == kids[i + 1] && kids[i + 1].prev == kids[i] {
        if i < k - 1 {
          assert was[i].next == was[i + 1];
        } else if i >= k {
          assert was[i + 1].next == was[i + 2];
        }
      }
      forall i | 0 <= i < |kids| ensures kids[i].parent == this {
        assert kids[i] == was[if i < k then i else i + 1];
      }
      LinkedIf();
    }

    lemma LinkedIf()
      requires Injective(kids)
      requires if kids == [] then firstChild == null && lastChild == null
               else
                 && firstChild == kids[0] && lastChild == kids[|kids| - 1]
                 && kids[0].prev == null && kids[|kids| - 1].next == null
      requires forall i :: 0 <= i < |kids| - 1 ==> kids[i].next == kids[i + 1] && kids[i + 1].prev == kids[i]
      requires forall i :: 0 <= i < |kids| ==> kids[i].parent == this
      ensures Linked()
    {
    }

    static lemma CutIsInjective(s: seq<Node>, k: nat)
      requires k < |s| && Injective(s)
      ensures var t := s[..k] + s[k + 1..];
              && Injective(t) && |t| == |s| - 1
              && (forall i :: 0 <= i < k ==> t[i] == s[i])
              && (forall i :: k <= i < |t| ==> t[i] == s[i + 1])
    {
    }

    static lemma Differs(s: seq<Node>, k: int)
      requires Injective(s)
      ensures 0 <= k < |s| ==> forall i :: 0 <= i < |s| && i != k ==> s[i] != s[k]
    {
    }
  }

  ghost predicate Closed(nodes: set<Node>)
    reads nodes`kids
  {
    forall n, k :: n in nodes && k in n.kids ==> k in nodes && !k.kind.DocumentKind?
  }

  ghost predicate AllLinked(nodes: set<Node>)
    requires Closed(nodes)
    reads nodes`kids, nodes`firstChild, nodes`lastChild, nodes`next, nodes`prev, nodes`parent
  {
    forall n :: n in nodes ==> (forall k :: k in n.kids ==> k in nodes) && n.Linked()
  }

  ghost predicate AllShaped(nodes: set<Node>)
    requires Closed(nodes)
    reads nodes`tree, nodes`value, nodes`cdata, nodes`kids, (set n | n in nodes :: n.attributeSet)`contents
  {
    forall n :: n in nodes ==> n.Shaped()
  }

  ghost predicate AllRings(nodes: set<Node>)
    reads (set n | n in nodes :: n.attributeSet), (set n | n in nodes :: n.attributeSet.sentinel)
    reads set n, i | n in nodes && 0 <= i < |n.attributeSet.ring| :: n.attributeSet.ring[i]
  {
    forall n :: n in nodes ==> n.attributeSet.Valid()
  }

  /** A set of nodes closed under children, each with its list, its attribute ring and its value in order. */
  ghost predicate Wf(nodes: set<Node>)
    reads nodes, (set n | n in nodes :: n.attributeSet), (set n | n in nodes :: n.attributeSet.sentinel)
    reads set n, i | n in nodes && 0 <= i < |n.attributeSet.ring| :: n.attributeSet.ring[i]
  {
    Closed(nodes) && AllLinked(nodes) && AllShaped(nodes) && AllRings(nodes)
  }

  /** What the pointers of a well-formed node lead to. */
  lemma KidIs(n: Node, i: nat, nodes: set<Node>)
    requires Wf(nodes) && n in nodes && n.kind.ElementKind? && i < |n.kids|
    ensures n.tree.Element? && |n.tree.kids| == |n.kids|
    ensures n.kids[i] in nodes && !n.kids[i].kind.DocumentKind? && n.kids[i].tree == n.tree.kids[i]
    ensures n.kids[i].next == if i + 1 < |n.kids| then n.kids[i + 1] else null
  {
    assert n.Shaped() && n.Linked();
    hide AttributeSet.Valid;
  }

  lemma ListStarts(n: Node, nodes: set<Node>)
    requires Wf(nodes) && n in nodes && n.kind.ElementKind?
    ensures n.tree.Element? && |n.tree.kids| == |n.kids|
    ensures n.firstChild == if n.kids == [] then null else n.kids[0]
  {
    assert n.Shaped() && n.Linked();
    hide AttributeSet.Valid;
  }

  /** Every parent pointer that is set leads to a node of the set that has this node in its list. */
  ghost predicate Tied(nodes: set<Node>)
    reads nodes`parent, nodes`kids
  {
    forall n :: n in nodes && n.parent != null ==> n.parent in nodes && n in n.parent.kids
  }

  /** The same for nodes whose parent may also be `top`. */
  ghost predicate TiedUnder(nodes: set<Node>, top: Node)
    reads nodes`parent, nodes`kids, top`kids
  {
    forall n :: n in nodes && n.parent != null ==> n.parent in nodes + {top} && n in n.parent.kids
  }

  /** Any number of finished trees. */
  ghost predicate Forest(nodes: set<Node>)
    reads nodes, (set n | n in nodes :: n.attributeSet), (set n | n in nodes :: n.attributeSet.sentinel)
    reads set n, i | n in nodes && 0 <= i < |n.attributeSet.ring| :: n.attributeSet.ring[i]
  {
    Wf(nodes) && Tied(nodes)
  }

  lemma WfUnion(nodes: set<Node>, more: set<Node>)
    requires Wf(nodes) && Wf(more)
    ensures Wf(nodes + more)
  {
    hide Node.Linked, Node.Shaped, AttributeSet.Valid;
  }

  /** A node's list is untouched if neither its ends nor its children's links changed. */
  twostate lemma LinksKept(n: Node)
    requires old(n.Linked())
    requires n.kids == old(n.kids) && n.firstChild == old(n.firstChild) && n.lastChild == old(n.lastChild)
    requires forall k :: k in n.kids ==> k.next == old(k.next) && k.prev == old(k.prev) && k.parent == old(k.parent)
    ensures n.Linked()
  {
  }

  /** Linking a node under `node` keeps the lists of all other nodes. */
  method LinkKid(node: Node, kid: Node, ghost all: set<Node>)
    requires node.Linked() && node !in all && Closed(all) && AllLinked(all)
    requires (forall k :: k in node.kids ==> k in all) && kid in all && kid.parent == null
    modifies node`firstChild, node`lastChild, node`kids, node.kids`next, kid`parent, kid`prev, kid`next
    ensures node.Linked() && node.kids == old(node.kids) + [kid] && kid.parent == node
    ensures Closed(all) && AllLinked(all)
  {
    ghost var foreign := {kid} + set k | k in node.kids;
    NoForeignKids(all, foreign, node, kid);
    assert forall n :: n in all ==> n.Linked();
    assert kid !in node.kids;
    hide Node.Linked;
    var _ := node.LinkEndChild(kid);
    LastKidKnows(node);
    forall n | n in all ensures n.Linked() {
      LinksKept(n);
    }
  }

  lemma LastKidKnows(node: Node)
    requires node.Linked() && node.kids != []
    ensures node.kids[|node.kids| - 1].parent == node
  {
  }

  /** Linking a finished tree under a node that is still being built. */
  method AddKid(node: Node, kid: Node, ghost nodes: set<Node>, ghost more: set<Node>)
    requires node.Linked() && node !in nodes && node !in more && nodes !! more
    requires Wf(nodes) && TiedUnder(nodes, node) && (forall k :: k in node.kids ==> k in nodes)
    requires Forest(more) && kid in more && kid.parent == null && !kid.kind.DocumentKind?
    modifies node`firstChild, node`lastChild, node`kids, node.kids`next, kid`parent, kid`prev, kid`next
    ensures node.Linked() && node.kids == old(node.kids) + [kid]
    ensures Wf(nodes + more) && TiedUnder(nodes + more, node)
  {
    hide *;
    ghost var all := nodes + more;
    AboutToAdd(node, nodes, more);
    LinkKid(node, kid, all);
    Reassembled(all);
    forall n | n in all && n.parent != null ensures n.parent in all + {node} && n in n.parent.kids {
    }
    TiedIf(all, node);
  }

  lemma AboutToAdd(node: Node, nodes: set<Node>, more: set<Node>)
    requires Wf(nodes) && TiedUnder(nodes, node) && Forest(more)
    ensures Closed(nodes + more) && AllLinked(nodes + more) && AllShaped(nodes + more) && AllRings(nodes + more)
    ensures forall n :: n in nodes + more && n.parent != null ==>
                          n.parent in nodes + more + {node} && n in n.parent.kids
  {
    WfUnion(nodes, more);
    hide Closed, AllLinked, AllShaped, AllRings;
  }

  lemma Reassembled(nodes: set<Node>)
    requires Closed(nodes) && AllLinked(nodes) && AllShaped(nodes) && AllRings(nodes)
    ensures Wf(nodes)
  {
  }

  lemma TiedIf(nodes: set<Node>, top: Node)
    requires forall n :: n in nodes && n.parent != null ==> n.parent in nodes + {top} && n in n.parent.kids
    ensures TiedUnder(nodes, top)
  {
  }

  lemma NoForeignKids(nodes: set<Node>, foreign: set<Node>, node: Node, kid: Node)
    requires Closed(nodes) && AllLinked(nodes) && node.Linked() && node !in nodes
    requires foreign == {kid} + (set k | k in node.kids) && kid.parent == null
    ensures forall n, k :: n in nodes && k in n.kids ==> k !in foreign
  {
    forall n, k | n in nodes && k in n.kids ensures k !in foreign {
      assert n.Linked();
    }
  }
}
