/** Editing child lists: inserting, replacing and removing children of nodes in memory. The state is a forest:
    all live nodes, in any number of trees. */
module DomEdit {
  import opened XmlTree
  import opened AttributeRing
  import opened Dom
  import opened DomClone

  // ---------- Sizes, and the way up ----------

  function Size(t: Xml): nat {
    1 + if t.Element? then KidsSize(t.kids) else 0
  }

  function KidsSize(kids: seq<Xml>): nat {
    if kids == [] then 0 else Size(kids[0]) + KidsSize(kids[1..])
  }

  lemma {:induction false} KidIsSmaller(kids: seq<Xml>, i: nat)
    requires i < |kids|
    ensures Size(kids[i]) <= KidsSize(kids)
  {
    if i > 0 {
      KidIsSmaller(kids[1..], i - 1);
    }
  }

  /** Parents rank above their children, and nothing above `top`. */
  ghost predicate Ranked(nodes: set<Node>, rank: map<Node, nat>, top: nat)
    reads nodes`parent
  {
    && (forall n :: n in nodes ==> n in rank && rank[n] <= top)
    && (forall n :: n in nodes && n.parent != null ==> n.parent in nodes && rank[n] < rank[n.parent])
  }

  lemma KidRanksBelow(n: Node, kid: Node)
    requires n.Shaped() && kid in n.kids
    ensures Size(kid.tree) < Size(n.tree) && (n.kind.ElementKind? || n.kind.DocumentKind?)
  {
    var i :| 0 <= i < |n.kids| && n.kids[i] == kid;
    KidIsSmaller(n.tree.kids, i);
  }

  lemma Ranks(nodes: set<Node>) returns (rank: map<Node, nat>, top: nat)
    requires Forest(nodes)
    ensures Ranked(nodes, rank, top)
    ensures forall n :: n in nodes ==> rank[n] == Size(n.tree)
  {
    hide Size, Node.Linked, Node.Shaped, AttributeSet.Valid;
    rank := map n | n in nodes :: Size(n.tree);
    top := Bound(nodes, rank);
    forall n | n in nodes && n.parent != null ensures rank[n] < rank[n.parent] {
      KidRanksBelow(n.parent, n);
    }
  }

  lemma Bound(nodes: set<Node>, rank: map<Node, nat>) returns (top: nat)
    requires forall n :: n in nodes ==> n in rank
    ensures forall n :: n in nodes ==> rank[n] <= top
    decreases |nodes|
  {
    if nodes == {} {
      top := 0;
    } else {
      var n :| n in nodes;
      top := Bound(nodes - {n}, rank);
      top := if rank[n] > top then rank[n] else top;
    }
  }

  ghost predicate ShapedBut(nodes: set<Node>, changed: Node)
    requires Closed(nodes)
    reads nodes`tree, nodes`value, nodes`cdata, nodes`kids, (set n | n in nodes :: n.attributeSet)`contents
  {
    forall n :: n in nodes && n != changed ==> n.Shaped()
  }

  ghost function KidTrees(kids: seq<Node>): (trees: seq<Xml>)
    reads kids`tree
    ensures Node.TreesOf(kids, trees)
  {
    if kids == [] then [] else [kids[0].tree] + KidTrees(kids[1..])
  }

  /** The value of a node with children, from its fields and its children's values. */
  ghost function ShapeOf(n: Node): Xml
    reads n`value, n`kids, n.kids`tree, n.attributeSet`contents
  {
    if n.kind.ElementKind? then Element(n.value, n.attributeSet.contents, KidTrees(n.kids))
    else Element("", [], KidTrees(n.kids))
  }

  ghost method Reshape(n: Node)
    requires (n.kind.ElementKind? || n.kind.DocumentKind?) && n !in n.kids
    modifies n`tree
    ensures n.Shaped()
  {
    n.tree := ShapeOf(n);
  }

  lemma OnlyParentLists(n: Node, nodes: set<Node>)
    requires Closed(nodes) && AllLinked(nodes)
    ensures forall m :: m in nodes && n in m.kids ==> n.parent == m
  {
    forall m | m in nodes && n in m.kids ensures n.parent == m {
      assert m.Linked();
    }
  }

  /** After a change to the children of `n`, the values of `n` and its ancestors are brought up to date. */
  ghost method RefreshUp(n: Node, nodes: set<Node>, all: set<Node>, rank: map<Node, nat>, top: nat)
    requires n in nodes && nodes <= all && Ranked(nodes, rank, top)
    requires Closed(all) && AllLinked(all) && Tied(all) && ShapedBut(all, n)
    requires n.kind.ElementKind? || n.kind.DocumentKind?
    modifies nodes`tree
    ensures AllShaped(all)
    ensures forall m :: m in nodes && rank[m] < rank[n] ==> m.tree == old(m.tree)
    decreases top - rank[n]
  {
    hide *;
    OnlyParentLists(n, all);
    NotItsOwnKid(n, all, rank, nodes, top);
    RanksUp(n, nodes, rank, top);
    if n.parent != null {
      ParentHoldsKids(n, all);
    }
    ReshapeAmong(n, all);
    RanksUp(n, nodes, rank, top);
    if n.parent != null {
      RefreshUp(n.parent, nodes, all, rank, top);
    } else {
      ShapedAll(n, all);
    }
  }

  lemma RanksUp(n: Node, nodes: set<Node>, rank: map<Node, nat>, top: nat)
    requires Ranked(nodes, rank, top) && n in nodes
    ensures forall m :: m in nodes ==> m in rank
    ensures rank[n] <= top
    ensures n.parent != null ==> n.parent in nodes && rank[n] < rank[n.parent] <= top
  {
  }

  lemma NotItsOwnKid(n: Node, all: set<Node>, rank: map<Node, nat>, nodes: set<Node>, top: nat)
    requires Closed(all) && AllLinked(all) && n in nodes && nodes <= all && Ranked(nodes, rank, top)
    ensures n !in n.kids
  {
    OnlyParentLists(n, all);
  }

  lemma ShapedAll(n: Node, all: set<Node>)
    requires Closed(all) && ShapedBut(all, n) && (n in all ==> n.Shaped())
    ensures AllShaped(all)
  {
    hide Node.Shaped;
  }

  /** The value of `n` is brought up to date; only its parent's value can be out of date now. */
  ghost method ReshapeAmong(n: Node, all: set<Node>)
    requires Closed(all) && AllLinked(all) && Tied(all) && ShapedBut(all, n) && n in all && n !in n.kids
    requires n.kind.ElementKind? || n.kind.DocumentKind?
    requires forall m :: m in all && n in m.kids ==> n.parent == m
    modifies n`tree
    ensures Closed(all) && AllLinked(all) && Tied(all) && n.Shaped()
    ensures if n.parent == null then ShapedBut(all, n) else ShapedBut(all, n.parent)
  {
    hide Node.Linked, Node.Shaped, ShapeOf;
    Reshape(n);
  }

  lemma ParentHoldsKids(n: Node, all: set<Node>)
    requires Closed(all) && Tied(all) && ShapedBut(all, n) && n in all && n.parent != null && n.parent != n
    ensures n.parent.kind.ElementKind? || n.parent.kind.DocumentKind?
  {
    KidRanksBelow(n.parent, n);
  }

  // ---------- Deleting ----------

  /** A node and everything below it. */
  ghost function Subtree(n: Node, nodes: set<Node>): (below: set<Node>)
    requires Closed(nodes) && AllShaped(nodes) && n in nodes
    reads nodes`tree, nodes`value, nodes`cdata, nodes`kids, (set m | m in nodes :: m.attributeSet)`contents
    ensures n in below && below <= nodes
    decreases Size(n.tree)
  {
    {n} + set kid, m | kid in n.kids && m in Below(n, kid, nodes) :: m
  }

  ghost function Below(n: Node, kid: Node, nodes: set<Node>): (below: set<Node>)
    requires Closed(nodes) && AllShaped(nodes) && n in nodes && kid in n.kids
    reads nodes`tree, nodes`value, nodes`cdata, nodes`kids, (set m | m in nodes :: m.attributeSet)`contents
    ensures below <= nodes
    decreases Size(n.tree), 0
  {
    KidRanksBelow(n, kid);
    Subtree(kid, nodes)
  }

  lemma InSubtree(n: Node, kid: Node, m: Node, nodes: set<Node>)
    requires Closed(nodes) && AllShaped(nodes) && n in nodes && kid in n.kids && m in Subtree(kid, nodes)
    ensures m in Subtree(n, nodes)
  {
    assert m in Below(n, kid, nodes);
  }

  lemma SubtreeStep(n: Node, m: Node, nodes: set<Node>) returns (kid: Node)
    requires Closed(nodes) && AllShaped(nodes) && AllLinked(nodes) && n in nodes && m in Subtree(n, nodes) && m != n
    ensures kid in n.kids && kid in nodes && m in Subtree(kid, nodes)
    ensures kid.parent == n && Size(kid.tree) < Size(n.tree)
  {
    kid :| kid in n.kids && m in Below(n, kid, nodes);
    assert n.Linked();
    KidRanksBelow(n, kid);
  }

  /** A subtree is closed downwards and, but for its root, upwards; its sizes are no larger than the root's. */
  lemma {:induction false} SubtreeIsClosed(n: Node, m: Node, nodes: set<Node>)
    requires Closed(nodes) && AllShaped(nodes) && AllLinked(nodes) && n in nodes && m in Subtree(n, nodes)
    ensures forall k :: k in m.kids ==> k in Subtree(n, nodes)
    ensures m != n ==> m.parent != null && m.parent in Subtree(n, nodes)
    ensures Size(m.tree) <= Size(n.tree)
    decreases Size(n.tree)
  {
    hide Size, Node.Shaped, Node.Linked, AllLinked, Subtree, Below;
    if m == n {
      forall k | k in m.kids ensures k in Subtree(n, nodes) {
        InSubtree(n, k, k, nodes);
      }
    } else {
      var kid := SubtreeStep(n, m, nodes);
      SubtreeIsClosed(kid, m, nodes);
      forall k | k in m.kids ensures k in Subtree(n, nodes) {
        InSubtree(n, kid, k, nodes);
      }
      InSubtree(n, kid, if m == kid then m else m.parent, nodes);
    }
  }

  /** Subtrees of different children of one node have nothing in common. */
  lemma {:induction false} SubtreesMeetNot(a: Node, b: Node, m: Node, nodes: set<Node>)
    requires Closed(nodes) && AllShaped(nodes) && AllLinked(nodes) && a in nodes && b in nodes && a != b
    requires a.parent != null && a.parent == b.parent && a.parent in nodes && a in a.parent.kids && b in a.parent.kids
    requires m in Subtree(a, nodes)
    ensures m !in Subtree(b, nodes)
    decreases Size(a.parent.tree) - Size(m.tree)
  {
    hide Size, Node.Shaped, Node.Linked, Closed, AllLinked, Subtree, Below;
    KidRanksBelow(a.parent, a);
    KidRanksBelow(a.parent, b);
    SubtreeIsClosed(a, m, nodes);
    if m in Subtree(b, nodes) {
      SubtreeIsClosed(b, m, nodes);
      if m == a {
        SubtreeIsClosed(b, a.parent, nodes);
      } else if m == b {
        SubtreeIsClosed(a, b.parent, nodes);
      } else {
        ParentIsLarger(m, a, nodes);
        SubtreesMeetNot(a, b, m.parent, nodes);
      }
    }
  }

  lemma ParentIsLarger(m: Node, a: Node, nodes: set<Node>)
    requires Closed(nodes) && AllShaped(nodes) && AllLinked(nodes) && a in nodes
    requires m in Subtree(a, nodes) && m != a
    ensures m.parent != null && m.parent in Subtree(a, nodes) && Size(m.tree) < Size(m.parent.tree)
    ensures m in m.parent.kids
    decreases Size(a.tree)
  {
    hide Size, Node.Shaped, Node.Linked, AllLinked, Subtree, Below;
    var kid := SubtreeStep(a, m, nodes);
    if m == kid {
      KidRanksBelow(a, m);
    } else {
      ParentIsLarger(m, kid, nodes);
      InSubtree(a, kid, m.parent, nodes);
    }
  }

  /** Below one of the first `i` children. */
  ghost predicate BelowFirst(n: Node, i: nat, m: Node, nodes: set<Node>)
    requires Closed(nodes) && AllShaped(nodes) && n in nodes && i <= |n.kids|
    reads nodes`tree, nodes`value, nodes`cdata, nodes`kids, (set m | m in nodes :: m.attributeSet)`contents
  {
    exists j :: 0 <= j < i && m in Subtree(n.kids[j], nodes)
  }

  ghost predicate Freed(n: Node, i: nat, freed: seq<Node>, nodes: set<Node>)
    requires Closed(nodes) && AllShaped(nodes) && n in nodes && i <= |n.kids|
    reads nodes`tree, nodes`value, nodes`cdata, nodes`kids, (set m | m in nodes :: m.attributeSet)`contents
  {
    && Node.Injective(freed) && (forall m :: m in freed ==> m in nodes)
    && forall m :: m in nodes ==> (m in freed <==> BelowFirst(n, i, m, nodes))
  }

  lemma KidsApart(n: Node, j: nat, i: nat, m: Node, nodes: set<Node>)
    requires Closed(nodes) && AllShaped(nodes) && AllLinked(nodes) && n in nodes && j < i < |n.kids|
    requires m in Subtree(n.kids[j], nodes)
    ensures m !in Subtree(n.kids[i], nodes)
  {
    hide Subtree;
    assert n.Linked();
    SubtreesMeetNot(n.kids[j], n.kids[i], m, nodes);
  }

  lemma FreedGrows(n: Node, i: nat, freed: seq<Node>, more: seq<Node>, nodes: set<Node>)
    requires Closed(nodes) && AllShaped(nodes) && AllLinked(nodes) && n in nodes && i < |n.kids|
    requires Freed(n, i, freed, nodes) && Node.Injective(more)
    requires n.kids[i] in nodes && forall m :: m in more <==> m in Subtree(n.kids[i], nodes)
    ensures Freed(n, i + 1, freed + more, nodes)
  {
    hide *;
    FreedIs(n, i, freed, nodes);
    forall m | m in freed ensures m !in more {
      var j := WhichKid(n, i, m, nodes);
      KidsApart(n, j, i, m, nodes);
    }
    Appended(freed, more);
    forall m | m in nodes
      ensures m in freed + more <==> BelowFirst(n, i + 1, m, nodes)
    {
      OneMoreKid(n, i, m, nodes);
    }
    FreedIf(n, i + 1, freed + more, nodes);
  }

  lemma FreedIs(n: Node, i: nat, freed: seq<Node>, nodes: set<Node>)
    requires Closed(nodes) && AllShaped(nodes) && n in nodes && i <= |n.kids| && Freed(n, i, freed, nodes)
    ensures Node.Injective(freed) && (forall m :: m in freed ==> m in nodes)
    ensures forall m :: m in nodes ==> (m in freed <==> BelowFirst(n, i, m, nodes))
  {
    hide Closed, AllShaped, BelowFirst, Node.Injective;
  }

  lemma FreedIf(n: Node, i: nat, freed: seq<Node>, nodes: set<Node>)
    requires Closed(nodes) && AllShaped(nodes) && n in nodes && i <= |n.kids|
    requires Node.Injective(freed) && (forall m :: m in freed ==> m in nodes)
    requires forall m :: m in nodes ==> (m in freed <==> BelowFirst(n, i, m, nodes))
    ensures Freed(n, i, freed, nodes)
  {
    hide Closed, AllShaped, BelowFirst, Node.Injective;
  }

  lemma WhichKid(n: Node, i: nat, m: Node, nodes: set<Node>) returns (j: nat)
    requires Closed(nodes) && AllShaped(nodes) && n in nodes && i <= |n.kids| && BelowFirst(n, i, m, nodes)
    ensures j < i && n.kids[j] in nodes && m in Subtree(n.kids[j], nodes)
  {
    j :| 0 <= j < i && m in Subtree(n.kids[j], nodes);
  }

  lemma OneMoreKid(n: Node, i: nat, m: Node, nodes: set<Node>)
    requires Closed(nodes) && AllShaped(nodes) && n in nodes && i < |n.kids| && n.kids[i] in nodes
    ensures BelowFirst(n, i + 1, m, nodes) <==> BelowFirst(n, i, m, nodes) || m in Subtree(n.kids[i], nodes)
  {
    hide Subtree, AllShaped;
  }

  lemma Appended(s: seq<Node>, t: seq<Node>)
    requires Node.Injective(s) && Node.Injective(t) && forall m :: m in s ==> m !in t
    ensures Node.Injective(s + t)
  {
    forall i, j | 0 <= i < j < |s + t| ensures (s + t)[i] != (s + t)[j] {
      if i < |s| <= j {
        assert s[i] in s && t[j - |s|] in t;
      }
    }
  }

  lemma AllFreed(n: Node, freed: seq<Node>, nodes: set<Node>)
    requires Closed(nodes) && AllShaped(nodes) && AllLinked(nodes) && n in nodes && Freed(n, |n.kids|, freed, nodes)
    ensures Node.Injective(freed + [n])
    ensures forall m :: m in freed + [n] <==> m in Subtree(n, nodes)
  {
    hide Node.Shaped, Node.Linked;
    forall m | m in Subtree(n, nodes) && m != n ensures m in freed {
      var kid := SubtreeStep(n, m, nodes);
      var j :| 0 <= j < |n.kids| && n.kids[j] == kid;
      assert BelowFirst(n, |n.kids|, m, nodes);
    }
    forall m | m in freed ensures m in Subtree(n, nodes) && m != n {
      assert BelowFirst(n, |n.kids|, m, nodes);
      var j := WhichKid(n, |n.kids|, m, nodes);
      InSubtree(n, n.kids[j], m, nodes);
      KidRanksBelow(n, n.kids[j]);
      SubtreeIsClosed(n.kids[j], m, nodes);
    }
  }

  lemma KidAt(n: Node, i: nat, nodes: set<Node>)
    requires Closed(nodes) && AllShaped(nodes) && AllLinked(nodes) && n in nodes && i < |n.kids|
    ensures n.kids[i] in nodes && Size(n.kids[i].tree) < Size(n.tree)
    ensures n.kids[i].next == if i + 1 < |n.kids| then n.kids[i + 1] else null
  {
    assert n.Linked();
    KidRanksBelow(n, n.kids[i]);
  }

  lemma NoneFreed(n: Node, nodes: set<Node>)
    requires Closed(nodes) && AllShaped(nodes) && AllLinked(nodes) && n in nodes
    ensures Freed(n, 0, [], nodes)
    ensures n.firstChild == if n.kids == [] then null else n.kids[0]
  {
    assert n.Linked();
  }

  /** Children come before their parents. */
  ghost predicate KidsFirst(s: seq<Node>)
    reads s`kids
  {
    forall i, j :: 0 <= i < |s| && 0 <= j < |s| && s[i] in s[j].kids ==> i < j
  }

  lemma JoinedInOrder(s: seq<Node>, t: seq<Node>)
    requires KidsFirst(s) && KidsFirst(t) && forall m, k :: m in s && k in m.kids ==> k !in t
    ensures KidsFirst(s + t)
  {
    var all := s + t;
    forall i, j | 0 <= i < |all| && 0 <= j < |all| && all[i] in all[j].kids ensures i < j {
      assert i >= |s| ==> all[i] == t[i - |s|] && all[i] in t;
      assert j < |s| ==> all[j] == s[j] && all[j] in s;
    }
  }

  /** No node of the subtrees freed before is the parent of a node in the next one. */
  lemma OrderGrows(n: Node, i: nat, freed: seq<Node>, more: seq<Node>, nodes: set<Node>)
    requires Closed(nodes) && AllShaped(nodes) && AllLinked(nodes) && n in nodes && i < |n.kids|
    requires Freed(n, i, freed, nodes) && KidsFirst(freed) && KidsFirst(more)
    requires n.kids[i] in nodes && forall m :: m in more <==> m in Subtree(n.kids[i], nodes)
    ensures KidsFirst(freed + more)
  {
    hide *;
    FreedIs(n, i, freed, nodes);
    forall m, k | m in freed && k in m.kids ensures k !in more {
      var j := WhichKid(n, i, m, nodes);
      SubtreeIsClosed(n.kids[j], m, nodes);
      KidsApart(n, j, i, k, nodes);
    }
    JoinedInOrder(freed, more);
  }

  lemma RootComesLast(n: Node, freed: seq<Node>, nodes: set<Node>)
    requires Closed(nodes) && AllShaped(nodes) && AllLinked(nodes) && n in nodes
    requires KidsFirst(freed) && forall m :: m in freed ==> m in Subtree(n, nodes)
    ensures KidsFirst(freed + [n])
  {
    hide *;
    forall m, k | m in freed && k in m.kids ensures k !in [n] {
      SubtreeIsClosed(n, m, nodes);
      ShapedIn(m, nodes);
      KidRanksBelow(m, k);
    }
    NotOwnKid(n, nodes);
    JoinedInOrder(freed, [n]);
  }

  lemma ShapedIn(m: Node, nodes: set<Node>)
    requires Closed(nodes) && AllShaped(nodes) && m in nodes
    ensures m.Shaped()
  {
    hide Node.Shaped;
  }

  lemma NotOwnKid(n: Node, nodes: set<Node>)
    requires Closed(nodes) && AllShaped(nodes) && n in nodes
    ensures KidsFirst([n])
  {
    hide Node.Shaped, Size;
    if n in n.kids {
      KidRanksBelow(n, n);
    }
  }

  lemma NothingInOrder()
    ensures KidsFirst([])
  {
  }

  /** `delete` of a node, with the destructor `~TiXmlNode`: every node of the subtree is freed once, children
      before their parent, and nothing else is. */
  method Delete(n: Node, ghost nodes: set<Node>) returns (ghost freed: seq<Node>)
    requires Closed(nodes) && AllShaped(nodes) && AllLinked(nodes) && n in nodes
    ensures Node.Injective(freed) && forall m :: m in freed <==> m in Subtree(n, nodes)
    ensures KidsFirst(freed)
    decreases Size(n.tree)
  {
    hide *;
    NoneFreed(n, nodes);
    NothingInOrder();
    freed := [];
    var node := n.firstChild;
    ghost var i := 0;
    while node != null
      invariant 0 <= i <= |n.kids| && node == if i < |n.kids| then n.kids[i] else null
      invariant Freed(n, i, freed, nodes) && KidsFirst(freed)
      decreases |n.kids| - i
    {
      KidAt(n, i, nodes);
      var temp := node;
      node := node.next;
      ghost var more := Delete(temp, nodes);
      FreedGrows(n, i, freed, more, nodes);
      OrderGrows(n, i, freed, more, nodes);
      freed, i := freed + more, i + 1;
    }
    AllFreed(n, freed, nodes);
    RootComesLast(n, freed, nodes);
    freed := freed + [n];
  }

  // ---------- Editing ----------

  /** `s` with the items from `from` up to `to` replaced by `mid`. */
  function Spliced<T>(s: seq<T>, from: nat, to: nat, mid: seq<T>): seq<T>
    requires from <= to <= |s|
  {
    s[..from] + mid + s[to..]
  }

  ghost function Position(s: seq<Node>, n: Node): (k: nat)
    requires n in s
    ensures k < |s| && s[k] == n
  {
    var k :| 0 <= k < |s| && s[k] == n;
    k
  }

  lemma SplicedHas(s: seq<Node>, from: nat, to: nat, mid: seq<Node>)
    requires from <= to <= |s|
    ensures forall m :: m in Spliced(s, from, to, mid) ==> m in s || m in mid
    ensures forall m :: m in mid ==> m in Spliced(s, from, to, mid)
    ensures forall m :: m in s ==> m in Spliced(s, from, to, mid) || m in s[from..to]
  {
    assert s == s[..from] + s[from..to] + s[to..];
  }

  /** The facts of a forest, spelt out, and that `node` shares no child with another node. */
  lemma Unpack(node: Node, nodes: set<Node>)
    requires Forest(nodes) && node in nodes
    ensures AllRings(nodes)
    ensures forall m, k :: m in nodes && k in m.kids ==> k in nodes && !k.kind.DocumentKind? && k.parent == m
    ensures forall m :: m in nodes ==> m.Linked() && m.Shaped()
    ensures forall m :: m in nodes && m.parent != null ==> m.parent in nodes && m in m.parent.kids
    ensures forall m, k :: m in nodes && m != node && k in m.kids ==> k !in node.kids
  {
    hide Node.Shaped, AllRings;
    forall m, k | m in nodes && k in m.kids ensures k.parent == m {
      assert m.Linked();
    }
  }

  lemma Repack(node: Node, all: set<Node>)
    requires forall m, k :: m in all && k in m.kids ==> k in all && !k.kind.DocumentKind?
    requires forall m :: m in all ==> m.Linked()
    requires forall m :: m in all && m != node ==> m.Shaped()
    ensures Closed(all) && AllLinked(all) && ShapedBut(all, node)
  {
    hide Node.Shaped, Node.Linked;
  }

  lemma KidsKnow(n: Node)
    requires n.Linked()
    ensures forall k :: k in n.kids ==> k.parent == n
  {
  }

  lemma ForestUnion(nodes: set<Node>, more: set<Node>)
    requires Forest(nodes) && Forest(more)
    ensures Forest(nodes + more)
  {
    hide Wf;
    WfUnion(nodes, more);
  }

  /** All of `all` is in order except the value of `node`, and a parent pointer of `dropped`. */
  ghost predicate Edited(node: Node, dropped: Node?, all: set<Node>)
    reads all, (set n | n in all :: n.attributeSet), (set n | n in all :: n.attributeSet.sentinel)
    reads set n, i | n in all && 0 <= i < |n.attributeSet.ring| :: n.attributeSet.ring[i]
  {
    && Closed(all) && AllLinked(all) && AllRings(all) && ShapedBut(all, node)
    && forall m :: m in all && m != dropped && m.parent != null ==> m.parent in all && m in m.parent.kids
  }

  lemma EditedIf(node: Node, dropped: Node?, all: set<Node>)
    requires AllRings(all)
    requires forall m, k :: m in all && k in m.kids ==> k in all && !k.kind.DocumentKind?
    requires forall m :: m in all ==> m.Linked()
    requires forall m :: m in all && m != node ==> m.Shaped()
    requires forall m :: m in all && m != dropped && m.parent != null ==> m.parent in all && m in m.parent.kids
    ensures Edited(node, dropped, all)
  {
    hide AllRings;
    Repack(node, all);
  }

  method RelinkBefore(node: Node, kid: Node, beforeThis: Node, ghost k: nat, ghost all: set<Node>)
    requires Forest(all) && node in all && kid in all && kid.parent == null && !kid.kind.DocumentKind?
    requires k < |node.kids| && beforeThis == node.kids[k]
    modifies node`firstChild, node`kids, node.kids`prev, node.kids`next, kid`parent, kid`prev, kid`next
    ensures node.kids == Spliced(old(node.kids), k, k, [kid]) && Edited(node, null, all)
  {
    hide *;
    Unpack(node, all);
    ghost var was := node.kids;
    node.LinkBefore(kid, beforeThis, k);
    SplicedHas(was, k, k, [kid]);
    IsSpliced(was, k, k, [kid]);
    KidsKnow(node);
    forall m | m in all ensures m.Linked() {
      if m != node {
        assert m.kids == old(m.kids);
        assert forall i :: i in m.kids ==> i !in was && old(i.parent) == m;
        LinksKept(m);
      }
    }
    EditedIf(node, null, all);
  }

  method RelinkAfter(node: Node, kid: Node, afterThis: Node, ghost k: nat, ghost all: set<Node>)
    requires Forest(all) && node in all
    requires kid in all && kid.parent == null && !kid.kind.DocumentKind?
    requires k < |node.kids| && afterThis == node.kids[k]
    modifies node`lastChild, node`kids, node.kids`prev, node.kids`next, kid`parent, kid`prev, kid`next
    ensures node.kids == Spliced(old(node.kids), k + 1, k + 1, [kid]) && Edited(node, null, all)
  {
    hide *;
    Unpack(node, all);
    ghost var was := node.kids;
    node.LinkAfter(kid, afterThis, k);
    SplicedHas(was, k + 1, k + 1, [kid]);
    IsSpliced(was, k + 1, k + 1, [kid]);
    KidsKnow(node);
    forall m | m in all ensures m.Linked() {
      if m != node {
        assert m.kids == old(m.kids);
        assert forall i :: i in m.kids ==> i !in was && old(i.parent) == m;
        LinksKept(m);
      }
    }
    EditedIf(node, null, all);
  }

  method RelinkEnd(node: Node, kid: Node, ghost all: set<Node>)
    requires Forest(all) && node in all
    requires kid in all && kid.parent == null && !kid.kind.DocumentKind?
    modifies node`firstChild, node`lastChild, node`kids, node.kids`next, kid`parent, kid`prev, kid`next
    ensures node.kids == Spliced(old(node.kids), |old(node.kids)|, |old(node.kids)|, [kid]) && Edited(node, null, all)
  {
    hide *;
    Unpack(node, all);
    ghost var was := node.kids;
    var _ := node.LinkEndChild(kid);
    SplicedHas(was, |was|, |was|, [kid]);
    IsSpliced(was, |was|, |was|, [kid]);
    KidsKnow(node);
    forall m | m in all ensures m.Linked() {
      if m != node {
        assert m.kids == old(m.kids);
        assert forall i :: i in m.kids ==> i !in was && old(i.parent) == m;
        LinksKept(m);
      }
    }
    EditedIf(node, null, all);
  }

  method RelinkOver(node: Node, kid: Node, replaceThis: Node, ghost k: nat, ghost all: set<Node>)
    requires Forest(all) && node in all
    requires kid in all && kid.parent == null && !kid.kind.DocumentKind?
    requires k < |node.kids| && replaceThis == node.kids[k]
    modifies node`firstChild, node`lastChild, node`kids, node.kids`prev, node.kids`next
    modifies kid`parent, kid`prev, kid`next
    ensures node.kids == Spliced(old(node.kids), k, k + 1, [kid]) && Edited(node, replaceThis, all)
    ensures replaceThis !in node.kids && replaceThis.parent == node
  {
    hide *;
    Unpack(node, all);
    ghost var was := node.kids;
    KidsDiffer(node);
    node.SwapIn(kid, replaceThis, k);
    SplicedHas(was, k, k + 1, [kid]);
    SplicedLacks(was, k, [kid]);
    IsSpliced(was, k, k + 1, [kid]);
    KidsKnow(node);
    forall m | m in all ensures m.Linked() {
      if m != node {
        assert m.kids == old(m.kids);
        assert forall i :: i in m.kids ==> i !in was && old(i.parent) == m;
        LinksKept(m);
      }
    }
    EditedIf(node, replaceThis, all);
  }

  method RelinkCut(node: Node, removeThis: Node, ghost k: nat, ghost all: set<Node>)
    requires Forest(all) && node in all
    requires k < |node.kids| && removeThis == node.kids[k]
    modifies node`firstChild, node`lastChild, node`kids, node.kids`prev, node.kids`next
    ensures node.kids == Spliced(old(node.kids), k, k + 1, []) && Edited(node, removeThis, all)
    ensures removeThis !in node.kids && removeThis.parent == node
  {
    hide *;
    Unpack(node, all);
    ghost var was := node.kids;
    KidsDiffer(node);
    node.Unlink(removeThis, k);
    SplicedHas(was, k, k + 1, []);
    SplicedLacks(was, k, []);
    IsSpliced(was, k, k + 1, []);
    KidsKnow(node);
    forall m | m in all ensures m.Linked() {
      if m != node {
        assert m.kids == old(m.kids);
        assert forall i :: i in m.kids ==> i !in was && old(i.parent) == m;
        LinksKept(m);
      }
    }
    EditedIf(node, removeThis, all);
  }

  lemma KidsDiffer(n: Node)
    requires n.Linked()
    ensures Node.Injective(n.kids)
  {
  }

  lemma SplicedLacks(s: seq<Node>, k: nat, mid: seq<Node>)
    requires k < |s| && Node.Injective(s) && s[k] !in mid
    ensures s[k] !in Spliced(s, k, k + 1, mid)
  {
  }

  lemma IsSpliced(s: seq<Node>, from: nat, to: nat, mid: seq<Node>)
    requires from <= to <= |s|
    ensures Spliced(s, from, to, mid) == s[..from] + mid + s[to..]
    ensures from == to ==> s[from..to] == []
    ensures to == from + 1 ==> s[from..to] == [s[from]]
    ensures from == |s| ==> Spliced(s, from, to, mid) == s + mid
    ensures to == from + 1 && |mid| == 1 ==> Spliced(s, from, to, mid) == s[from := mid[0]]
    ensures mid == [] ==> Spliced(s, from, to, mid) == s[..from] + s[to..]
  {
  }

  /** The name and attributes in the value of a node with children. */
  ghost predicate HeadIs(n: Node, tree: Xml)
    reads n`value, n.attributeSet`contents
  {
    && tree.Element?
    && tree.name == (if n.kind.ElementKind? then n.value else "")
    && tree.attributes == if n.kind.ElementKind? then n.attributeSet.contents else []
  }

  lemma HeadOf(n: Node)
    requires n.Shaped() && (n.kind.ElementKind? || n.kind.DocumentKind?)
    ensures HeadIs(n, n.tree) && Node.TreesOf(n.kids, n.tree.kids)
  {
  }

  /** `tree` with its children from `from` up to `to` replaced by `trees`. */
  function EditTree(tree: Xml, from: nat, to: nat, trees: seq<Xml>): Xml
    requires tree.Element? && from <= to <= |tree.kids|
  {
    tree.(kids := Spliced(tree.kids, from, to, trees))
  }

  lemma SplicedTree(n: Node, kids: seq<Node>, tree: Xml, from: nat, to: nat, mid: seq<Node>, trees: seq<Xml>)
    requires from <= to <= |kids| && n.kids == Spliced(kids, from, to, mid)
    requires n.Shaped() && (n.kind.ElementKind? || n.kind.DocumentKind?) && HeadIs(n, tree)
    requires |tree.kids| == |kids| && |mid| == |trees| && forall i :: 0 <= i < |mid| ==> mid[i].tree == trees[i]
    requires forall i :: 0 <= i < |kids| && !(from <= i < to) ==> kids[i].tree == tree.kids[i]
    ensures n.tree == EditTree(tree, from, to, trees)
  {
    HeadOf(n);
    var t := Spliced(tree.kids, from, to, trees);
    assert |t| == |n.kids|;
    forall i | 0 <= i < |t| ensures n.tree.kids[i] == t[i] {
      assert n.tree.kids[i] == n.kids[i].tree;
    }
    assert n.tree.kids == t;
  }

  /** After an edit the values are brought up to date, and the forest is whole again. */
  ghost method Settle(node: Node, nodes: set<Node>, all: set<Node>, rank: map<Node, nat>, top: nat)
    requires node in nodes && nodes <= all && Ranked(nodes, rank, top) && Edited(node, null, all)
    requires node.kind.ElementKind? || node.kind.DocumentKind?
    modifies nodes`tree
    ensures Forest(all) && node.Shaped()
    ensures forall m :: m in nodes && rank[m] < rank[node] ==> m.tree == old(m.tree)
  {
    hide *;
    EditedIs(node, all);
    RefreshUp(node, nodes, all, rank, top);
    Reassembled(all);
    ForestIf(node, all);
  }

  lemma EditedIs(node: Node, all: set<Node>)
    requires Edited(node, null, all)
    ensures Closed(all) && AllLinked(all) && AllRings(all) && ShapedBut(all, node) && Tied(all)
  {
    hide Closed, AllLinked, AllRings, ShapedBut;
  }

  lemma ForestIf(node: Node, all: set<Node>)
    requires Wf(all) && Tied(all) && node in all
    ensures Forest(all) && node.Shaped()
  {
    hide Closed, AllLinked, AllRings, Node.Shaped;
  }

  /** A node that names `node` as its parent is one of its children. */
  lemma IsKid(kid: Node, node: Node, nodes: set<Node>)
    requires Forest(nodes) && kid in nodes && kid.parent == node
    ensures kid in node.kids && (node.kind.ElementKind? || node.kind.DocumentKind?)
  {
    hide Wf, Size;
    Unpack(node, nodes);
    KidRanksBelow(node, kid);
  }

  /** What a node with children looks like before an edit. */
  lemma BeforeEdit(node: Node, nodes: set<Node>)
    requires Forest(nodes) && node in nodes && (node.kind.ElementKind? || node.kind.DocumentKind?)
    ensures Wf(nodes) && HeadIs(node, node.tree) && |node.tree.kids| == |node.kids|
    ensures forall i :: 0 <= i < |node.kids| ==> node.kids[i].tree == node.tree.kids[i]
    ensures forall k :: k in node.kids ==> Size(k.tree) < Size(node.tree) && k in nodes
  {
    hide Wf, Size;
    Unpack(node, nodes);
    forall k | k in node.kids ensures Size(k.tree) < Size(node.tree) {
      KidRanksBelow(node, k);
    }
    HeadOf(node);
  }

  method InsertBeforeChild(node: Node, beforeThis: Node?, addThis: Node, ghost nodes: set<Node>)
    returns (r: Node?, ghost after: set<Node>)
    requires Forest(nodes) && node in nodes && addThis in nodes && !addThis.kind.DocumentKind?
    requires beforeThis != null ==> beforeThis in nodes
    modifies nodes`firstChild, nodes`lastChild, nodes`kids, nodes`prev, nodes`next, nodes`tree
    ensures Forest(after) && nodes <= after && fresh(after - nodes)
    ensures r == null <==> beforeThis == null || beforeThis.parent != node
    ensures r == null ==> unchanged(nodes) && after == nodes
    ensures r != null ==>
              && fresh(r) && r in after && beforeThis in old(node.kids)
              && old(node.tree).Element? && |old(node.tree).kids| == |old(node.kids)|
              && var k := Position(old(node.kids), beforeThis);
                 && node.kids == Spliced<Node>(old(node.kids), k, k, [r])
                 && node.tree == EditTree(old(node.tree), k, k, [old(Copied(addThis.tree))])
    ensures forall m :: m in nodes && m != node ==> m.kids == old(m.kids)
  {
    hide *;
    if beforeThis == null || beforeThis.parent != node {
      return null, nodes;
    }
    ghost var rank, top := Ranks(nodes);
    IsKid(beforeThis, node, nodes);
    BeforeEdit(node, nodes);
    HeadHolds(node, node.tree);
    ghost var kids, tree, k := node.kids, node.tree, Position(node.kids, beforeThis);
    ghost var copied := Copied(addThis.tree);
    ghost var more;
    r, more := Clone(addThis, nodes);
    after := nodes + more;
    ForestUnion(nodes, more);
    RelinkBefore(node, r, beforeThis, k, after);
    Settle(node, nodes, after, rank, top);
    SplicedTree(node, kids, tree, k, k, [r], [copied]);
  }

  lemma HeadHolds(n: Node, tree: Xml)
    requires HeadIs(n, tree)
    ensures tree.Element?
  {
  }

  method InsertAfterChild(node: Node, afterThis: Node?, addThis: Node, ghost nodes: set<Node>)
    returns (r: Node?, ghost after: set<Node>)
    requires Forest(nodes) && node in nodes && addThis in nodes && !addThis.kind.DocumentKind?
    requires afterThis != null ==> afterThis in nodes
    modifies nodes`firstChild, nodes`lastChild, nodes`kids, nodes`prev, nodes`next, nodes`tree
    ensures Forest(after) && nodes <= after && fresh(after - nodes)
    ensures r == null <==> afterThis == null || afterThis.parent != node
    ensures r == null ==> unchanged(nodes) && after == nodes
    ensures r != null ==>
              && fresh(r) && r in after && afterThis in old(node.kids)
              && old(node.tree).Element? && |old(node.tree).kids| == |old(node.kids)|
              && var k := Position(old(node.kids), afterThis);
                 && node.kids == Spliced<Node>(old(node.kids), k + 1, k + 1, [r])
                 && node.tree == EditTree(old(node.tree), k + 1, k + 1, [old(Copied(addThis.tree))])
    ensures forall m :: m in nodes && m != node ==> m.kids == old(m.kids)
  {
    hide *;
    if afterThis == null || afterThis.parent != node {
      return null, nodes;
    }
    ghost var rank, top := Ranks(nodes);
    IsKid(afterThis, node, nodes);
    BeforeEdit(node, nodes);
    HeadHolds(node, node.tree);
    ghost var kids, tree, k := node.kids, node.tree, Position(node.kids, afterThis);
    ghost var copied := Copied(addThis.tree);
    ghost var more;
    r, more := Clone(addThis, nodes);
    after := nodes + more;
    ForestUnion(nodes, more);
    RelinkAfter(node, r, afterThis, k, after);
    Settle(node, nodes, after, rank, top);
    SplicedTree(node, kids, tree, k + 1, k + 1, [r], [copied]);
  }

  method InsertEndChild(node: Node, addThis: Node, ghost nodes: set<Node>) returns (r: Node, ghost after: set<Node>)
    requires Forest(nodes) && node in nodes && addThis in nodes && !addThis.kind.DocumentKind?
    requires node.kind.ElementKind? || node.kind.DocumentKind?
    modifies nodes`firstChild, nodes`lastChild, nodes`kids, nodes`prev, nodes`next, nodes`tree
    ensures Forest(after) && nodes <= after && fresh(after - nodes)
    ensures fresh(r) && r in after && old(node.tree).Element? && |old(node.tree).kids| == |old(node.kids)|
    ensures var k := |old(node.kids)|;
            && node.kids == Spliced(old(node.kids), k, k, [r])
            && node.tree == EditTree(old(node.tree), k, k, [old(Copied(addThis.tree))])
    ensures forall m :: m in nodes && m != node ==> m.kids == old(m.kids)
  {
    hide *;
    ghost var rank, top := Ranks(nodes);
    BeforeEdit(node, nodes);
    HeadHolds(node, node.tree);
    ghost var kids, tree := node.kids, node.tree;
    ghost var copied := Copied(addThis.tree);
    ghost var more;
    r, more := Clone(addThis, nodes);
    after := nodes + more;
    ForestUnion(nodes, more);
    RelinkEnd(node, r, after);
    Settle(node, nodes, after, rank, top);
    SplicedTree(node, kids, tree, |kids|, |kids|, [r], [copied]);
  }

  lemma {:induction false} SubtreeSame(n: Node, a: set<Node>, b: set<Node>)
    requires Closed(a) && AllShaped(a) && Closed(b) && AllShaped(b) && n in a && n in b
    ensures Subtree(n, a) == Subtree(n, b)
    decreases Size(n.tree)
  {
    hide Size, Closed, AllShaped;
    KidsStay(n, a);
    KidsStay(n, b);
    forall kid | kid in n.kids ensures kid in a && Below(n, kid, a) == Below(n, kid, b) {
      SubtreeSame(kid, a, b);
      BelowIs(n, kid, a);
      BelowIs(n, kid, b);
    }
  }

  lemma KidsStay(n: Node, nodes: set<Node>)
    requires Closed(nodes) && AllShaped(nodes) && n in nodes
    ensures forall kid :: kid in n.kids ==> kid in nodes && Size(kid.tree) < Size(n.tree)
  {
    hide Size;
    forall kid | kid in n.kids ensures Size(kid.tree) < Size(n.tree) {
      KidRanksBelow(n, kid);
    }
  }

  lemma BelowIs(n: Node, kid: Node, nodes: set<Node>)
    requires Closed(nodes) && AllShaped(nodes) && n in nodes && kid in n.kids && kid in nodes
    ensures Below(n, kid, nodes) == Subtree(kid, nodes)
  {
    hide Closed, AllShaped, Subtree;
  }

  /** A subtree can be taken out: nothing in it refers to the rest except through its root. */
  lemma SubtreeStands(n: Node, nodes: set<Node>)
    requires Forest(nodes) && n in nodes && n.parent != null && Closed(nodes) && AllShaped(nodes)
    ensures var gone := Subtree(n, nodes);
            && Closed(gone) && AllShaped(gone) && gone == Subtree(n, gone) && n.parent !in gone
            && (forall m, k :: m in gone && k in m.kids ==> k in gone)
            && (forall m :: m in gone && m != n ==> m.parent != null && m.parent in gone)
  {
    hide Size, Node.Shaped, Node.Linked, Subtree, AllRings;
    var gone := Subtree(n, nodes);
    forall m | m in gone
      ensures forall k :: k in m.kids ==> k in gone
      ensures m != n ==> m.parent != null && m.parent in gone
      ensures Size(m.tree) <= Size(n.tree)
    {
      SubtreeIsClosed(n, m, nodes);
    }
    KidRanksBelow(n.parent, n);
    assert Closed(gone);
    SubtreeSame(n, gone, nodes);
  }

  lemma StaysShaped(nodes: set<Node>)
    requires Forest(nodes)
    ensures Closed(nodes) && AllShaped(nodes)
  {
    hide Closed, AllShaped;
  }

  /** What remains is in order once the root of the subtree is unlinked. */
  lemma RestStands(node: Node, dropped: Node, gone: set<Node>, all: set<Node>)
    requires Edited(node, dropped, all) && dropped in gone && node in all && node !in gone
    requires gone <= all && Closed(gone)
    requires dropped !in node.kids && dropped.parent == node
    requires forall m, k :: m in gone && k in m.kids ==> k in gone
    requires forall m :: m in gone && m != dropped ==> m.parent != null && m.parent in gone
    ensures Edited(node, null, all - gone)
    ensures AllLinked(gone)
  {
    hide Node.Shaped, AttributeSet.Valid;
    forall m, k | m in all - gone && k in m.kids ensures k in all - gone && !k.kind.DocumentKind? {
      OnlyParentLists(k, all);
    }
  }

  lemma RankedWithin(nodes: set<Node>, some: set<Node>, all: set<Node>, node: Node, rank: map<Node, nat>, top: nat)
    requires Edited(node, null, all) && Ranked(nodes, rank, top) && some == nodes * all
    ensures Ranked(some, rank, top)
  {
    hide Closed, AllLinked, AllRings, ShapedBut;
  }

  /** The links of `ReplaceChild`, and its `delete`. */
  method Exchange(node: Node, kid: Node, replaceThis: Node, ghost k: nat, ghost all: set<Node>, ghost gone: set<Node>)
    returns (ghost freed: seq<Node>)
    requires Forest(all) && node in all && kid in all && kid.parent == null && !kid.kind.DocumentKind?
    requires k < |node.kids| && replaceThis == node.kids[k] && replaceThis in all && replaceThis.parent == node
    requires Closed(all) && AllShaped(all) && gone == Subtree(replaceThis, all) && kid !in gone
    modifies node`firstChild, node`lastChild, node`kids, node.kids`prev, node.kids`next
    modifies kid`parent, kid`prev, kid`next
    ensures node.kids == Spliced(old(node.kids), k, k + 1, [kid]) && Edited(node, null, all - gone)
    ensures node !in gone && gone <= all && Node.Injective(freed) && forall m :: m in freed <==> m in gone
  {
    hide *;
    SubtreeStands(replaceThis, all);
    RelinkOver(node, kid, replaceThis, k, all);
    RestStands(node, replaceThis, gone, all);
    freed := Delete(replaceThis, gone);
  }

  /** `ReplaceChild` on a child at position `k`. */
  method SwapCopy(node: Node, replaceThis: Node, withThis: Node, ghost k: nat, ghost nodes: set<Node>)
    returns (r: Node, ghost after: set<Node>, ghost freed: seq<Node>)
    requires Forest(nodes) && node in nodes && replaceThis in nodes && withThis in nodes && !withThis.kind.DocumentKind?
    requires replaceThis.parent == node && k < |node.kids| && replaceThis == node.kids[k]
    requires Closed(nodes) && AllShaped(nodes) && node.tree.Element? && |node.tree.kids| == |node.kids|
    modifies nodes`firstChild, nodes`lastChild, nodes`kids, nodes`prev, nodes`next, nodes`tree
    ensures Forest(after) && fresh(after - nodes) && fresh(r) && r in after
    ensures node.kids == Spliced(old(node.kids), k, k + 1, [r])
    ensures node.tree == EditTree(old(node.tree), k, k + 1, [old(Copied(withThis.tree))])
    ensures nodes - after == old(Subtree(replaceThis, nodes))
    ensures Node.Injective(freed) && forall m :: m in freed <==> m in nodes - after
    ensures forall m :: m in nodes && m != node ==> m.kids == old(m.kids)
  {
    hide *;
    ghost var rank, top := Ranks(nodes);
    IsKid(replaceThis, node, nodes);
    BeforeEdit(node, nodes);
    ghost var kids, tree := node.kids, node.tree;
    ghost var copied, gone := Copied(withThis.tree), Subtree(replaceThis, nodes);
    ghost var more;
    r, more := Clone(withThis, nodes);
    after := nodes + more - gone;
    InRank(nodes, rank, top);
    freed := PutInPlace(node, r, replaceThis, k, nodes, more, gone, rank, top);
    SplicedTree(node, kids, tree, k, k + 1, [r], [copied]);
  }

  method ReplaceChild(node: Node, replaceThis: Node, withThis: Node, ghost nodes: set<Node>)
    returns (r: Node?, ghost after: set<Node>, ghost freed: seq<Node>)
    requires Forest(nodes) && node in nodes && replaceThis in nodes && withThis in nodes && !withThis.kind.DocumentKind?
    modifies nodes`firstChild, nodes`lastChild, nodes`kids, nodes`prev, nodes`next, nodes`tree
    ensures Forest(after) && fresh(after - nodes)
    ensures r == null <==> replaceThis.parent != node
    ensures r == null ==> unchanged(nodes) && after == nodes && freed == []
    ensures r != null ==>
              && fresh(r) && r in after && replaceThis in old(node.kids)
              && old(node.tree).Element? && |old(node.tree).kids| == |old(node.kids)|
              && var k := Position(old(node.kids), replaceThis);
                 && node.kids == Spliced<Node>(old(node.kids), k, k + 1, [r])
                 && node.tree == EditTree(old(node.tree), k, k + 1, [old(Copied(withThis.tree))])
    ensures r != null ==>
              && nodes - after == old(Subtree(replaceThis, nodes))
              && Node.Injective(freed) && forall m :: m in freed <==> m in nodes - after
    ensures forall m :: m in nodes && m != node ==> m.kids == old(m.kids)
  {
    hide *;
    if replaceThis.parent != node {
      return null, nodes, [];
    }
    IsKid(replaceThis, node, nodes);
    BeforeEdit(node, nodes);
    HeadHolds(node, node.tree);
    StaysShaped(nodes);
    r, after, freed := SwapCopy(node, replaceThis, withThis, Position(node.kids, replaceThis), nodes);
  }

  /** `ReplaceChild` once the copy is made. */
  method PutInPlace(node: Node, kid: Node, replaceThis: Node, ghost k: nat, ghost nodes: set<Node>,
                    ghost more: set<Node>, ghost gone: set<Node>, ghost rank: map<Node, nat>, ghost top: nat)
    returns (ghost freed: seq<Node>)
    requires Forest(nodes) && Forest(more) && nodes !! more && node in nodes && Ranked(nodes, rank, top)
    requires node.kind.ElementKind? || node.kind.DocumentKind?
    requires kid in more && kid.parent == null && !kid.kind.DocumentKind?
    requires k < |node.kids| && replaceThis == node.kids[k] && replaceThis in nodes && replaceThis.parent == node
    requires Closed(nodes) && AllShaped(nodes) && gone == Subtree(replaceThis, nodes)
    modifies node`firstChild, node`lastChild, node`kids, node.kids`prev, node.kids`next
    modifies kid`parent, kid`prev, kid`next, nodes`tree
    ensures node.kids == Spliced(old(node.kids), k, k + 1, [kid])
    ensures Forest(nodes + more - gone) && node.Shaped() && gone <= nodes
    ensures forall m :: m in nodes && m in rank && rank[m] < rank[node] ==> m.tree == old(m.tree)
    ensures Node.Injective(freed) && forall m :: m in freed <==> m in gone
  {
    hide *;
    ForestUnion(nodes, more);
    StaysShaped(nodes + more);
    SubtreeSame(replaceThis, nodes, nodes + more);
    InRank(nodes, rank, top);
    freed := Exchange(node, kid, replaceThis, k, nodes + more, gone);
    ghost var after := nodes + more - gone;
    RankedWithin(nodes, nodes - gone, after, node, rank, top);
    Settle(node, nodes - gone, after, rank, top);
  }

  lemma InRank(nodes: set<Node>, rank: map<Node, nat>, top: nat)
    requires Ranked(nodes, rank, top)
    ensures forall m :: m in nodes ==> m in rank
  {
  }

  /** The links of `RemoveChild`, and its `delete`. */
  method TakeOut(node: Node, removeThis: Node, ghost k: nat, ghost all: set<Node>, ghost gone: set<Node>)
    returns (ghost freed: seq<Node>)
    requires Forest(all) && node in all && removeThis in all && removeThis.parent == node
    requires k < |node.kids| && removeThis == node.kids[k]
    requires Closed(all) && AllShaped(all) && gone == Subtree(removeThis, all)
    modifies node`firstChild, node`lastChild, node`kids, node.kids`prev, node.kids`next
    ensures node.kids == Spliced(old(node.kids), k, k + 1, []) && Edited(node, null, all - gone)
    ensures node !in gone && gone <= all && Node.Injective(freed) && forall m :: m in freed <==> m in gone
  {
    hide *;
    SubtreeStands(removeThis, all);
    RelinkCut(node, removeThis, k, all);
    RestStands(node, removeThis, gone, all);
    freed := Delete(removeThis, gone);
  }

  method RemoveChild(node: Node, removeThis: Node, ghost nodes: set<Node>)
    returns (ok: bool, ghost after: set<Node>, ghost freed: seq<Node>)
    requires Forest(nodes) && node in nodes && removeThis in nodes
    modifies nodes`firstChild, nodes`lastChild, nodes`kids, nodes`prev, nodes`next, nodes`tree
    ensures Forest(after) && after <= nodes
    ensures ok <==> removeThis.parent == node
    ensures !ok ==> unchanged(nodes) && after == nodes && freed == []
    ensures ok ==>
              && removeThis in old(node.kids)
              && old(node.tree).Element? && |old(node.tree).kids| == |old(node.kids)|
              && var k := Position(old(node.kids), removeThis);
                 && node.kids == Spliced(old(node.kids), k, k + 1, [])
                 && node.tree == EditTree(old(node.tree), k, k + 1, [])
    ensures ok ==>
              && nodes - after == old(Subtree(removeThis, nodes))
              && Node.Injective(freed) && forall m :: m in freed <==> m in nodes - after
    ensures forall m :: m in nodes && m != node ==> m.kids == old(m.kids)
  {
    hide *;
    if removeThis.parent != node {
      return false, nodes, [];
    }
    ghost var rank, top := Ranks(nodes);
    IsKid(removeThis, node, nodes);
    BeforeEdit(node, nodes);
    HeadHolds(node, node.tree);
    StaysShaped(nodes);
    ghost var kids, tree, k := node.kids, node.tree, Position(node.kids, removeThis);
    ghost var gone := Subtree(removeThis, nodes);
    freed := TakeOut(node, removeThis, k, nodes, gone);
    after := nodes - gone;
    RankedWithin(nodes, after, after, node, rank, top);
    Settle(node, after, after, rank, top);
    SplicedTree(node, kids, tree, k, k + 1, [], []);
    ok := true;
  }
}
