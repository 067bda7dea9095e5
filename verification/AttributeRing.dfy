/** The attribute list of an element: a circular doubly linked list through a sentinel with empty name and
    value. It is proved to be an insertion-ordered map from names to values. */
module AttributeRing {
  import opened Options
  import opened XmlTree

  // ---------- Insertion-ordered maps ----------

  function IndexOf(s: seq<Attribute>, name: string): (i: nat)
    ensures i <= |s| && (i < |s| ==> s[i].name == name)
    ensures forall j :: 0 <= j < i ==> s[j].name != name
    ensures i < |s| <==> HasName(s, name)
  {
    if s == [] || s[0].name == name then 0 else
      var i := IndexOf(s[1..], name) + 1;
      assert forall j :: 1 <= j < i ==> s[j] == s[1..][j - 1];
      i
  }

  /** The value of the attribute with this name is replaced, or the attribute is added at the end. */
  function Put(s: seq<Attribute>, name: string, value: string): seq<Attribute> {
    var i := IndexOf(s, name);
    if i < |s| then s[i := Attribute(name, value)] else s + [Attribute(name, value)]
  }

  function Without(s: seq<Attribute>, name: string): seq<Attribute> {
    var i := IndexOf(s, name);
    if i < |s| then s[..i] + s[i + 1..] else s
  }

  function Lookup(s: seq<Attribute>, name: string): Option<string> {
    var i := IndexOf(s, name);
    if i < |s| then Some(s[i].value) else None
  }

  lemma IndexIs(s: seq<Attribute>, name: string, i: nat)
    requires i <= |s| && (i < |s| ==> s[i].name == name)
    requires forall j :: 0 <= j < i ==> s[j].name != name
    ensures IndexOf(s, name) == i
  {
  }

  /** Setting an attribute is what a map update is, and keeps the order of the other names. */
  lemma PutIsUpdate(s: seq<Attribute>, name: string, value: string)
    requires DistinctNames(s)
    ensures DistinctNames(Put(s, name, value))
    ensures forall other :: Lookup(Put(s, name, value), other)
                         == if other == name then Some(value) else Lookup(s, other)
  {
    var i := IndexOf(s, name);
    var t := Put(s, name, value);
    forall other
      ensures Lookup(t, other) == if other == name then Some(value) else Lookup(s, other)
    {
      var k := if other == name then i else IndexOf(s, other);
      IndexIs(t, other, if k < |s| || other == name then k else |t|);
    }
  }

  /** Removing an attribute removes exactly that name. */
  lemma WithoutIsRemoval(s: seq<Attribute>, name: string)
    requires DistinctNames(s)
    ensures DistinctNames(Without(s, name))
    ensures forall other :: Lookup(Without(s, name), other)
                         == if other == name then None else Lookup(s, other)
  {
    var i := IndexOf(s, name);
    var t := Without(s, name);
    forall other
      ensures Lookup(t, other) == if other == name then None else Lookup(s, other)
    {
      var k := IndexOf(s, other);
      IndexIs(t, other, if other == name || k == |s| then |t| else if k < i then k else k - 1);
    }
  }

  // ---------- Walking with First and Next ----------

  /** `TiXmlAttribute::Next` takes any attribute without name and value for the sentinel. */
  predicate LooksLikeSentinel(a: Attribute) {
    a.name == "" && a.value == ""
  }

  function NextRun(s: seq<Attribute>): (r: seq<Attribute>)
  {
    if s == [] || LooksLikeSentinel(s[0]) then [] else [s[0]] + NextRun(s[1..])
  }

  /** What a walk with `First` and `Next` visits: the first attribute always, then up to one that looks like
      the sentinel. */
  function Visited(s: seq<Attribute>): seq<Attribute> {
    if s == [] then [] else [s[0]] + NextRun(s[1..])
  }

  lemma {:induction false} NextRunStops(s: seq<Attribute>, k: nat)
    requires k <= |s| && (k < |s| ==> LooksLikeSentinel(s[k]))
    requires forall i :: 0 <= i < k ==> !LooksLikeSentinel(s[i])
    ensures NextRun(s) == s[..k]
  {
    if k > 0 {
      NextRunStops(s[1..], k - 1);
    }
  }

  lemma {:induction false} NextRunAvoids(s: seq<Attribute>)
    ensures |NextRun(s)| <= |s| && forall i :: 0 <= i < |NextRun(s)| ==> !LooksLikeSentinel(NextRun(s)[i])
  {
    if s != [] {
      NextRunAvoids(s[1..]);
    }
  }

  /** The walk visits every attribute exactly if none after the first is without name and value. */
  lemma WalkIsCompleteExactly(s: seq<Attribute>)
    ensures Visited(s) == s <==> forall i :: 1 <= i < |s| ==> !LooksLikeSentinel(s[i])
  {
    if s != [] {
      NextRunAvoids(s[1..]);
      if forall i :: 1 <= i < |s| ==> !LooksLikeSentinel(s[i]) {
        NextRunStops(s[1..], |s| - 1);
      } else {
        assert Visited(s)[1..] == NextRun(s[1..]);
      }
    }
  }

  class AttributeNode {
    var name: string
    var value: string
    var prev: AttributeNode?
    var next: AttributeNode?
    ghost var owner: AttributeSet?

    constructor (name: string, value: string)
      ensures this.name == name && this.value == value
      ensures prev == null && next == null && owner == null
    {
      this.name, this.value := name, value;
      prev, next, owner := null, null, null;
    }
  }

  class AttributeSet {
    const sentinel: AttributeNode
    ghost var ring: seq<AttributeNode>  // the sentinel, then the attributes in order
    ghost var contents: seq<Attribute>  // the attributes' names and values

    /** The links run forwards and backwards around the ring. */
    ghost predicate Linked()
      reads this`ring, ring
    {
      && ring != [] && ring[0] == sentinel
      && (forall i :: 0 <= i < |ring| - 1 ==> ring[i].next == ring[i + 1] && ring[i + 1].prev == ring[i])
      && ring[|ring| - 1].next == sentinel && sentinel.prev == ring[|ring| - 1]
      && Distinct(ring)
      && (forall i :: 0 <= i < |ring| ==> ring[i].owner == this)
    }

    ghost predicate Holds()
      reads this, ring, sentinel
    {
      && sentinel.name == "" && sentinel.value == ""
      && |ring| == |contents| + 1
      && (forall i :: 0 <= i < |contents| ==>
            contents[i].name == ring[i + 1].name && contents[i].value == ring[i + 1].value)
    }

    ghost predicate Valid()
      reads this, ring, sentinel
    {
      Linked() && Holds() && DistinctNames(contents)
    }

    constructor ()
      ensures Valid() && contents == [] && fresh(sentinel)
    {
      var s := new AttributeNode("", "");
      sentinel := s;
      ring, contents := [s], [];
      new;
      s.next, s.prev, s.owner := s, s, this;
    }

    method First() returns (a: AttributeNode?)
      requires Valid()
      ensures a == if contents == [] then null else ring[1]
    {
      a := if sentinel.next == sentinel then null else sentinel.next;
    }

    method Last() returns (a: AttributeNode?)
      requires Valid()
      ensures a == if contents == [] then null else ring[|contents|]
    {
      a := if sentinel.prev == sentinel then null else sentinel.prev;
    }

    method Find(name: string) returns (a: AttributeNode?)
      requires Valid()
      ensures var i := IndexOf(contents, name); a == if i < |contents| then ring[i + 1] else null
    {
      a := sentinel.next;
      ghost var i := 0;
      while a != sentinel
        invariant 0 <= i <= |contents| && a == if i < |contents| then ring[i + 1] else sentinel
        invariant forall j :: 0 <= j < i ==> contents[j].name != name
        decreases |contents| - i
      {
        if a.name == name {
          IndexIs(contents, name, i);
          return;
        }
        assert a.next == if i + 1 < |contents| then ring[i + 2] else sentinel;
        a, i := a.next, i + 1;
      }
      IndexIs(contents, name, i);
      a := null;
    }

    /** The links of `Add`. */
    method LinkBeforeSentinel(addMe: AttributeNode)
      requires Linked() && addMe.owner == null
      modifies this`ring, addMe`prev, addMe`next, addMe`owner, sentinel`prev, ring`next
      ensures Linked() && ring == old(ring) + [addMe]
    {
      addMe.next := sentinel;
      addMe.prev := sentinel.prev;
      sentinel.prev.next := addMe;
      sentinel.prev := addMe;
      addMe.owner := this;
      ring := ring + [addMe];
    }

    method Add(addMe: AttributeNode)
      requires Valid() && addMe.owner == null && !HasName(contents, addMe.name)
      modifies this`ring, this`contents, addMe`prev, addMe`next, addMe`owner, sentinel`prev, ring`next
      ensures Valid() && ring == old(ring) + [addMe]
      ensures contents == old(contents) + [Attribute(addMe.name, addMe.value)]
    {
      LinkBeforeSentinel(addMe);
      contents := contents + [Attribute(addMe.name, addMe.value)];
    }

    /** `TiXmlAttribute::Next`. */
    method Next(a: AttributeNode, ghost i: nat) returns (n: AttributeNode?)
      requires Valid() && i < |contents| && a == ring[i + 1]
      ensures n == if i + 1 == |contents| || LooksLikeSentinel(contents[i + 1]) then null else ring[i + 2]
    {
      n := a.next;
      assert n == if i + 1 < |contents| then ring[i + 2] else sentinel;
      if n.value == "" && n.name == "" {
        n := null;
      }
    }

    /** What a walk that stands at item `i` is still going to visit. */
    ghost function Ahead(a: AttributeNode?, i: nat): seq<Attribute>
      reads this
      requires a != null ==> i < |contents|
    {
      if a == null then [] else [contents[i]] + NextRun(contents[i + 1..])
    }

    /** The walk that printing and copying use: `for (a = First(); a; a = a->Next())`. */
    method Walk() returns (visited: seq<Attribute>)
      requires Valid()
      ensures visited == Visited(contents)
    {
      hide NextRun, Visited, Linked, DistinctNames, LooksLikeSentinel, Ahead;
      visited := [];
      var a := First();
      ghost var i := 0;
      AheadStarts(this, a);
      while a != null
        invariant a != null ==> i < |contents| && a == ring[i + 1]
        invariant visited + Ahead(a, i) == Visited(contents)
        decreases if a == null then 0 else |contents| - i
      {
        ghost var ahead := Ahead(a, i);
        AheadIs(this, a, i);
        assert visited + ahead == visited + [ahead[0]] + ahead[1..];
        visited := visited + [Attribute(a.name, a.value)];
        a := Next(a, i);
        i := i + 1;
        AheadGoesOn(this, a, i);
      }
      NothingAhead(this, i);
      assert visited + [] == visited;
    }

    /** The links of `Remove`. */
    method Unlink(node: AttributeNode, ghost k: nat)
      requires Linked() && 1 <= k < |ring| && node == ring[k]
      modifies this`ring, ring`prev, ring`next, node`owner
      ensures Linked() && ring == old(ring[..k] + ring[k + 1..])
      ensures node.next == null && node.prev == null && node.owner == null
    {
      ghost var was := ring;
      assert was[k - 1].next == node && node.prev == was[k - 1];
      assert node.next == if k + 1 < |was| then was[k + 1] else sentinel;
      Differs(was, k - 1);
      Differs(was, k);
      Differs(was, if k + 1 < |was| then k + 1 else 0);
      CutIsDistinct(was, k);
      hide Distinct;
      node.prev.next := node.next;
      node.next.prev := node.prev;
      node.next := null;
      node.prev := null;
      node.owner := null;
      ring := was[..k] + was[k + 1..];
      forall i | 0 <= i < |ring| - 1 ensures ring[i].next == ring[i + 1] && ring[i + 1].prev == ring[i] {
        if i < k - 1 {
          assert was[i].next == was[i + 1];
        } else if i >= k {
          assert was[i + 1].next == was[i + 2];
        }
      }
    }

    static ghost predicate Distinct(s: seq<AttributeNode>) {
      forall i, j :: 0 <= i < j < |s| ==> s[i] != s[j]
    }

    static lemma CutIsDistinct(s: seq<AttributeNode>, k: nat)
      requires k < |s| && Distinct(s)
      ensures var t := s[..k] + s[k + 1..];
              && Distinct(t) && |t| == |s| - 1
              && (forall i :: 0 <= i < k ==> t[i] == s[i])
              && (forall i :: k <= i < |t| ==> t[i] == s[i + 1])
    {
    }

    static lemma Differs(s: seq<AttributeNode>, k: nat)
      requires Distinct(s) && k < |s|
      ensures forall i :: 0 <= i < |s| && i != k ==> s[i] != s[k]
    {
    }

    method Remove(removeMe: AttributeNode, ghost k: nat)
      requires Valid() && k < |contents| && removeMe == ring[k + 1]
      modifies this`ring, this`contents, ring`prev, ring`next, removeMe`owner
      ensures Valid() && ring == old(ring[..k + 1] + ring[k + 2..])
      ensures contents == old(contents[..k] + contents[k + 1..])
      ensures removeMe.next == null && removeMe.prev == null && removeMe.owner == null
    {
      FindNode(removeMe, k);
      ghost var was, all := ring, contents;
      DistinctCut(all, k);
      hide Linked, DistinctNames;
      Unlink(removeMe, k + 1);
      CutHolds(was, all, k);
      contents := all[..k] + all[k + 1..];
    }

    lemma CutHolds(was: seq<AttributeNode>, all: seq<Attribute>, k: nat)
      requires |was| == |all| + 1 && k < |all| && ring == was[..k + 1] + was[k + 2..]
      requires forall i :: 0 <= i < |all| ==> all[i].name == was[i + 1].name && all[i].value == was[i + 1].value
      ensures var cut := all[..k] + all[k + 1..];
              && |ring| == |cut| + 1
              && forall i :: 0 <= i < |cut| ==> cut[i].name == ring[i + 1].name && cut[i].value == ring[i + 1].value
    {
      var cut := all[..k] + all[k + 1..];
      forall i | 0 <= i < |cut| ensures cut[i].name == ring[i + 1].name && cut[i].value == ring[i + 1].value {
        var j := if i < k then i else i + 1;
        assert cut[i] == all[j] && ring[i + 1] == was[j + 1];
      }
    }

    /** The search loop of `Remove`: it ends at the node, not at the sentinel. */
    method FindNode(removeMe: AttributeNode, ghost k: nat)
      requires Linked() && 1 <= k + 1 < |ring| && removeMe == ring[k + 1]
    {
      var node := sentinel.next;
      ghost var i := 0;
      while node != sentinel && node != removeMe
        invariant 0 <= i <= k && node == ring[i + 1]
        decreases k - i
      {
        assert node.next == ring[i + 2];
        node, i := node.next, i + 1;
      }
      assert node == removeMe;
    }

    /** `TiXmlElement::SetAttribute`. */
    method SetAttribute(name: string, value: string)
      requires Valid()
      modifies this`ring, this`contents, ring`next, ring`value, sentinel`prev
      ensures Valid() && contents == Put(old(contents), name, value)
      ensures ring == old(ring) || (ring[..|ring| - 1] == old(ring) && fresh(ring[|ring| - 1]))
    {
      var node := Find(name);
      if node != null {
        SetValue(node, value, IndexOf(contents, name));
      } else {
        var attribute := new AttributeNode(name, value);
        Add(attribute);
      }
    }

    /** `TiXmlAttribute::SetValue` on an attribute of this set. */
    method SetValue(node: AttributeNode, value: string, ghost k: nat)
      requires Valid() && k < |contents| && node == ring[k + 1]
      modifies this`contents, node`value
      ensures Valid() && contents == old(contents)[k := Attribute(node.name, value)]
    {
      assert contents[k].name == node.name;
      DistinctUpdate(contents, k, value);
      node.value := value;
      contents := contents[k := Attribute(node.name, value)];
    }

    /** `TiXmlElement::RemoveAttribute`. */
    method RemoveAttribute(name: string)
      requires Valid()
      modifies this`ring, this`contents, ring`prev, ring`next, ring`owner
      ensures Valid() && contents == Without(old(contents), name)
    {
      var node := Find(name);
      if node != null {
        Remove(node, IndexOf(contents, name));
      }
    }
  }

  lemma AheadStarts(attributes: AttributeSet, a: AttributeNode?)
    requires attributes.Valid() && a == if attributes.contents == [] then null else attributes.ring[1]
    ensures a != null <==> attributes.contents != []
    ensures attributes.Ahead(a, 0) == Visited(attributes.contents)
  {
  }

  lemma AheadIs(attributes: AttributeSet, a: AttributeNode, i: nat)
    requires attributes.Valid() && i < |attributes.contents| && a == attributes.ring[i + 1]
    ensures var ahead := attributes.Ahead(a, i);
            && ahead != [] && ahead[0] == Attribute(a.name, a.value)
            && ahead[1..] == NextRun(attributes.contents[i + 1..])
  {
    hide NextRun, AttributeSet.Linked;
  }

  lemma AheadGoesOn(attributes: AttributeSet, a: AttributeNode?, i: nat)
    requires attributes.Valid() && 1 <= i <= |attributes.contents|
    requires a == if i == |attributes.contents| || LooksLikeSentinel(attributes.contents[i]) then null
                  else attributes.ring[i + 1]
    ensures a != null ==> i < |attributes.contents|
    ensures attributes.Ahead(a, i) == NextRun(attributes.contents[i..])
  {
    AheadMoves(attributes.contents, i - 1);
    hide NextRun, AttributeSet.Linked, LooksLikeSentinel;
  }

  lemma NothingAhead(attributes: AttributeSet, i: nat)
    ensures attributes.Ahead(null, i) == []
  {
  }

  lemma AheadMoves(s: seq<Attribute>, i: nat)
    requires i < |s|
    ensures NextRun(s[i + 1..])
         == if i + 1 == |s| || LooksLikeSentinel(s[i + 1]) then [] else [s[i + 1]] + NextRun(s[i + 2..])
  {
    assert s[i + 1..] != [] ==> s[i + 1..][1..] == s[i + 2..];
  }

  lemma DistinctCut(s: seq<Attribute>, k: nat)
    requires k < |s| && DistinctNames(s)
    ensures DistinctNames(s[..k] + s[k + 1..])
  {
  }

  lemma DistinctUpdate(s: seq<Attribute>, k: nat, value: string)
    requires k < |s| && DistinctNames(s)
    ensures DistinctNames(s[k := Attribute(s[k].name, value)])
  {
  }
}
