/** Lists of trees that grow at the end, as the parser and the copy build them (cJSON.c:1476-1526, 1634-1700, 2751-2776):
    every new node is linked behind the last, and in the end the first one's `prev` is set to the last. */
module CJsonLinking {
  import opened CJsonTree
  import opened CJsonNodes
  import opened CJsonShapes

  /** How many allocations a tree takes: the node, and a string for each that it does not share. */
  function Cost(t: Tree): (r: nat)
    ensures r >= 1
  {
    OwnCost(t) + CostOf(t.kids)
  }

  function OwnCost(t: Tree): (r: nat)
    ensures r >= 1
  {
    1 + (if t.valuestring.Some? then 1 else 0) + (if t.name.Some? && !t.stringIsConst then 1 else 0)
  }

  function CostOf(kids: seq<Tree>): nat {
    if kids == [] then 0 else CostOf(kids[..|kids| - 1]) + Cost(kids[|kids| - 1])
  }

  lemma CostAppend(kids: seq<Tree>, t: Tree)
    ensures CostOf(kids + [t]) == CostOf(kids) + Cost(t)
  {
    assert (kids + [t])[..|kids|] == kids;
  }

  lemma {:induction false} CostPrefix(kids: seq<Tree>, k: nat)
    requires k <= |kids|
    ensures CostOf(kids[..k]) <= CostOf(kids)
    ensures k < |kids| ==> CostOf(kids[..k + 1]) == CostOf(kids[..k]) + Cost(kids[k])
    decreases |kids| - k
  {
    hide Cost;
    if k < |kids| {
      assert kids[..k + 1] == kids[..k] + [kids[k]];
      CostAppend(kids[..k], kids[k]);
      CostPrefix(kids, k + 1);
    } else {
      assert kids[..k] == kids;
    }
  }

  // The list.

  /** The first one's `prev` is still open. */
  ghost predicate BackLinksOpen(s: seq<Node>)
    reads s`prev
  {
    forall i | 0 < i < |s| :: s[i].prev == Before(s, i)
  }

  /** A list of proper trees, apart from each other. */
  ghost predicate Growing(head: Node?, kids: seq<Shape>)
    reads Roots(kids)`next, Roots(kids)`prev, NodesOf(kids)
  {
    Chain(head, Roots(kids)) && BackLinksOpen(Roots(kids)) && AllOwned(kids) && Apart(kids)
  }

  lemma ApartAt(kids: seq<Shape>, r: nat, i: nat)
    requires Apart(kids) && r < |kids| && i < |kids| && r != i
    ensures Nodes(kids[r]) !! Nodes(kids[i])
  {
    hide Nodes;
  }

  /** No root lies below a root. */
  lemma RootsNotBelow(kids: seq<Shape>, r: nat, i: nat)
    requires AllOwned(kids) && Apart(kids) && r < |kids| && i < |kids|
    ensures kids[r].node !in NodesOf(kids[i].kids)
  {
    hide *;
    if r == i {
      OwnedAt(kids, i);
      RootNotBelow(kids[i]);
    } else {
      ApartAt(kids, r, i);
      BelowIsInside(kids[i]);
    }
  }

  lemma NodesOfMember(kids: seq<Shape>, n: Node)
    ensures n in NodesOf(kids) <==> exists i :: 0 <= i < |kids| && n in Nodes(kids[i])
  {
    hide Nodes;
  }

  lemma AppendNodes(kids: seq<Shape>, kid: Shape)
    ensures NodesOf(kids + [kid]) == NodesOf(kids) + Nodes(kid)
    ensures Roots(kids + [kid]) == Roots(kids) + [kid.node]
  {
    hide Nodes, NodesOf;
    var all := kids + [kid];
    assert all[|kids|] == kid && forall i | 0 <= i < |kids| :: all[i] == kids[i];
    forall n | n in NodesOf(all) ensures n in NodesOf(kids) + Nodes(kid) {
      NodesOfMember(all, n);
      NodesOfMember(kids, n);
    }
    forall n | n in NodesOf(kids) + Nodes(kid) ensures n in NodesOf(all) {
      NodesOfMember(all, n);
      NodesOfMember(kids, n);
    }
  }

  lemma AppendApart(kids: seq<Shape>, kid: Shape)
    requires Apart(kids) && NodesOf(kids) !! Nodes(kid)
    ensures Apart(kids + [kid])
  {
    hide Nodes, NodesOf;
  }

  lemma AppendOwned(kids: seq<Shape>, kid: Shape)
    requires AllOwned(kids) && Owned(kid)
    ensures AllOwned(kids + [kid])
  {
    hide Owned;
  }

  lemma ChainAppendedOpen(s: seq<Node>, x: Node)
    requires Distinct(s) && x.next == null
    requires s != [] ==> ChainBut(s, {s[|s| - 1]}) && s[|s| - 1].next == x
    ensures Chain(if s == [] then x else s[0], s + [x])
  {
    if s != [] {
      ChainAppended(s, x);
    }
  }

  lemma BackLinksAppendedOpen(s: seq<Node>, x: Node)
    requires BackLinksOpen(s) && (s != [] ==> x.prev == s[|s| - 1])
    ensures BackLinksOpen(s + [x])
  {
    var t := s + [x];
    forall i | 0 < i < |t| ensures t[i].prev == Before(t, i) {
      assert i < |s| ==> t[i] == s[i] && s[i].prev == Before(s, i);
    }
  }

  lemma AllOwnedIff(kids: seq<Shape>)
    requires forall i | 0 <= i < |kids| :: Owned(kids[i])
    ensures AllOwned(kids)
  {
    hide Owned;
  }

  lemma AppendContents(kids: seq<Shape>, kid: Shape)
    ensures Contents(kids + [kid]) == Contents(kids) + [Content(kid)]
  {
    hide Content;
  }

  twostate lemma SameContents(kids: seq<Shape>)
    requires forall i | 0 <= i < |kids| :: Content(kids[i]) == old(Content(kids[i]))
    ensures Contents(kids) == old(Contents(kids))
  {
    hide Content;
  }

  lemma GrowingHead(head: Node?, kids: seq<Shape>)
    requires Growing(head, kids)
    ensures head == NodeAt(Roots(kids), 0) && ChainBut(Roots(kids), {})
  {
  }

  /** A new last element. */
  method AttachItem(head: Node?, current: Node?, newItem: Node, ghost kids: seq<Shape>, ghost kid: Shape)
    returns (newHead: Node?)
    requires Growing(head, kids) && Owned(kid) && NodesOf(kids) !! Nodes(kid)
    requires kid.node == newItem && newItem.next == null
    requires current == if kids == [] then null else kids[|kids| - 1].node
    modifies NodesIn(current)`next, newItem`prev
    ensures Growing(newHead, kids + [kid]) && newHead == if kids == [] then newItem else head
    ensures Contents(kids + [kid]) == old(Contents(kids) + [Content(kid)])
  {
    hide Chain, BackLinksOpen, Owned, AllOwned, Content, Contents, Nodes, NodesOf, Apart, Unfolds, Roots;
    ghost var all := kids + [kid];
    AppendNodes(kids, kid);
    AppendApart(kids, kid);
    ghost var roots := Roots(kids);
    RootsDistinct(kids);
    GrowingHead(head, kids);
    AppendOwned(kids, kid);
    AppendContents(kids, kid);
    forall i | 0 <= i < |all|
      ensures Owned(all[i]) && newItem !in NodesOf(all[i].kids)
      ensures current != null ==> current !in NodesOf(all[i].kids)
    {
      OwnedAt(all, i);
      RootsNotBelow(all, |kids|, i);
      if current != null {
        RootsNotBelow(all, |kids| - 1, i);
      }
    }
    newHead := head;
    if current != null {
      current.next := newItem;
      newItem.prev := current;
    } else {
      newHead := newItem;
    }
    ChainAppendedOpen(roots, newItem);
    BackLinksAppendedOpen(roots, newItem);
    forall i | 0 <= i < |all| ensures Owned(all[i]) && Content(all[i]) == old(Content(all[i])) {
      assert old(Owned(all[i]));
    }
    AllOwnedIff(all);
    SameContents(all);
  }

  lemma BackLinksClosed(s: seq<Node>)
    requires s != [] && BackLinksOpen(s) && s[0].prev == s[|s| - 1]
    ensures BackLinks(s)
  {
    assert forall i | 0 < i < |s| :: s[i].prev == Before(s, i);
  }

  lemma OpenIsBut(s: seq<Node>)
    requires s != [] && Distinct(s)
    ensures BackLinksOpen(s) <==> BackLinksBut(s, {s[0]})
  {
  }

  /** At the end: the first one's `prev` is the last. With the head as its child, a node owns the list. */
  method CloseList(head: Node?, current: Node?, ghost kids: seq<Shape>)
    requires Growing(head, kids) && current == if kids == [] then null else kids[|kids| - 1].node
    modifies NodesOf(kids)`prev
    ensures Chain(head, Roots(kids)) && BackLinks(Roots(kids)) && Distinct(Roots(kids)) && AllOwned(kids) && Apart(kids)
    ensures Contents(kids) == old(Contents(kids))
  {
    hide Chain, BackLinksOpen, BackLinks, Owned, AllOwned, Content, Contents, Nodes, NodesOf, Apart;
    GrowingHead(head, kids);
    RootsDistinct(kids);
    if head != null {
      ghost var s := Roots(kids);
      forall i | 0 <= i < |kids| ensures Owned(kids[i]) && kids[0].node !in NodesOf(kids[i].kids) {
        OwnedAt(kids, i);
        RootsNotBelow(kids, 0, i);
      }
      OpenIsBut(s);
      head.prev := current;
      OpenIsBut(s);
      forall i | 0 <= i < |kids| ensures Owned(kids[i]) && Content(kids[i]) == old(Content(kids[i])) {
        assert old(Owned(kids[i]));
      }
      AllOwnedIff(kids);
      SameContents(kids);
      BackLinksClosed(s);
    } else {
      NoBackLinks();
    }
  }

  lemma NoBackLinks()
    ensures BackLinks([])
  {
  }

  /** The parent of a closed list. */
  lemma OwnedParts(parent: Node, kids: seq<Shape>)
    requires Chain(parent.child, Roots(kids)) && BackLinks(Roots(kids)) && Distinct(Roots(kids))
    requires AllOwned(kids) && Apart(kids) && parent !in NodesOf(kids)
    ensures Owned(Shape(parent, kids))
  {
    hide Chain, BackLinks, AllOwned, NodesOf, Distinct;
    RootsDistinct(kids);
  }

  lemma NoKids(n: Node)
    ensures Growing(null, []) && NodesOf([]) == {} && Nodes(Shape(n, [])) == {n} && Contents([]) == [] && CostOf([]) == 0
    ensures n.child == null ==> Owned(Shape(n, []))
  {
  }

  lemma WholeTree(n: Node, kids: seq<Shape>)
    ensures Content(Shape(n, kids)) == Content(Shape(n, [])).(kids := Contents(kids))
    ensures Nodes(Shape(n, kids)) == {n} + NodesOf(kids)
  {
    hide Contents, NodesOf;
  }
}
