/** Trees of cJSON nodes: which nodes make one up, and what it holds. */
module CJsonShapes {
  import opened CJsonTree
  import opened CJsonNodes

  /** The nodes of a tree, by position. Any node whose `next` and `child` links end unfolds to one; two positions may hold
      the same node, as below a reference. */
  datatype Shape = Shape(node: Node, kids: seq<Shape>)

  ghost function Roots(kids: seq<Shape>): (s: seq<Node>)
    ensures |s| == |kids| && forall i | 0 <= i < |s| :: s[i] == kids[i].node
  {
    seq(|kids|, i requires 0 <= i < |kids| => kids[i].node)
  }

  ghost function Nodes(sh: Shape): (r: set<Node>)
    ensures sh.node in r
  {
    {sh.node} + NodesOf(sh.kids)
  }

  ghost function NodesOf(kids: seq<Shape>): (r: set<Node>)
    ensures forall i | 0 <= i < |kids| :: Nodes(kids[i]) <= r && kids[i].node in r
  {
    var r := set i, n | 0 <= i < |kids| && n in Nodes(kids[i]) :: n;
    assert forall i, n | 0 <= i < |kids| && n in Nodes(kids[i]) :: n in r;
    r
  }

  /** Following `child` and then `next` from each node leads through its children and ends. */
  ghost predicate Unfolds(sh: Shape)
    reads sh.node`child, NodesOf(sh.kids)
    decreases sh
  {
    Chain(sh.node.child, Roots(sh.kids)) && AllUnfold(sh.kids)
  }

  ghost predicate AllUnfold(kids: seq<Shape>)
    reads NodesOf(kids)
    decreases kids
  {
    forall i | 0 <= i < |kids| :: Unfolds(kids[i])
  }

  /** A proper tree: the links are right in both directions, and no node is at two places. Siblings of the root are not
      looked at. */
  ghost predicate Owned(sh: Shape)
    reads sh.node`child, NodesOf(sh.kids)
    decreases sh
  {
    Children(sh.node, Roots(sh.kids)) && sh.node !in NodesOf(sh.kids) && AllOwned(sh.kids) && Apart(sh.kids)
  }

  ghost predicate AllOwned(kids: seq<Shape>)
    reads NodesOf(kids)
    decreases kids
  {
    forall i | 0 <= i < |kids| :: Owned(kids[i])
  }

  ghost predicate Apart(kids: seq<Shape>) {
    forall i, j | 0 <= i < j < |kids| :: Nodes(kids[i]) !! Nodes(kids[j])
  }

  ghost function Content(sh: Shape): Tree
    reads sh.node`kind, sh.node`stringIsConst, sh.node`valueint, sh.node`valuedouble, sh.node`valuestring, sh.node`name,
          NodesOf(sh.kids)
    decreases sh
  {
    var n := sh.node;
    Tree(n.kind, n.stringIsConst, n.valueint, n.valuedouble, n.valuestring, n.name, Contents(sh.kids))
  }

  ghost function Contents(kids: seq<Shape>): (r: seq<Tree>)
    reads NodesOf(kids)
    decreases kids
    ensures |r| == |kids|
  {
    seq(|kids|, i requires 0 <= i < |kids| reads NodesOf(kids) => Content(kids[i]))
  }

  lemma RootsDistinct(kids: seq<Shape>)
    requires Apart(kids)
    ensures Distinct(Roots(kids)) && forall n | n in Roots(kids) :: n in NodesOf(kids)
  {
  }

  lemma OwnedAt(kids: seq<Shape>, i: nat)
    requires AllOwned(kids) && i < |kids|
    ensures Owned(kids[i])
  {
    hide Owned;
  }

  lemma RootNotBelow(sh: Shape)
    requires Owned(sh)
    ensures sh.node !in NodesOf(sh.kids)
  {
    hide AllOwned, Chain, BackLinks, Nodes, NodesOf, Apart;
  }

  lemma BelowIsInside(sh: Shape)
    ensures NodesOf(sh.kids) <= Nodes(sh)
  {
    hide NodesOf;
  }

  /** A proper tree unfolds. */
  lemma {:induction false} OwnedUnfolds(sh: Shape)
    requires Owned(sh)
    ensures Unfolds(sh)
    decreases sh
  {
    hide Nodes, NodesOf, Apart, Chain, BackLinks, Distinct;
    forall i | 0 <= i < |sh.kids| ensures Unfolds(sh.kids[i]) {
      OwnedUnfolds(sh.kids[i]);
    }
  }

  /** What is known of a child when a walk along the list reaches it. */
  lemma UnfoldedKid(sh: Shape, k: nat)
    requires Unfolds(sh) && k < |sh.kids|
    ensures Unfolds(sh.kids[k]) && Nodes(sh.kids[k]) <= Nodes(sh)
    ensures Content(sh.kids[k]) == Contents(sh.kids)[k]
    ensures sh.kids[k].node.next == NodeAt(Roots(sh.kids), k + 1)
  {
  }

  lemma UnfoldedList(sh: Shape)
    requires Unfolds(sh)
    ensures sh.node.child == NodeAt(Roots(sh.kids), 0)
  {
  }

  /** A node unfolds to one shape only. */
  lemma {:induction false} UnfoldsOnce(s: Shape, t: Shape)
    requires Unfolds(s) && Unfolds(t) && s.node == t.node
    ensures s == t
    decreases s
  {
    hide Nodes, NodesOf, Chain;
    ChainUnique(s.node.child, Roots(s.kids), Roots(t.kids));
    forall i | 0 <= i < |s.kids| ensures s.kids[i] == t.kids[i] {
      assert Roots(s.kids)[i] == Roots(t.kids)[i];
      UnfoldsOnce(s.kids[i], t.kids[i]);
    }
  }
}
