/** Copying a tree of nodes (cJSON.c:2706-2787). */
module CJsonDuplicate {
  import opened CJsonTree
  import opened CJsonNodes
  import opened CJsonShapes
  import opened CJsonLinking

  /** The first half of `cJSON_Duplicate`: a node with the same values, no children, and no place among siblings. */
  method CopyNode(item: Node, allocations: nat, ghost sh: Shape) returns (newitem: Node?, left: nat)
    requires sh.node == item
    ensures newitem != null <==> allocations >= OwnCost(old(Content(sh)))
    ensures newitem != null ==>
              && fresh(newitem) && left == allocations - OwnCost(old(Content(sh)))
              && newitem.child == null && newitem.next == null && newitem.prev == null && !newitem.isReference
              && Content(Shape(newitem, [])) == old(Content(sh)).(kids := [])
    ensures left <= allocations
  {
    hide Contents, NodesOf;
    NoContents();
    left := allocations;
    if left == 0 {
      return null, left;
    }
    newitem := new Node();
    left := left - 1;
    newitem.kind, newitem.isReference, newitem.stringIsConst := item.kind, false, item.stringIsConst;
    newitem.valueint, newitem.valuedouble := item.valueint, item.valuedouble;
    if item.valuestring.Some? {
      if left == 0 {
        return null, left;
      }
      left := left - 1;
      newitem.valuestring := item.valuestring;
    }
    if item.name.Some? {
      if !item.stringIsConst {
        if left == 0 {
          return null, left;
        }
        left := left - 1;
      }
      newitem.name := item.name;
    }
    NoContents();
  }

  lemma NoContents()
    ensures Contents([]) == []
  {
  }

  /** Its second half: the children are copied one after the other and linked as they come. */
  method CopyChildren(item: Node, newitem: Node, allocations: nat, ghost sh: Shape, ghost space: set<Node>)
    returns (ok: bool, left: nat, ghost kids: seq<Shape>, ghost below: set<Node>)
    requires sh.node == item && Unfolds(sh) && Nodes(sh) <= space && newitem !in space && newitem.child == null
    modifies newitem`child
    ensures ok <==> allocations >= CostOf(old(Contents(sh.kids)))
    ensures ok ==>
              && Owned(Shape(newitem, kids)) && NodesOf(kids) == below && fresh(below)
              && Contents(kids) == old(Contents(sh.kids)) && left == allocations - CostOf(Contents(kids))
    decreases sh, 0
  {
    hide Chain, BackLinksOpen, AllOwned, Contents, Nodes, NodesOf, Apart, AllUnfold, CostOf, Growing, Owned, Content;
    hide Unfolds, Cost, OwnCost, BackLinks, Distinct, Children, Roots, BackLinksOpen;
    left, kids, below := allocations, [], {};
    NoKids(newitem);
    UnfoldedList(sh);
    BelowIsInside(sh);
    var child := item.child;
    var next: Node? := null;
    var newchild: Node? := null;
    ghost var source := Contents(sh.kids);
    ghost var k := 0;
    while child != null
      invariant k <= |sh.kids| && child == NodeAt(Roots(sh.kids), k) && |kids| == k
      invariant Unfolds(sh) && Contents(sh.kids) == source && Contents(kids) == source[..k]
      invariant Growing(newitem.child, kids) && NodesOf(kids) == below && fresh(below) && newitem !in below
      invariant left == allocations - CostOf(source[..k])
      invariant newchild == next == if k == 0 then null else kids[k - 1].node
      decreases |sh.kids| - k
    {
      UnfoldedKid(sh, k);
      CostPrefix(source, k);
      newchild, left, kids, below := CopyChild(child, newitem, next, left, kids, below, sh.kids[k], space);
      if newchild == null {
        CostPrefix(source, k + 1);
        return false, left, kids, below;
      }
      next := newchild;
      assert source[..k] + [source[k]] == source[..k + 1];
      UnfoldedKid(sh, k);
      k := k + 1;
      child := child.next;
    }
    assert source[..k] == source;
    CloseList(newitem.child, newchild, kids);
    OwnedParts(newitem, kids);
    ok := true;
  }

  /** One round of the loop: a child is copied and becomes the last below `newitem`. */
  method CopyChild(child: Node, newitem: Node, next: Node?, allocations: nat, ghost kids: seq<Shape>,
    ghost below: set<Node>, ghost sh: Shape, ghost space: set<Node>)
    returns (newchild: Node?, left: nat, ghost newKids: seq<Shape>, ghost newBelow: set<Node>)
    requires sh.node == child && Unfolds(sh) && Nodes(sh) <= space && newitem !in space
    requires Growing(newitem.child, kids) && NodesOf(kids) == below && newitem !in below && below !! space
    requires next == if kids == [] then null else kids[|kids| - 1].node
    modifies newitem`child, NodesIn(next)`next
    ensures newchild != null <==> allocations >= Cost(old(Content(sh)))
    ensures newchild != null ==>
              && Growing(newitem.child, newKids) && |newKids| == |kids| + 1 && newKids[|kids|].node == newchild
              && Contents(newKids) == old(Contents(kids) + [Content(sh)]) && left == allocations - Cost(old(Content(sh)))
              && NodesOf(newKids) == newBelow && newitem !in newBelow && fresh(newBelow - below) && newchild in newBelow
    decreases sh, 2
  {
    hide Chain, BackLinksOpen, AllOwned, Contents, Nodes, NodesOf, Apart, AllUnfold, Growing, Owned, Content;
    hide Unfolds, Cost, OwnCost, BackLinks, Distinct, Children, Roots;
    ghost var kid, nodes;
    newKids, newBelow := kids, below;
    newchild, left, kid, nodes := Duplicate(child, true, allocations, sh, space);
    if newchild == null {
      return;
    }
    AppendNodes(kids, kid);
    newitem.child := AttachItem(newitem.child, next, newchild, kids, kid);
    newKids, newBelow := kids + [kid], below + nodes;
    RootOf(kid);
  }

  lemma RootOf(sh: Shape)
    ensures sh.node in Nodes(sh)
  {
    hide NodesOf;
  }

  /** `cJSON_Duplicate`, with room for `allocations` more blocks: the copy is a tree of new nodes with the same content,
      properly linked, and it is made exactly when there is room for it. `space` holds the nodes of the original, `made`
      those of the copy. */
  method Duplicate(item: Node?, recurse: bool, allocations: nat, ghost sh: Shape, ghost space: set<Node>)
    returns (newitem: Node?, left: nat, ghost dup: Shape, ghost made: set<Node>)
    requires item != null ==> sh.node == item && Unfolds(sh) && Nodes(sh) <= space
    ensures newitem != null
            <==> item != null && allocations >= if recurse then Cost(old(Content(sh))) else OwnCost(old(Content(sh)))
    ensures newitem != null ==>
              && dup.node == newitem && Nodes(dup) == made && fresh(made) && Owned(dup)
              && newitem.next == null && newitem.prev == null && !newitem.isReference
              && Content(dup) == if recurse then old(Content(sh)) else old(Content(sh)).(kids := [])
    ensures newitem != null && recurse ==> left == allocations - Cost(old(Content(sh)))
    decreases sh, 1
  {
    hide Contents, Nodes, NodesOf, OwnCost, CostOf, Owned, Content, Unfolds, Growing;
    dup, made := sh, {};
    if item == null {
      return null, allocations, sh, {};
    }
    BelowIsInside(sh);
    ContentParts(sh);
    newitem, left := CopyNode(item, allocations, sh);
    if newitem == null {
      return null, left, sh, {};
    }
    made := {newitem};
    dup := Shape(newitem, []);
    NoKids(newitem);
    if !recurse {
      return;
    }
    var ok;
    ghost var kids, below;
    ok, left, kids, below := CopyChildren(item, newitem, left, sh, space);
    if !ok {
      return null, left, sh, {};
    }
    made := made + below;
    WholeTree(newitem, kids);
    dup := Shape(newitem, kids);
  }

  lemma ContentParts(sh: Shape)
    ensures Content(sh).kids == Contents(sh.kids)
    ensures Cost(Content(sh)) == OwnCost(Content(sh)) + CostOf(Contents(sh.kids))
  {
    hide Contents;
  }
}
