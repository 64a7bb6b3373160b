/** Sibling lists of cJSON nodes and the surgery on them (cJSON.c:1851-1987, 2187-2352): linked both ways, `next` of the
    last is null, and `prev` of the first is the last. */
module CJsonNodes {
  import opened Bytes
  import opened CJsonTree

  class Node {
    var next: Node?
    var prev: Node?
    var child: Node?
    var kind: Kind
    var isReference: bool
    var stringIsConst: bool
    var valueint: int
    var valuedouble: real
    var valuestring: Option<bytes>
    var name: Option<bytes>

    /** `cJSON_New_Item`. */
    constructor ()
      ensures next == null && prev == null && child == null && !isReference && !stringIsConst
      ensures kind == Invalid && valueint == 0 && valuedouble == 0.0 && valuestring == None && name == None
    {
      next, prev, child := null, null, null;
      kind, isReference, stringIsConst := Invalid, false, false;
      valueint, valuedouble, valuestring, name := 0, 0.0, None, None;
    }
  }

  function NodeAt(s: seq<Node>, i: nat): Node? {
    if i < |s| then s[i] else null
  }

  ghost function NodesIn(n: Node?): set<Node> {
    if n == null then {} else {n}
  }

  /** From `head`, `next` leads through the elements of `s` to null. */
  ghost predicate Chain(head: Node?, s: seq<Node>)
    reads s`next
  {
    && head == NodeAt(s, 0)
    && forall i | 0 <= i < |s| :: s[i].next == NodeAt(s, i + 1)
  }

  /** `prev` leads back, and from the first element to the last. */
  ghost predicate BackLinks(s: seq<Node>)
    reads s`prev
  {
    forall i | 0 <= i < |s| :: s[i].prev == Before(s, i)
  }

  function Before(s: seq<Node>, i: nat): Node
    requires i < |s|
  {
    if i == 0 then s[|s| - 1] else s[i - 1]
  }

  ghost predicate Distinct(s: seq<Node>) {
    forall i, j | 0 <= i < j < |s| :: s[i] != s[j]
  }

  /** `s` are the children of `parent`, properly linked. */
  ghost predicate Children(parent: Node, s: seq<Node>)
    reads parent`child, s`next, s`prev
  {
    parent !in s && Chain(parent.child, s) && BackLinks(s) && Distinct(s)
  }

  /** The elements of a list are determined by its links, so a node has one sequence of children. */
  lemma {:induction false} ChainUnique(head: Node?, s: seq<Node>, t: seq<Node>)
    requires Chain(head, s) && Chain(head, t)
    ensures s == t
    decreases |s|
  {
    if s != [] && t != [] {
      ChainTail(head, s);
      ChainTail(head, t);
      ChainUnique(s[0].next, s[1..], t[1..]);
      assert s == [s[0]] + s[1..] && t == [t[0]] + t[1..];
    }
  }

  lemma ChainTail(head: Node?, s: seq<Node>)
    requires Chain(head, s) && s != []
    ensures Chain(s[0].next, s[1..])
  {
  }

  /** The links of one element, and where the list starts. */
  lemma LinksAt(parent: Node, s: seq<Node>, i: nat)
    requires Children(parent, s) && i < |s|
    ensures s[i].next == NodeAt(s, i + 1) && s[i].prev == Before(s, i)
    ensures parent.child == s[0] && s[0].prev == s[|s| - 1]
    ensures ChainBut(s, {}) && BackLinksBut(s, {})
    ensures i > 0 ==> s[i] != s[0] && s[i - 1] != s[i]
    ensures i + 1 < |s| ==> s[i + 1] != s[i] && s[i + 1] != s[0]
    ensures 0 < i < |s| - 1 ==> s[i - 1] != s[i + 1]
  {
  }

  lemma FirstChild(parent: Node, s: seq<Node>)
    requires Children(parent, s)
    ensures parent.child == NodeAt(s, 0)
  {
  }

  // Searching.

  method GetArrayItem(parent: Node?, index: int, ghost s: seq<Node>) returns (item: Node?)
    requires parent != null ==> Chain(parent.child, s)
    ensures item == if parent != null && 0 <= index < |s| then s[index] else null
  {
    if index < 0 || parent == null {
      return null;
    }
    var left := index;
    item := parent.child;
    ghost var k := 0;
    while item != null && left > 0
      invariant 0 <= k <= |s| && item == NodeAt(s, k) && left >= 0 && k + left == index
    {
      left := left - 1;
      item := item.next;
      k := k + 1;
    }
  }

  function NodeNames(s: seq<Node>): (r: seq<Option<bytes>>)
    reads s
    ensures |r| == |s| && forall i | 0 <= i < |s| :: r[i] == s[i].name
  {
    seq(|s|, i requires 0 <= i < |s| reads s => s[i].name)
  }

  method GetObjectItem(parent: Node?, name: Option<bytes>, caseSensitive: bool, ghost s: seq<Node>) returns (item: Node?)
    requires parent != null ==> Chain(parent.child, s)
    ensures var found := Lookup(NodeNames(s), name, caseSensitive);
            item == if parent != null && found.Some? then s[found.value] else null
  {
    hide SameName;
    if parent == null || name == None {
      return null;
    }
    ghost var names := NodeNames(s);
    item := parent.child;
    ghost var k := 0;
    while item != null && (!caseSensitive || item.name.Some?) && !SameName(name, item.name, caseSensitive)
      invariant 0 <= k <= |s| && item == NodeAt(s, k)
      invariant SearchEnd(names, name, caseSensitive, 0) == SearchEnd(names, name, caseSensitive, k)
      decreases |s| - k
    {
      item := item.next;
      k := k + 1;
    }
    if item == null || item.name == None {
      return null;
    }
  }

  // What rewiring a few links does to a list.

  /** `next` leads from each element to the one behind it, except from those in `w`. */
  ghost predicate ChainBut(s: seq<Node>, w: set<Node>)
    reads s`next
  {
    forall i {:trigger s[i].next} | 0 <= i < |s| && s[i] !in w :: s[i].next == NodeAt(s, i + 1)
  }

  ghost predicate BackLinksBut(s: seq<Node>, w: set<Node>)
    reads s`prev
  {
    forall i {:trigger s[i].prev} | 0 <= i < |s| && s[i] !in w :: s[i].prev == Before(s, i)
  }

  lemma ChainInserted(s: seq<Node>, k: nat, x: Node)
    requires k < |s| && Distinct(s) && ChainBut(s, if k > 0 then {s[k - 1]} else {})
    requires (k > 0 ==> s[k - 1].next == x) && x.next == s[k]
    ensures Chain(if k == 0 then x else s[0], Inserted(s, k, x))
  {
    var t := Inserted(s, k, x);
    forall i | 0 <= i < |t| ensures t[i].next == NodeAt(t, i + 1) {
      if i != k {
        var j := if i < k then i else i - 1;
        assert t[i] == s[j];
        assert j != k - 1 ==> s[j].next == NodeAt(s, j + 1);
      }
    }
  }

  lemma BackLinksInserted(s: seq<Node>, k: nat, x: Node)
    requires k < |s| && Distinct(s) && BackLinksBut(s, {s[k]}) && s[k].prev == x && x.prev == Before(s, k)
    ensures BackLinks(Inserted(s, k, x))
  {
    var t := Inserted(s, k, x);
    forall i | 0 <= i < |t| ensures t[i].prev == Before(t, i) {
      if i != k {
        var j := if i < k then i else i - 1;
        assert t[i] == s[j];
        assert j != k ==> s[j].prev == Before(s, j);
      }
    }
  }

  lemma RemovedAt(s: seq<Node>, k: nat)
    requires k < |s|
    ensures |Removed(s, k)| == |s| - 1
    ensures forall i | 0 <= i < |s| - 1 :: Removed(s, k)[i] == s[if i < k then i else i + 1]
  {
  }

  /** The neighbour before an element changes only where an element goes. */
  lemma BeforeRemoved(s: seq<Node>, k: nat, i: nat)
    requires k < |s| && i < |s| - 1
    ensures |Removed(s, k)| == |s| - 1
    ensures Before(Removed(s, k), i)
            == if i == k || (i == 0 && k == |s| - 1) then Before(s, k) else Before(s, if i < k then i else i + 1)
  {
    RemovedAt(s, k);
  }

  lemma ChainRemoved(s: seq<Node>, k: nat)
    requires k < |s| && Distinct(s) && ChainBut(s, if k > 0 then {s[k], s[k - 1]} else {s[k]})
    requires k > 0 ==> s[k - 1].next == NodeAt(s, k + 1)
    ensures Chain(if k == 0 then NodeAt(s, 1) else s[0], Removed(s, k))
  {
    var t := Removed(s, k);
    forall i | 0 <= i < |t| ensures t[i].next == NodeAt(t, i + 1) {
      var j := if i < k then i else i + 1;
      assert t[i] == s[j];
      assert j != k - 1 ==> s[j].next == NodeAt(s, j + 1);
    }
  }

  lemma BackLinksRemoved(s: seq<Node>, k: nat)
    requires k < |s| && Distinct(s)
    requires k + 1 < |s| ==> BackLinksBut(s, {s[k], s[k + 1]}) && s[k + 1].prev == Before(s, k)
    requires k + 1 == |s| ==> BackLinksBut(s, {s[k], s[0]}) && (k > 0 ==> s[0].prev == Before(s, k))
    ensures BackLinks(Removed(s, k))
  {
    hide Before, Removed;
    RemovedAt(s, k);
    forall i | 0 <= i < |s| - 1 ensures Removed(s, k)[i].prev == Before(Removed(s, k), i) {
      BeforeRemoved(s, k, i);
      var j := if i < k then i else i + 1;
      assert i != k && !(i == 0 && k == |s| - 1) ==> s[j].prev == Before(s, j);
    }
  }

  lemma ChainReplaced(s: seq<Node>, k: nat, x: Node)
    requires k < |s| && Distinct(s) && ChainBut(s, if k > 0 then {s[k], s[k - 1]} else {s[k]})
    requires (k > 0 ==> s[k - 1].next == x) && x.next == NodeAt(s, k + 1)
    ensures Chain(if k == 0 then x else s[0], s[k := x])
  {
    var t := s[k := x];
    forall i | 0 <= i < |t| ensures t[i].next == NodeAt(t, i + 1) {
      assert i != k && i != k - 1 ==> s[i].next == NodeAt(s, i + 1);
    }
  }

  lemma BackLinksReplaced(s: seq<Node>, k: nat, x: Node)
    requires k < |s| && Distinct(s) && x.prev == if |s| == 1 then x else Before(s, k)
    requires k + 1 < |s| ==> BackLinksBut(s, {s[k], s[k + 1]}) && s[k + 1].prev == x
    requires k + 1 == |s| ==> BackLinksBut(s, {s[k], s[0]}) && (k > 0 ==> s[0].prev == x)
    ensures BackLinks(s[k := x])
  {
    var t := s[k := x];
    forall i | 0 <= i < |t| ensures t[i].prev == Before(t, i) {
      assert i != k && s[i] !in (if k + 1 < |s| then {s[k + 1]} else {s[0]}) ==> s[i].prev == Before(s, i);
    }
  }

  lemma ChainAppended(s: seq<Node>, x: Node)
    requires s != [] && Distinct(s) && ChainBut(s, {s[|s| - 1]}) && s[|s| - 1].next == x
    ensures Chain(s[0], s + [x]) <==> x.next == null
  {
    var t := s + [x];
    forall i | 0 <= i < |s| ensures t[i].next == NodeAt(t, i + 1) {
      assert i < |s| - 1 ==> s[i].next == NodeAt(s, i + 1);
    }
    assert t[|s|] == x;
  }

  lemma BackLinksAppended(s: seq<Node>, x: Node)
    requires s != [] && Distinct(s) && BackLinksBut(s, {s[0]}) && s[0].prev == x && x.prev == s[|s| - 1]
    ensures BackLinks(s + [x])
  {
    var t := s + [x];
    forall i | 0 <= i < |t| ensures t[i].prev == Before(t, i) {
      assert 0 < i < |s| ==> s[i].prev == Before(s, i);
    }
  }

  lemma SingleList(x: Node)
    requires x.next == null && x.prev == x
    ensures Chain(x, [x]) && BackLinks([x])
  {
  }

  // Surgery.

  function Inserted<T>(s: seq<T>, k: nat, x: T): seq<T>
    requires k <= |s|
  {
    s[..k] + [x] + s[k..]
  }

  function Removed<T>(s: seq<T>, k: nat): seq<T>
    requires k < |s|
  {
    s[..k] + s[k + 1..]
  }

  /** `add_item_to_array`. The result is the list with the item behind it exactly if the item was not in the list before and,
      where there were elements, did not point to a next one: the code looks at neither. */
  method AddItemToArray(parent: Node?, item: Node?, ghost s: seq<Node>) returns (ok: bool)
    requires parent != null ==> Children(parent, s)
    modifies NodesIn(parent)`child, NodesIn(item)`next, NodesIn(item)`prev, s`next, s`prev
    ensures ok <==> parent != null && item != null && parent != item
    ensures ok ==> (Children(parent, s + [item]) <==> item !in s && (s == [] || old(item.next) == null))
    ensures !ok && parent != null ==> Children(parent, s)
  {
    hide Chain, BackLinks;
    if item == null || parent == null || parent == item {
      return false;
    }
    FirstChild(parent, s);
    var child := parent.child;
    if child == null {
      parent.child := item;
      item.prev := item;
      item.next := null;
      SingleList(item);
      assert s + [item] == [item];
    } else {
      LinksAt(parent, s, 0);
      if child.prev != null {
        child.prev.next := item;
        item.prev := child.prev;
        parent.child.prev := item;
      }
      if item !in s {
        ChainAppended(s, item);
        BackLinksAppended(s, item);
      } else {
        NotTwice(s, |s|, item);
        assert s[..|s|] + [item] + s[|s|..] == s + [item];
      }
    }
    ok := true;
  }

  /** No element can stand in a list twice. */
  lemma NotTwice(s: seq<Node>, k: nat, x: Node)
    requires k <= |s| && x in s
    ensures !Distinct(Inserted(s, k, x))
    ensures k < |s| && s[k] != x ==> !Distinct(s[k := x])
  {
    var j :| 0 <= j < |s| && s[j] == x;
    assert Inserted(s, k, x)[k] == Inserted(s, k, x)[if j < k then j else j + 1];
    if k < |s| && s[k] != x {
      assert s[k := x][k] == s[k := x][j];
    }
  }

  lemma DistinctInserted(s: seq<Node>, k: nat, x: Node)
    requires k <= |s|
    ensures Distinct(s) && x !in s ==> Distinct(Inserted(s, k, x))
    ensures forall n | n in Inserted(s, k, x) :: n in s || n == x
  {
  }

  /** `cJSON_InsertItemInArray`: a place past the end appends. Inside the list the code takes any item; it is inserted
      properly exactly if it is neither in the list nor its parent. */
  method InsertItemInArray(parent: Node?, which: int, newitem: Node?, ghost s: seq<Node>) returns (ok: bool)
    requires parent != null ==> Children(parent, s)
    requires parent != null && 0 <= which < |s| ==> newitem != null
    modifies NodesIn(parent)`child, NodesIn(newitem)`next, NodesIn(newitem)`prev, s`next, s`prev
    ensures ok <==> which >= 0 && parent != null && (which < |s| || (newitem != null && parent != newitem))
    ensures ok && which < |s| ==>
              (Children(parent, Inserted(s, which, newitem)) <==> newitem !in s && newitem != parent)
    ensures ok && which >= |s| ==>
              (Children(parent, s + [newitem]) <==> newitem !in s && (s == [] || old(newitem.next) == null))
    ensures !ok && parent != null ==> Children(parent, s)
  {
    hide Chain, BackLinks, Distinct;
    if newitem != null && 0 <= which < |s| {
      DistinctInserted(s, which, newitem);
    }
    if which < 0 {
      return false;
    }
    var afterInserted := GetArrayItem(parent, which, s);
    if afterInserted == null {
      ok := AddItemToArray(parent, newitem, s);
      return;
    }
    LinksAt(parent, s, which);
    newitem.next := afterInserted;
    newitem.prev := afterInserted.prev;
    afterInserted.prev := newitem;
    if afterInserted == parent.child {
      parent.child := newitem;
    } else {
      newitem.prev.next := newitem;
    }
    if newitem in s {
      NotTwice(s, which, newitem);
    } else if newitem != parent {
      ChainInserted(s, which, newitem);
      BackLinksInserted(s, which, newitem);
    }
    ok := true;
  }

  lemma DistinctRemoved(s: seq<Node>, k: nat)
    requires k < |s| && Distinct(s)
    ensures Distinct(Removed(s, k)) && forall n | n in Removed(s, k) :: n in s
  {
  }

  /** `cJSON_DetachItemViaPointer`, for an element of the list. */
  method DetachItemViaPointer(parent: Node?, item: Node?, ghost s: seq<Node>, ghost k: nat) returns (detached: Node?)
    requires parent != null && item != null ==> Children(parent, s) && k < |s| && s[k] == item
    modifies NodesIn(parent)`child, s`next, s`prev
    ensures detached == if parent == null then null else item
    ensures parent != null && item != null ==>
              Children(parent, Removed(s, k)) && item.next == null && item.prev == null
    ensures parent == null || item == null ==> forall n | n in s :: n.next == old(n.next) && n.prev == old(n.prev)
    ensures item == null && parent != null ==> parent.child == old(parent.child)
  {
    hide Chain, BackLinks, Distinct, Removed;
    if parent == null || item == null {
      return null;
    }
    DistinctRemoved(s, k);
    LinksAt(parent, s, k);
    if item != parent.child {
      item.prev.next := item.next;
    }
    if item.next != null {
      item.next.prev := item.prev;
    }
    if item == parent.child {
      parent.child := item.next;
    } else if item.next == null {
      parent.child.prev := item.prev;
    }
    item.prev := null;
    item.next := null;
    ChainRemoved(s, k);
    BackLinksRemoved(s, k);
    return item;
  }

  /** `cJSON_ReplaceItemViaPointer`, for an element of the list; deleting the old one leaves the links alone. The
      replacement takes its place properly exactly if it is the same, or neither in the list nor its parent. */
  method ReplaceItemViaPointer(parent: Node?, item: Node?, replacement: Node?, ghost s: seq<Node>, ghost k: nat)
    returns (ok: bool)
    requires parent != null ==> Children(parent, s) && (item != null ==> k < |s| && s[k] == item)
    modifies NodesIn(parent)`child, NodesIn(replacement)`next, NodesIn(replacement)`prev, s`next, s`prev
    ensures ok <==> parent != null && s != [] && replacement != null && item != null
    ensures ok ==>
              (Children(parent, s[k := replacement]) <==>
                 replacement == item || (replacement !in s && replacement != parent))
    ensures ok && replacement != item ==> item.next == null && item.prev == null
    ensures !ok && parent != null ==> Children(parent, s)
  {
    hide Chain, BackLinks;
    if parent != null {
      FirstChild(parent, s);
    }
    if parent == null || parent.child == null || replacement == null || item == null {
      return false;
    }
    if replacement == item {
      assert s[k := replacement] == s;
      return true;
    }
    LinksAt(parent, s, k);
    LinksAt(parent, s, 0);
    replacement.next := item.next;
    replacement.prev := item.prev;
    if replacement.next != null {
      replacement.next.prev := replacement;
    }
    if parent.child == item {
      if parent.child.prev == parent.child {
        replacement.prev := replacement;
      }
      parent.child := replacement;
    } else {
      if replacement.prev != null {
        replacement.prev.next := replacement;
      }
      if replacement.next == null {
        parent.child.prev := replacement;
      }
    }
    item.next := null;
    item.prev := null;
    assert s[k := replacement][k] == replacement;
    if replacement in s {
      NotTwice(s, k, replacement);
    } else if replacement != parent {
      ChainReplaced(s, k, replacement);
      BackLinksReplaced(s, k, replacement);
    }
    ok := true;
  }

  // By index and by name.

  /** `cJSON_DetachItemFromArray`. */
  method DetachItemFromArray(parent: Node?, which: int, ghost s: seq<Node>) returns (detached: Node?)
    requires parent != null ==> Children(parent, s)
    modifies NodesIn(parent)`child, s`next, s`prev
    ensures detached == if parent != null && 0 <= which < |s| then s[which] else null
    ensures parent != null ==> Children(parent, if detached == null then s else Removed(s, which))
    ensures detached != null ==> detached.next == null && detached.prev == null
  {
    if which < 0 {
      return null;
    }
    var item := GetArrayItem(parent, which, s);
    detached := DetachItemViaPointer(parent, item, s, which);
  }

  /** `cJSON_DetachItemFromObject` and `cJSON_DetachItemFromObjectCaseSensitive`. */
  method DetachItemFromObject(parent: Node?, name: Option<bytes>, caseSensitive: bool, ghost s: seq<Node>)
    returns (detached: Node?)
    requires parent != null ==> Children(parent, s)
    modifies NodesIn(parent)`child, s`next, s`prev
    ensures var found := Lookup(old(NodeNames(s)), name, caseSensitive);
            && (detached == if parent != null && found.Some? then s[found.value] else null)
            && (parent != null ==> Children(parent, if found.Some? then Removed(s, found.value) else s))
    ensures detached != null ==> detached.next == null && detached.prev == null
  {
    hide Chain, BackLinks, Distinct, Lookup, Removed;
    ghost var found := Lookup(NodeNames(s), name, caseSensitive);
    var item := GetObjectItem(parent, name, caseSensitive, s);
    detached := DetachItemViaPointer(parent, item, s, if found.Some? then found.value else 0);
  }

  /** The names once `x` is called `name`. Outside the list that changes none of them. */
  ghost function Renamed(s: seq<Node>, x: Node?, name: Option<bytes>): (r: seq<Option<bytes>>)
    reads s
    ensures |r| == |s| && (x !in s ==> r == NodeNames(s))
  {
    seq(|s|, i requires 0 <= i < |s| reads s => if s[i] == x then name else s[i].name)
  }

  /** `add_item_to_object`: the item takes the name, then joins the list; `memory` says whether the name can be copied, if
      it has to be. */
  method AddItemToObject(parent: Node?, name: Option<bytes>, item: Node?, constantKey: bool, memory: bool,
    ghost s: seq<Node>)
    returns (ok: bool)
    requires parent != null ==> Children(parent, s)
    modifies NodesIn(parent)`child, NodesIn(item)`next, NodesIn(item)`prev, NodesIn(item)`name, NodesIn(item)`stringIsConst,
             s`next, s`prev
    ensures ok <==> parent != null && item != null && parent != item && name.Some? && (constantKey || memory)
    ensures ok ==> (Children(parent, s + [item]) <==> item !in s && (s == [] || old(item.next) == null))
    ensures ok ==> NodeNames(s + [item]) == old(Renamed(s, item, name)) + [name] && item.stringIsConst == constantKey
    ensures !ok && parent != null ==> Children(parent, s)
    ensures !ok && item != null ==> item.name == old(item.name) && item.stringIsConst == old(item.stringIsConst)
  {
    hide Chain, BackLinks, Distinct;
    if parent == null || name == None || item == null || parent == item {
      return false;
    }
    if !constantKey && !memory {
      return false;
    }
    item.name := name;
    item.stringIsConst := constantKey;
    ok := AddItemToArray(parent, item, s);
  }

  /** `replace_item_in_object`: the replacement takes the given name even where there is nothing to replace, and has lost
      its own where the new one cannot be copied. */
  method ReplaceItemInObject(parent: Node?, name: Option<bytes>, replacement: Node?, caseSensitive: bool, memory: bool,
    ghost s: seq<Node>)
    returns (ok: bool)
    requires parent != null ==> Children(parent, s)
    modifies NodesIn(parent)`child, NodesIn(replacement)`next, NodesIn(replacement)`prev, NodesIn(replacement)`name,
             NodesIn(replacement)`stringIsConst, s`next, s`prev
    ensures replacement != null && name.Some? ==>
              if memory then replacement.name == name && !replacement.stringIsConst
              else replacement.name == None && replacement.stringIsConst == old(replacement.stringIsConst)
    ensures !ok && parent != null ==> Children(parent, s)
    ensures ok <==>
            parent != null && replacement != null && memory &&
            Lookup(old(Renamed(s, replacement, name)), name, caseSensitive).Some?
    ensures ok ==>
              var names := old(Renamed(s, replacement, name));
              var k := Lookup(names, name, caseSensitive).value;
              && NodeNames(s[k := replacement]) == names[k := name]
              && (Children(parent, s[k := replacement]) <==>
                    replacement == s[k] || (replacement !in s && replacement != parent))
  {
    hide Chain, BackLinks, Distinct, Lookup;
    if replacement == null || name == None {
      return false;
    }
    if !memory {
      replacement.name := None;
      return false;
    }
    replacement.name := name;
    replacement.stringIsConst := false;
    assert NodeNames(s) == old(Renamed(s, replacement, name));
    var item := GetObjectItem(parent, name, caseSensitive, s);
    ghost var found := Lookup(NodeNames(s), name, caseSensitive);
    ghost var names := NodeNames(s);
    ok := ReplaceItemViaPointer(parent, item, replacement, s, if found.Some? then found.value else 0);
    assert names == old(Renamed(s, replacement, name));
    assert parent != null && found.Some? ==> ok;
    assert ok ==> NodeNames(s[found.value := replacement]) == names[found.value := name];
  }

  // Members as a map.

  lemma DistinctAfterRemoval(names: seq<Option<bytes>>, caseSensitive: bool, k: nat)
    requires DistinctNames(names, caseSensitive) && k < |names|
    ensures DistinctNames(Removed(names, k), caseSensitive)
  {
    hide SameName;
  }

  /** Detaching what was found under a name takes that name away and keeps every other one, as long as no name occurs
      twice. */
  lemma DetachedNameGone(names: seq<Option<bytes>>, name: Option<bytes>, caseSensitive: bool, k: nat, other: Option<bytes>)
    requires DistinctNames(names, caseSensitive) && Lookup(names, name, caseSensitive) == Some(k)
    ensures DistinctNames(Removed(names, k), caseSensitive)
    ensures Lookup(Removed(names, k), other, caseSensitive)
            == if SameName(other, name, caseSensitive) then None
               else match Lookup(names, other, caseSensitive)
                    case Some(i) => Some(if i < k then i else i - 1)
                    case None => None
  {
    hide SameName, SearchEnd;
    SameNameIsEquality(other, name, names[k], caseSensitive);
    SameNameIsEquality(other, names[k], name, caseSensitive);
    SameNameIsEquality(name, names[k], other, caseSensitive);
    DistinctAfterRemoval(names, caseSensitive, k);
    hide DistinctNames;
    var rest := Removed(names, k);
    assert forall i | 0 <= i < |rest| :: rest[i] == names[if i < k then i else i + 1];
    var found := Lookup(rest, other, caseSensitive);
    if found.Some? {
      var j := if found.value < k then found.value else found.value + 1;
      LookupFinds(names, other, caseSensitive, j);
      if SameName(other, name, caseSensitive) {
        LookupFinds(names, other, caseSensitive, k);
      }
    } else if Lookup(names, other, caseSensitive).Some? {
      var i := Lookup(names, other, caseSensitive).value;
      if i != k {
        LookupFinds(rest, other, caseSensitive, if i < k then i else i - 1);
      }
    }
  }

  /** A name that was not there is found at the end after it is added, and no other search changes. */
  lemma AddedNameFound(names: seq<Option<bytes>>, name: Option<bytes>, caseSensitive: bool, other: Option<bytes>)
    requires DistinctNames(names, caseSensitive) && name.Some? && Lookup(names, name, caseSensitive) == None
    ensures DistinctNames(names + [name], caseSensitive)
    ensures Lookup(names + [name], other, caseSensitive)
            == if SameName(other, name, caseSensitive) then Some(|names|) else Lookup(names, other, caseSensitive)
  {
    var all := names + [name];
    forall i | 0 <= i < |names| ensures !SameName(names[i], name, caseSensitive) {
      LookupFinds(names, name, caseSensitive, i);
    }
    if SameName(other, name, caseSensitive) {
      LookupFinds(all, other, caseSensitive, |names|);
    } else if Lookup(names, other, caseSensitive).Some? {
      LookupFinds(all, other, caseSensitive, Lookup(names, other, caseSensitive).value);
    } else if Lookup(all, other, caseSensitive).Some? {
      LookupFinds(names, other, caseSensitive, Lookup(all, other, caseSensitive).value);
    }
  }

  /** Detaching an element and inserting it at the same place undo each other. */
  lemma DetachInsert<T>(s: seq<T>, k: nat, x: T)
    ensures k < |s| ==> Inserted(Removed(s, k), k, s[k]) == s
    ensures k <= |s| ==> Removed(Inserted(s, k, x), k) == s
  {
    if k < |s| {
      assert Removed(s, k)[..k] == s[..k] && Removed(s, k)[k..] == s[k + 1..];
    }
  }
}
