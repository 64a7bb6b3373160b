/** The nodes that stand for a JSON value (cJSON.c:357-378, 879-880, 1327-1344, 1521-1522, 1666-1668), and the value that
    any nodes are printed as (cJSON.c:545-612, 902-925, 1367-1438). */
module CJsonBuilt {
  import opened Bytes
  import opened CJsonText
  import CJsonTree
  import opened CJsonLinking

  type Tree = CJsonTree.Tree

  function Leaf(kind: CJsonTree.Kind, valueint: int, valuedouble: real, valuestring: Option<bytes>, name: Option<bytes>):
    Tree
  {
    CJsonTree.Tree(kind, false, valueint, valuedouble, valuestring, name, [])
  }

  /** The tree a value is stored as, under a name if it is a member. */
  function TreeOf(v: Json, name: Option<bytes>): Tree
    decreases v
  {
    match v
    case Null => Leaf(CJsonTree.Kind.NULL, 0, 0.0, None, name)
    case False => Leaf(CJsonTree.Kind.False, 0, 0.0, None, name)
    case True => Leaf(CJsonTree.Kind.True, 1, 0.0, None, name)
    case Number(d) => Leaf(CJsonTree.Kind.Number, ValueInt(d), d, None, name)
    case String(text) => Leaf(CJsonTree.Kind.String, 0, 0.0, Some(text), name)
    case Raw(text) => Leaf(CJsonTree.Kind.Raw, 0, 0.0, Some(text), name)
    case Array(items) => Leaf(CJsonTree.Kind.Array, 0, 0.0, None, name).(kids := ItemTrees(items))
    case Object(members) => Leaf(CJsonTree.Kind.Object, 0, 0.0, None, name).(kids := MemberTrees(members))
  }

  function ItemTrees(items: seq<Json>): (r: seq<Tree>)
    ensures |r| == |items|
    decreases items
  {
    seq(|items|, i requires 0 <= i < |items| => TreeOf(items[i], None))
  }

  function MemberTrees(members: seq<Member>): (r: seq<Tree>)
    ensures |r| == |members|
    decreases members
  {
    seq(|members|, i requires 0 <= i < |members| => TreeOf(members[i].value, Some(members[i].key)))
  }

  /** No two values are stored alike. */
  lemma {:induction false} TreeOfIsInjective(v: Json, w: Json, name: Option<bytes>)
    requires TreeOf(v, name) == TreeOf(w, name)
    ensures v == w
    decreases v
  {
    match v
    case Array(items) =>
      assert ItemTrees(items) == ItemTrees(w.items);
      forall i | 0 <= i < |items| ensures items[i] == w.items[i] {
        assert ItemTrees(items)[i] == ItemTrees(w.items)[i];
        TreeOfIsInjective(items[i], w.items[i], None);
      }
    case Object(members) =>
      assert MemberTrees(members) == MemberTrees(w.members);
      forall i | 0 <= i < |members| ensures members[i] == w.members[i] {
        assert MemberTrees(members)[i] == MemberTrees(w.members)[i];
        NameOfTree(members[i].value, Some(members[i].key));
        NameOfTree(w.members[i].value, Some(w.members[i].key));
        TreeOfIsInjective(members[i].value, w.members[i].value, Some(members[i].key));
      }
    case _ =>
  }

  lemma NameOfTree(v: Json, name: Option<bytes>)
    ensures TreeOf(v, name).name == name && !TreeOf(v, name).stringIsConst
    ensures TreeOf(v, name) == TreeOf(v, None).(name := name)
  {
  }

  /** The allocations a value takes below the node that holds it. */
  function Inner(v: Json): nat {
    Cost(TreeOf(v, None)) - 1
  }

  function ItemsNeed(items: seq<Json>): nat { CostOf(ItemTrees(items)) }

  function ItemNeed(v: Json): nat { 1 + Inner(v) }

  function MemberNeed(m: Member): nat { 2 + Inner(m.value) }

  function MembersNeed(members: seq<Member>): nat { CostOf(MemberTrees(members)) }

  function TextNeed(text: bytes): nat { 1 }

  lemma CostOfNamed(v: Json, name: Option<bytes>)
    ensures Cost(TreeOf(v, name)) == 1 + Inner(v) + if name.Some? then 1 else 0
  {
    hide TreeOf;
    NameOfTree(v, name);
    NameOfTree(v, None);
  }

  // Lists, element by element.

  lemma AppendItemTree(items: seq<Json>, v: Json)
    ensures ItemTrees(items + [v]) == ItemTrees(items) + [TreeOf(v, None)]
    ensures ItemsNeed(items + [v]) == ItemsNeed(items) + ItemNeed(v)
  {
    hide TreeOf, CostOf;
    CostOfNamed(v, None);
    CostAppend(ItemTrees(items), TreeOf(v, None));
    assert ItemTrees(items + [v]) == ItemTrees(items) + [TreeOf(v, None)];
  }

  lemma AppendMemberTree(members: seq<Member>, m: Member)
    ensures MemberTrees(members + [m]) == MemberTrees(members) + [TreeOf(m.value, Some(m.key))]
    ensures MembersNeed(members + [m]) == MembersNeed(members) + MemberNeed(m)
  {
    hide TreeOf, CostOf;
    CostOfNamed(m.value, Some(m.key));
    CostAppend(MemberTrees(members), TreeOf(m.value, Some(m.key)));
    assert MemberTrees(members + [m]) == MemberTrees(members) + [TreeOf(m.value, Some(m.key))];
  }

  lemma NoTrees()
    ensures ItemTrees([]) == [] && MemberTrees([]) == [] && ItemsNeed([]) == 0 && MembersNeed([]) == 0
  {
  }

  /** More elements take more. */
  lemma MoreItemsCost(front: seq<Json>, back: seq<Json>)
    requires back != []
    ensures ItemsNeed(front + back) >= ItemsNeed(front) + ItemNeed(back[0])
  {
    hide TreeOf, CostOf;
    var all := ItemTrees(front + back);
    assert all[..|front|] == ItemTrees(front);
    CostOfNamed(back[0], None);
    CostPrefix(all, |front|);
    CostPrefix(all, |front| + 1);
  }

  lemma MoreMembersCost(front: seq<Member>, back: seq<Member>)
    requires back != []
    ensures MembersNeed(front + back) >= MembersNeed(front) + MemberNeed(back[0])
  {
    hide TreeOf, CostOf;
    var all := MemberTrees(front + back);
    assert all[..|front|] == MemberTrees(front);
    CostOfNamed(back[0].value, Some(back[0].key));
    CostPrefix(all, |front|);
    CostPrefix(all, |front| + 1);
  }

  lemma InnerOfLists(items: seq<Json>, members: seq<Member>)
    ensures Inner(Array(items)) == ItemsNeed(items) && Inner(Object(members)) == MembersNeed(members)
  {
  }

  lemma InnerOfLeaves(d: real, text: bytes)
    ensures Inner(Null) == Inner(False) == Inner(True) == Inner(Number(d)) == 0 && Inner(String(text)) == 1
  {
  }

  // ---------- printing ----------

  /** What C's types say of nodes: a 32-bit `int`, and strings that end at their first zero byte. */
  predicate CTypes(t: Tree)
    decreases t
  {
    && INT_MIN <= t.valueint <= INT_MAX && NulFree(OrEmpty(t.valuestring)) && NulFree(OrEmpty(t.name))
    && AllCTypes(t.kids)
  }

  predicate AllCTypes(kids: seq<Tree>)
    decreases kids
  {
    forall i | 0 <= i < |kids| :: CTypes(kids[i])
  }

  function OrEmpty(s: Option<bytes>): bytes {
    if s.Some? then s.value else []
  }

  /** Every node that `print_value` comes to has a type it knows, and raw text is not missing. */
  predicate Renders(t: Tree)
    decreases t
  {
    && t.kind != CJsonTree.Kind.Invalid && (t.kind == CJsonTree.Kind.Raw ==> t.valuestring.Some?)
    && (t.kind == CJsonTree.Kind.Array || t.kind == CJsonTree.Kind.Object ==> AllRender(t.kids))
  }

  predicate AllRender(kids: seq<Tree>)
    decreases kids
  {
    forall i | 0 <= i < |kids| :: Renders(kids[i])
  }

  /** The value that nodes are printed as, where they are printed at all. A missing string or name prints as an empty
      one. */
  function ValueOf(lib: Lib, t: Tree): Json
    decreases t, 0
  {
    match t.kind
    case Invalid => Null
    case NULL => Null
    case False => Json.False
    case True => Json.True
    case Number => NumberOf(lib, t.valueint, t.valuedouble)
    case String => Json.String(OrEmpty(t.valuestring))
    case Raw => Json.Raw(OrEmpty(t.valuestring))
    case Array => Json.Array(Values(lib, t.kids))
    case Object => Json.Object(MemberValues(lib, t.kids))
  }

  /** A `valueint` that was set apart from `valuedouble` is not looked at, except to print an integer without going
      through a double. */
  function NumberOf(lib: Lib, valueint: int, valuedouble: real): Json {
    if valuedouble == valueint as real || valuedouble != ValueInt(valuedouble) as real then Number(valuedouble)
    else Raw(lib.formatDouble(valuedouble))
  }

  function Values(lib: Lib, kids: seq<Tree>): (r: seq<Json>)
    ensures |r| == |kids|
    decreases kids, 0
  {
    seq(|kids|, i requires 0 <= i < |kids| => ValueOf(lib, kids[i]))
  }

  function MemberOf(lib: Lib, t: Tree): Member
    decreases t, 1
  {
    Member(OrEmpty(t.name), ValueOf(lib, t))
  }

  function MemberValues(lib: Lib, kids: seq<Tree>): (r: seq<Member>)
    ensures |r| == |kids|
    decreases kids, 0
  {
    seq(|kids|, i requires 0 <= i < |kids| => MemberOf(lib, kids[i]))
  }

  lemma NumberOfText(lib: Lib, valueint: int, valuedouble: real, format: bool, depth: nat)
    requires INT_MIN <= valueint <= INT_MAX
    ensures Print(lib, NumberOf(lib, valueint, valuedouble), format, depth) ==
            if valuedouble == valueint as real then Decimal(valueint) else lib.formatDouble(valuedouble)
  {
    hide Decimal;
    assert valuedouble == valueint as real ==> ValueInt(valuedouble) == valueint;
  }

  lemma NameIsCString(t: Tree)
    requires CTypes(t)
    ensures NulFree(OrEmpty(t.name))
  {
  }

  lemma {:induction false} ValueIsCStrings(lib: Lib, t: Tree)
    requires CTypes(t)
    ensures CStrings(ValueOf(lib, t))
    decreases t
  {
    hide NumberOf, NulFree, OrEmpty;
    if t.kind == CJsonTree.Kind.Array {
      forall i | 0 <= i < |t.kids| ensures CStrings(Values(lib, t.kids)[i]) {
        ValueIsCStrings(lib, t.kids[i]);
      }
    } else if t.kind == CJsonTree.Kind.Object {
      forall i | 0 <= i < |t.kids|
        ensures NulFree(MemberValues(lib, t.kids)[i].key) && CStrings(MemberValues(lib, t.kids)[i].value)
      {
        NameIsCString(t.kids[i]);
        ValueIsCStrings(lib, t.kids[i]);
      }
    } else {
      NumberIsCString(lib, t);
    }
  }

  lemma NumberIsCString(lib: Lib, t: Tree)
    ensures CStrings(NumberOf(lib, t.valueint, t.valuedouble))
  {
  }

  /** The nodes that stand for a value are printed as that value. */
  lemma {:induction false} ValueOfTree(lib: Lib, v: Json, name: Option<bytes>)
    ensures Renders(TreeOf(v, name)) && ValueOf(lib, TreeOf(v, name)) == v
    decreases v
  {
    hide OrEmpty, NumberOf;
    var t := TreeOf(v, name);
    match v
    case Array(items) =>
      assert t.kids == ItemTrees(items);
      forall i | 0 <= i < |items| ensures Renders(t.kids[i]) && ValueOf(lib, t.kids[i]) == items[i] {
        assert t.kids[i] == TreeOf(items[i], None);
        ValueOfTree(lib, items[i], None);
      }
      assert Values(lib, t.kids) == items;
    case Object(members) =>
      assert t.kids == MemberTrees(members);
      forall i | 0 <= i < |members| ensures Renders(t.kids[i]) && MemberOf(lib, t.kids[i]) == members[i] {
        assert t.kids[i] == TreeOf(members[i].value, Some(members[i].key));
        NameOfTree(members[i].value, Some(members[i].key));
        NamePresent(members[i].key);
        ValueOfTree(lib, members[i].value, Some(members[i].key));
      }
      assert MemberValues(lib, t.kids) == members;
    case _ =>
      LeafOfTree(lib, v, name);
  }

  lemma NamePresent(name: bytes)
    ensures OrEmpty(Some(name)) == name
  {
  }

  lemma LeafOfTree(lib: Lib, v: Json, name: Option<bytes>)
    requires !v.Array? && !v.Object?
    ensures Renders(TreeOf(v, name)) && ValueOf(lib, TreeOf(v, name)) == v
  {
  }

  lemma NoName()
    ensures NulFree(OrEmpty(None))
  {
  }

  /** They also are what C's types allow. */
  lemma {:induction false} TreeOfCTypes(v: Json, name: Option<bytes>)
    requires CStrings(v) && NulFree(OrEmpty(name))
    ensures CTypes(TreeOf(v, name))
    decreases v
  {
    hide NulFree;
    var t := TreeOf(v, name);
    NoName();
    match v
    case Array(items) =>
      forall i | 0 <= i < |items| ensures CTypes(t.kids[i]) {
        assert t.kids[i] == TreeOf(items[i], None);
        TreeOfCTypes(items[i], None);
      }
    case Object(members) =>
      forall i | 0 <= i < |members| ensures CTypes(t.kids[i]) {
        assert t.kids[i] == TreeOf(members[i].value, Some(members[i].key));
        TreeOfCTypes(members[i].value, Some(members[i].key));
      }
    case _ =>
  }
}
