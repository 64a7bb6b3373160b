/** Comparing trees (cJSON.c:538-542, 2986-3109). */
module CJsonCompare {
  import opened Bytes
  import opened CJsonTree
  import CJsonNodes
  import opened CJsonShapes
  import CJsonLinking
  import CJsonDuplicate

  /** DBL_EPSILON. */
  const EPSILON: real := 1.0 / 4503599627370496.0

  function Abs(x: real): real {
    if x < 0.0 then -x else x
  }

  /** `compare_double`, on numbers that are finite; rounding in the subtraction is left out. */
  predicate CloseNumbers(a: real, b: real) {
    Abs(a - b) <= (if Abs(a) > Abs(b) then Abs(a) else Abs(b)) * EPSILON
  }

  lemma CloseIsSymmetric(a: real, b: real)
    ensures CloseNumbers(a, b) == CloseNumbers(b, a)
    ensures CloseNumbers(a, a)
  {
  }

  function Names(kids: seq<Tree>): (r: seq<Option<bytes>>)
    ensures |r| == |kids| && forall i | 0 <= i < |r| :: r[i] == kids[i].name
  {
    seq(|kids|, i requires 0 <= i < |kids| => kids[i].name)
  }

  /** Both values without what hangs below them. */
  predicate SameLeaf(a: Tree, b: Tree) {
    && a.kind == b.kind && a.kind != Invalid
    && (a.kind == Number ==> CloseNumbers(a.valuedouble, b.valuedouble))
    && (a.kind == Kind.String || a.kind == Raw ==> a.valuestring.Some? && a.valuestring == b.valuestring)
  }

  /** What `cJSON_Compare` answers for two trees at different addresses: elements pairwise, members by the first one found
      under the same name, from either side. */
  predicate Equal(a: Tree, b: Tree, caseSensitive: bool)
    decreases a
  {
    && SameLeaf(a, b)
    && (a.kind == Kind.Array ==>
          |a.kids| == |b.kids| && forall i | 0 <= i < |a.kids| :: Equal(a.kids[i], b.kids[i], caseSensitive))
    && (a.kind == Kind.Object ==>
          && (forall i | 0 <= i < |a.kids| ::
                var j := Lookup(Names(b.kids), a.kids[i].name, caseSensitive);
                j.Some? && Equal(a.kids[i], b.kids[j.value], caseSensitive))
          && (forall j | 0 <= j < |b.kids| ::
                var i := Lookup(Names(a.kids), b.kids[j].name, caseSensitive);
                i.Some? && Equal(a.kids[i.value], b.kids[j], caseSensitive)))
  }

  lemma {:induction false} EqualIsSymmetric(a: Tree, b: Tree, caseSensitive: bool)
    ensures Equal(a, b, caseSensitive) == Equal(b, a, caseSensitive)
    decreases a
  {
    CloseIsSymmetric(a.valuedouble, b.valuedouble);
    forall i, j | 0 <= i < |a.kids| && 0 <= j < |b.kids|
      ensures Equal(a.kids[i], b.kids[j], caseSensitive) == Equal(b.kids[j], a.kids[i], caseSensitive)
    {
      EqualIsSymmetric(a.kids[i], b.kids[j], caseSensitive);
    }
  }

  // Members.

  /** The first element of `t` that has the name of `e` equals it. */
  predicate FoundAt(e: Tree, t: seq<Tree>, caseSensitive: bool) {
    var j := Lookup(Names(t), e.name, caseSensitive);
    j.Some? && Equal(e, t[j.value], caseSensitive)
  }

  predicate FoundIn(s: seq<Tree>, t: seq<Tree>, caseSensitive: bool) {
    forall i | 0 <= i < |s| :: FoundAt(s[i], t, caseSensitive)
  }

  lemma ObjectsEqualIff(a: Tree, b: Tree, caseSensitive: bool)
    requires SameLeaf(a, b) && a.kind == Kind.Object
    ensures Equal(a, b, caseSensitive) <==> FoundIn(a.kids, b.kids, caseSensitive) && FoundIn(b.kids, a.kids, caseSensitive)
  {
    forall i, j | 0 <= i < |a.kids| && 0 <= j < |b.kids|
      ensures Equal(a.kids[i], b.kids[j], caseSensitive) == Equal(b.kids[j], a.kids[i], caseSensitive)
    {
      EqualIsSymmetric(a.kids[i], b.kids[j], caseSensitive);
    }
  }

  // What equality means.

  /** `p` pairs the numbers below `n` with those below `m`, one to one. */
  predicate Pairing(p: seq<nat>, n: nat, m: nat) {
    && |p| == n
    && (forall i | 0 <= i < n :: p[i] < m)
    && (forall i, j | 0 <= i < j < n :: p[i] != p[j])
    && forall j: nat | j < m :: j in p
  }

  /** When two values without what hangs below them are the same: of one known kind, numbers at most 2^-52 of the larger one
      apart, strings and raw texts both there and byte by byte the same. */
  predicate Matching(a: Tree, b: Tree) {
    && a.kind == b.kind
    && match a.kind
       case False => true
       case True => true
       case NULL => true
       case Array => true
       case Object => true
       case Number =>
         var gap := 4503599627370496.0 * if a.valuedouble < b.valuedouble then b.valuedouble - a.valuedouble
                                         else a.valuedouble - b.valuedouble;
         gap <= a.valuedouble || gap <= -a.valuedouble || gap <= b.valuedouble || gap <= -b.valuedouble
       case String => SameText(a.valuestring, b.valuestring)
       case Raw => SameText(a.valuestring, b.valuestring)
       case Invalid => false
  }

  predicate SameText(a: Option<bytes>, b: Option<bytes>) {
    && a.Some? && b.Some? && |a.value| == |b.value|
    && forall i | 0 <= i < |a.value| :: a.value[i] == b.value[i]
  }

  /** The code compares exactly so. */
  lemma SameLeafIffMatching(a: Tree, b: Tree)
    ensures SameLeaf(a, b) <==> Matching(a, b)
  {
    if SameText(a.valuestring, b.valuestring) {
      assert a.valuestring.value == b.valuestring.value;
    }
    assert CloseNumbers(a.valuedouble, b.valuedouble) <==>
           4503599627370496.0 * Abs(a.valuedouble - b.valuedouble) <=
           if Abs(a.valuedouble) > Abs(b.valuedouble) then Abs(a.valuedouble) else Abs(b.valuedouble);
  }

  /** Strings and raw texts compare equal if and only if both are there and identical. */
  lemma TextsEqualIff(a: Tree, b: Tree, caseSensitive: bool)
    requires a.kind == Kind.String || a.kind == Raw
    ensures Equal(a, b, caseSensitive) <==>
            a.kind == b.kind && exists text: bytes :: a.valuestring == Some(text) && b.valuestring == Some(text)
  {
    SameLeafIffMatching(a, b);
    if Equal(a, b, caseSensitive) {
      assert a.valuestring.value == b.valuestring.value;
      assert a.valuestring == Some(a.valuestring.value) && b.valuestring == Some(a.valuestring.value);
    }
  }

  /** The same tree up to the order of members, the rule for names and the tolerance for numbers. */
  ghost predicate Same(a: Tree, b: Tree, caseSensitive: bool)
    decreases a
  {
    && Matching(a, b)
    && (a.kind == Kind.Array ==>
          |a.kids| == |b.kids| && forall i | 0 <= i < |a.kids| :: Same(a.kids[i], b.kids[i], caseSensitive))
    && (a.kind == Kind.Object ==>
          exists p: seq<nat> ::
            && Pairing(p, |a.kids|, |b.kids|)
            && forall i | 0 <= i < |a.kids| ::
                 SameName(a.kids[i].name, b.kids[p[i]].name, caseSensitive) && Same(a.kids[i], b.kids[p[i]], caseSensitive))
  }

  /** No object has a member without a name or two members of the same name. */
  predicate Unambiguous(t: Tree, caseSensitive: bool) {
    && (t.kind == Kind.Object ==> DistinctNames(Names(t.kids), caseSensitive))
    && forall i | 0 <= i < |t.kids| :: Unambiguous(t.kids[i], caseSensitive)
  }

  /** Every value has a type, and every string its text. */
  predicate Complete(t: Tree) {
    Known(t) && forall i | 0 <= i < |t.kids| :: Complete(t.kids[i])
  }

  predicate Known(t: Tree) {
    t.kind != Invalid && (t.kind == Kind.String || t.kind == Raw ==> t.valuestring.Some?)
  }

  lemma KnownIff(t: Tree)
    ensures Known(t) <==> SameLeaf(t, t)
  {
    CloseIsSymmetric(t.valuedouble, t.valuedouble);
  }

  /** On unambiguous trees `cJSON_Compare` decides sameness. */
  lemma {:induction false} EqualIffSame(a: Tree, b: Tree, caseSensitive: bool)
    requires Unambiguous(a, caseSensitive) && Unambiguous(b, caseSensitive)
    ensures Equal(a, b, caseSensitive) <==> Same(a, b, caseSensitive)
    decreases a
  {
    forall i, j | 0 <= i < |a.kids| && 0 <= j < |b.kids|
      ensures Equal(a.kids[i], b.kids[j], caseSensitive) == Same(a.kids[i], b.kids[j], caseSensitive)
    {
      EqualIffSame(a.kids[i], b.kids[j], caseSensitive);
    }
    SameLeafIffMatching(a, b);
    if a.kind == Kind.Object && SameLeaf(a, b) {
      if Equal(a, b, caseSensitive) {
        var p := FoundPairing(a, b, caseSensitive);
      }
      if Same(a, b, caseSensitive) {
        SameObjectsEqual(a, b, caseSensitive);
      }
    }
  }

  /** Members found by name, from either side, are paired one to one. */
  lemma FoundPairing(a: Tree, b: Tree, caseSensitive: bool) returns (p: seq<nat>)
    requires a.kind == b.kind == Kind.Object && Equal(a, b, caseSensitive)
    requires DistinctNames(Names(a.kids), caseSensitive) && DistinctNames(Names(b.kids), caseSensitive)
    ensures Pairing(p, |a.kids|, |b.kids|)
    ensures forall i | 0 <= i < |a.kids| ::
              SameName(a.kids[i].name, b.kids[p[i]].name, caseSensitive) && Equal(a.kids[i], b.kids[p[i]], caseSensitive)
  {
    var s, t := Names(a.kids), Names(b.kids);
    p := seq(|s|, i requires 0 <= i < |s| => Lookup(t, s[i], caseSensitive).value);
    forall i, j | 0 <= i < j < |s| ensures p[i] != p[j] {
      SameNameIsEquality(s[i], t[p[i]], s[j], caseSensitive);
      SameNameIsEquality(s[j], t[p[j]], s[i], caseSensitive);
    }
    forall j: nat | j < |t| ensures j in p {
      var i := Lookup(s, t[j], caseSensitive).value;
      SameNameIsEquality(s[i], t[j], s[i], caseSensitive);
      LookupFinds(t, s[i], caseSensitive, j);
      assert p[i] == j;
    }
  }

  /** Members that are paired one to one find each other by name. */
  lemma PairedFindEachOther(s: seq<Option<bytes>>, t: seq<Option<bytes>>, p: seq<nat>, caseSensitive: bool, i: nat)
    requires Pairing(p, |s|, |t|) && DistinctNames(s, caseSensitive) && DistinctNames(t, caseSensitive) && i < |s|
    requires SameName(s[i], t[p[i]], caseSensitive)
    ensures Lookup(t, s[i], caseSensitive) == Some(p[i]) && Lookup(s, t[p[i]], caseSensitive) == Some(i)
  {
    hide DistinctNames, Lookup, SameName;
    LookupFinds(t, s[i], caseSensitive, p[i]);
    SameNameIsEquality(s[i], t[p[i]], s[i], caseSensitive);
    LookupFinds(s, t[p[i]], caseSensitive, i);
  }

  lemma PairedFound(a: seq<Tree>, b: seq<Tree>, p: seq<nat>, caseSensitive: bool, i: nat)
    requires Pairing(p, |a|, |b|) && DistinctNames(Names(a), caseSensitive) && DistinctNames(Names(b), caseSensitive)
    requires i < |a| && SameName(a[i].name, b[p[i]].name, caseSensitive) && Equal(a[i], b[p[i]], caseSensitive)
    ensures FoundAt(a[i], b, caseSensitive) && FoundAt(b[p[i]], a, caseSensitive)
  {
    hide DistinctNames, Lookup, SameName, Equal, Pairing;
    assert p[i] < |b| by {
      PairingAt(p, |a|, |b|, i);
    }
    PairedFindEachOther(Names(a), Names(b), p, caseSensitive, i);
    EqualIsSymmetric(a[i], b[p[i]], caseSensitive);
  }

  lemma PairingAt(p: seq<nat>, n: nat, m: nat, i: nat)
    requires Pairing(p, n, m) && i < n
    ensures |p| == n && p[i] < m
  {
  }

  lemma PairingOnto(p: seq<nat>, n: nat, m: nat, j: nat) returns (i: nat)
    requires Pairing(p, n, m) && j < m
    ensures |p| == n && i < n && p[i] == j
  {
    assert j in p;
    i :| 0 <= i < |p| && p[i] == j;
  }

  lemma {:induction false} PairedObjectsEqual(a: Tree, b: Tree, p: seq<nat>, caseSensitive: bool)
    requires SameLeaf(a, b) && a.kind == Kind.Object && Pairing(p, |a.kids|, |b.kids|)
    requires DistinctNames(Names(a.kids), caseSensitive) && DistinctNames(Names(b.kids), caseSensitive)
    requires forall i | 0 <= i < |a.kids| ::
               SameName(a.kids[i].name, b.kids[p[i]].name, caseSensitive) && Equal(a.kids[i], b.kids[p[i]], caseSensitive)
    ensures Equal(a, b, caseSensitive)
  {
    hide DistinctNames, SameName, SameLeaf, Equal, FoundAt;
    forall i | 0 <= i < |a.kids| ensures FoundAt(a.kids[i], b.kids, caseSensitive) {
      PairedFound(a.kids, b.kids, p, caseSensitive, i);
    }
    forall j: nat | j < |b.kids| ensures FoundAt(b.kids[j], a.kids, caseSensitive) {
      var i := PairingOnto(p, |a.kids|, |b.kids|, j);
      PairedFound(a.kids, b.kids, p, caseSensitive, i);
    }
    ObjectsEqualIff(a, b, caseSensitive);
  }

  lemma {:induction false} SameObjectsEqual(a: Tree, b: Tree, caseSensitive: bool)
    requires a.kind == b.kind == Kind.Object && Same(a, b, caseSensitive)
    requires DistinctNames(Names(a.kids), caseSensitive) && DistinctNames(Names(b.kids), caseSensitive)
    requires forall i, j | 0 <= i < |a.kids| && 0 <= j < |b.kids| ::
               Equal(a.kids[i], b.kids[j], caseSensitive) == Same(a.kids[i], b.kids[j], caseSensitive)
    ensures Equal(a, b, caseSensitive)
  {
    hide DistinctNames, Lookup, SameName, Equal;
    SameLeafIffMatching(a, b);
    var p: seq<nat> :|
      && Pairing(p, |a.kids|, |b.kids|)
      && forall i | 0 <= i < |a.kids| ::
           SameName(a.kids[i].name, b.kids[p[i]].name, caseSensitive) && Same(a.kids[i], b.kids[p[i]], caseSensitive);
    PairedObjectsEqual(a, b, p, caseSensitive);
  }

  /** `b` is `a` with the members of its objects in other orders. */
  ghost predicate Reordered(a: Tree, b: Tree)
    decreases a
  {
    && a.(kids := []) == b.(kids := [])
    && |a.kids| == |b.kids|
    && exists p: seq<nat> ::
         && Pairing(p, |a.kids|, |b.kids|)
         && (a.kind != Kind.Object ==> forall i | 0 <= i < |p| :: p[i] == i)
         && forall i | 0 <= i < |a.kids| :: Reordered(a.kids[i], b.kids[p[i]])
  }

  lemma {:induction false} ReorderedIsSame(a: Tree, b: Tree, caseSensitive: bool)
    requires Reordered(a, b) && Complete(a) && Unambiguous(a, caseSensitive)
    ensures Same(a, b, caseSensitive) && Unambiguous(b, caseSensitive)
    decreases a
  {
    hide Same, Known, DistinctNames;
    var p: seq<nat> :|
      && Pairing(p, |a.kids|, |b.kids|)
      && (a.kind != Kind.Object ==> forall i | 0 <= i < |p| :: p[i] == i)
      && forall i | 0 <= i < |a.kids| :: Reordered(a.kids[i], b.kids[p[i]]);
    forall i | 0 <= i < |a.kids|
      ensures Same(a.kids[i], b.kids[p[i]], caseSensitive) && Unambiguous(b.kids[p[i]], caseSensitive)
      ensures a.kids[i].name == b.kids[p[i]].name
    {
      ReorderedIsSame(a.kids[i], b.kids[p[i]], caseSensitive);
    }
    SameByPairing(a, b, p, caseSensitive);
    UnambiguousByPairing(a, b, p, caseSensitive);
  }

  lemma SameByPairing(a: Tree, b: Tree, p: seq<nat>, caseSensitive: bool)
    requires a.(kids := []) == b.(kids := []) && Known(a) && |a.kids| == |b.kids| && Pairing(p, |a.kids|, |b.kids|)
    requires a.kind != Kind.Object ==> forall i | 0 <= i < |p| :: p[i] == i
    requires a.kind == Kind.Object ==> DistinctNames(Names(a.kids), caseSensitive)
    requires forall i | 0 <= i < |a.kids| ::
               Same(a.kids[i], b.kids[p[i]], caseSensitive) && a.kids[i].name == b.kids[p[i]].name
    ensures Same(a, b, caseSensitive)
  {
    KnownIff(a);
    SameLeafIffMatching(a, b);
    if a.kind == Kind.Object {
      forall i | 0 <= i < |a.kids| ensures SameName(a.kids[i].name, b.kids[p[i]].name, caseSensitive) {
        assert Names(a.kids)[i].Some?;
      }
    }
  }

  lemma UnambiguousByPairing(a: Tree, b: Tree, p: seq<nat>, caseSensitive: bool)
    requires a.(kids := []) == b.(kids := []) && Pairing(p, |a.kids|, |b.kids|)
    requires a.kind == Kind.Object ==> DistinctNames(Names(a.kids), caseSensitive)
    requires forall i | 0 <= i < |a.kids| ::
               Unambiguous(b.kids[p[i]], caseSensitive) && a.kids[i].name == b.kids[p[i]].name
    ensures Unambiguous(b, caseSensitive)
  {
    hide DistinctNames;
    forall j: nat | j < |b.kids| ensures Unambiguous(b.kids[j], caseSensitive) {
      var i := PairingOnto(p, |a.kids|, |b.kids|, j);
    }
    if a.kind == Kind.Object {
      ReorderedNames(Names(a.kids), Names(b.kids), p, caseSensitive);
    }
  }

  lemma ReorderedNames(s: seq<Option<bytes>>, t: seq<Option<bytes>>, p: seq<nat>, caseSensitive: bool)
    requires Pairing(p, |s|, |t|) && (forall i | 0 <= i < |s| :: s[i] == t[p[i]]) && DistinctNames(s, caseSensitive)
    ensures DistinctNames(t, caseSensitive)
  {
    forall j: nat | j < |t| ensures t[j].Some? {
      assert j in p;
      var i :| 0 <= i < |p| && p[i] == j;
    }
    forall j: nat, k: nat | j < k < |t| ensures !SameName(t[j], t[k], caseSensitive) {
      assert j in p && k in p;
      var i :| 0 <= i < |p| && p[i] == j;
      var l :| 0 <= l < |p| && p[l] == k;
      SameNameIsEquality(s[i], s[l], s[i], caseSensitive);
    }
  }

  /** A complete and unambiguous tree compares equal to every reordering of its members, itself included. */
  lemma ReorderedIsEqual(a: Tree, b: Tree, caseSensitive: bool)
    requires Reordered(a, b) && Complete(a) && Unambiguous(a, caseSensitive)
    ensures Equal(a, b, caseSensitive) && Equal(b, a, caseSensitive)
  {
    ReorderedIsSame(a, b, caseSensitive);
    EqualIffSame(a, b, caseSensitive);
    EqualIsSymmetric(a, b, caseSensitive);
  }

  lemma {:induction false} ReorderedIsReflexive(a: Tree)
    ensures Reordered(a, a)
  {
    forall i | 0 <= i < |a.kids| ensures Reordered(a.kids[i], a.kids[i]) {
      ReorderedIsReflexive(a.kids[i]);
    }
    var p: seq<nat> := seq(|a.kids|, (i: nat) => i);
    forall j: nat | j < |a.kids| ensures j in p {
      assert p[j] == j;
    }
    assert Pairing(p, |a.kids|, |a.kids|);
  }

  // Trees and their own copies.

  /** Every value has a type, every string its text and every member a name, and where a name comes again, it comes with
      the value it had first. */
  predicate Agrees(t: Tree, caseSensitive: bool) {
    && Known(t)
    && (t.kind == Kind.Array ==> forall i | 0 <= i < |t.kids| :: Agrees(t.kids[i], caseSensitive))
    && (t.kind == Kind.Object ==>
          forall i | 0 <= i < |t.kids| ::
            var j := Lookup(Names(t.kids), t.kids[i].name, caseSensitive);
            j.Some? &&
            if j.value == i then Agrees(t.kids[i], caseSensitive) else Equal(t.kids[i], t.kids[j.value], caseSensitive))
  }

  /** Exactly the trees that agree with themselves compare equal to their copies. */
  lemma {:induction false} SelfEqualIff(t: Tree, caseSensitive: bool)
    ensures Equal(t, t, caseSensitive) <==> Agrees(t, caseSensitive)
  {
    KnownIff(t);
    forall i | 0 <= i < |t.kids| ensures Equal(t.kids[i], t.kids[i], caseSensitive) <==> Agrees(t.kids[i], caseSensitive) {
      SelfEqualIff(t.kids[i], caseSensitive);
    }
    forall i, j | 0 <= i < |t.kids| && 0 <= j < |t.kids|
      ensures Equal(t.kids[i], t.kids[j], caseSensitive) == Equal(t.kids[j], t.kids[i], caseSensitive)
    {
      EqualIsSymmetric(t.kids[i], t.kids[j], caseSensitive);
    }
  }

  /** Distinct names are enough. */
  lemma UnambiguousAgrees(t: Tree, caseSensitive: bool)
    requires Complete(t) && Unambiguous(t, caseSensitive)
    ensures Agrees(t, caseSensitive)
  {
    hide *;
    ReorderedIsReflexive(t);
    ReorderedIsEqual(t, t, caseSensitive);
    SelfEqualIff(t, caseSensitive);
  }

  /** One name with two values: the search only ever finds the first, and the tree differs from its own copy. With one
      value twice it does not. */
  lemma TwiceTheSameName(caseSensitive: bool)
    ensures var one := Tree(Number, false, 1, 1.0, None, Some([97]), []);
            var two := Tree(Number, false, 2, 2.0, None, Some([97]), []);
            && !Equal(ObjectOf([one, two]), ObjectOf([one, two]), caseSensitive)
            && Equal(ObjectOf([one, one]), ObjectOf([one, one]), caseSensitive)
  {
    var one := Tree(Number, false, 1, 1.0, None, Some([97]), []);
    var two := Tree(Number, false, 2, 2.0, None, Some([97]), []);
    var t, u := ObjectOf([one, two]), ObjectOf([one, one]);
    assert SameName(two.name, Names(t.kids)[0], caseSensitive) && Lookup(Names(t.kids), two.name, caseSensitive) == Some(0);
    assert t.kids[1] == two && !CloseNumbers(2.0, 1.0);
    assert !Equal(two, one, caseSensitive);
    assert SameName(one.name, Names(u.kids)[0], caseSensitive) && Lookup(Names(u.kids), one.name, caseSensitive) == Some(0);
    CloseIsSymmetric(1.0, 1.0);
    assert Equal(one, one, caseSensitive);
    assert forall i | 0 <= i < 2 :: u.kids[i] == one;
  }

  function ObjectOf(members: seq<Tree>): Tree {
    Tree(Kind.Object, false, 0, 0.0, None, None, members)
  }

  // Nodes that two trees share.

  /** A tree that remembers which node each part of it is. */
  datatype Marked = Marked(node: CJsonNodes.Node, leaf: Tree, kids: seq<Marked>)

  function Plain(m: Marked): Tree {
    m.leaf.(kids := Plains(m.kids))
  }

  function Plains(kids: seq<Marked>): (r: seq<Tree>)
    ensures |r| == |kids| && forall i | 0 <= i < |r| :: r[i] == Plain(kids[i])
  {
    seq(|kids|, i requires 0 <= i < |kids| => Plain(kids[i]))
  }

  ghost function Mark(sh: Shape): Marked
    reads sh.node`kind, sh.node`stringIsConst, sh.node`valueint, sh.node`valuedouble, sh.node`valuestring, sh.node`name,
          NodesOf(sh.kids)
    decreases sh
  {
    var n := sh.node;
    Marked(n, Tree(n.kind, n.stringIsConst, n.valueint, n.valuedouble, n.valuestring, n.name, []), Marks(sh.kids))
  }

  ghost function Marks(kids: seq<Shape>): (r: seq<Marked>)
    reads NodesOf(kids)
    decreases kids
    ensures |r| == |kids|
  {
    seq(|kids|, i requires 0 <= i < |kids| reads NodesOf(kids) => Mark(kids[i]))
  }

  lemma {:induction false} PlainOfMark(sh: Shape)
    ensures Plain(Mark(sh)) == Content(sh)
    decreases sh
  {
    hide Nodes, NodesOf;
    forall i | 0 <= i < |sh.kids| ensures Plain(Mark(sh.kids[i])) == Content(sh.kids[i]) {
      PlainOfMark(sh.kids[i]);
    }
    assert Plains(Marks(sh.kids)) == Contents(sh.kids);
  }

  /** What `cJSON_Compare` answers in general: one and the same node is equal to itself without a further look. */
  predicate EqualAt(a: Marked, b: Marked, caseSensitive: bool)
    decreases a
  {
    if a.node == b.node then a.leaf.kind != Invalid && b.leaf.kind != Invalid
    else
      && SameLeaf(a.leaf, b.leaf)
      && (a.leaf.kind == Kind.Array ==>
            |a.kids| == |b.kids| && forall i | 0 <= i < |a.kids| :: EqualAt(a.kids[i], b.kids[i], caseSensitive))
      && (a.leaf.kind == Kind.Object ==>
            && (forall i | 0 <= i < |a.kids| ::
                  var j := Lookup(MarkedNames(b.kids), a.kids[i].leaf.name, caseSensitive);
                  j.Some? && EqualAt(a.kids[i], b.kids[j.value], caseSensitive))
            && (forall j | 0 <= j < |b.kids| ::
                  var i := Lookup(MarkedNames(a.kids), b.kids[j].leaf.name, caseSensitive);
                  i.Some? && EqualAt(a.kids[i.value], b.kids[j], caseSensitive)))
  }

  function MarkedNames(kids: seq<Marked>): (r: seq<Option<bytes>>)
    ensures |r| == |kids| && forall i | 0 <= i < |r| :: r[i] == kids[i].leaf.name
    ensures r == Names(Plains(kids))
  {
    var r := seq(|kids|, i requires 0 <= i < |kids| => kids[i].leaf.name);
    assert forall i | 0 <= i < |r| :: r[i] == Plains(kids)[i].name;
    r
  }

  lemma {:induction false} EqualAtIsSymmetric(a: Marked, b: Marked, caseSensitive: bool)
    ensures EqualAt(a, b, caseSensitive) == EqualAt(b, a, caseSensitive)
    decreases a
  {
    CloseIsSymmetric(a.leaf.valuedouble, b.leaf.valuedouble);
    forall i, j | 0 <= i < |a.kids| && 0 <= j < |b.kids|
      ensures EqualAt(a.kids[i], b.kids[j], caseSensitive) == EqualAt(b.kids[j], a.kids[i], caseSensitive)
    {
      EqualAtIsSymmetric(a.kids[i], b.kids[j], caseSensitive);
    }
  }

  /** Members again, now by `EqualAt`. */
  predicate MarkedFoundAt(e: Marked, t: seq<Marked>, caseSensitive: bool) {
    var j := Lookup(MarkedNames(t), e.leaf.name, caseSensitive);
    j.Some? && EqualAt(e, t[j.value], caseSensitive)
  }

  predicate MarkedFoundIn(s: seq<Marked>, t: seq<Marked>, caseSensitive: bool) {
    forall i | 0 <= i < |s| :: MarkedFoundAt(s[i], t, caseSensitive)
  }

  lemma MarkedObjectsIff(a: Marked, b: Marked, caseSensitive: bool)
    requires a.node != b.node && SameLeaf(a.leaf, b.leaf) && a.leaf.kind == Kind.Object
    ensures EqualAt(a, b, caseSensitive) <==>
            MarkedFoundIn(a.kids, b.kids, caseSensitive) && MarkedFoundIn(b.kids, a.kids, caseSensitive)
  {
    forall i, j | 0 <= i < |a.kids| && 0 <= j < |b.kids|
      ensures EqualAt(a.kids[i], b.kids[j], caseSensitive) == EqualAt(b.kids[j], a.kids[i], caseSensitive)
    {
      EqualAtIsSymmetric(a.kids[i], b.kids[j], caseSensitive);
    }
  }

  /** Leaves are compared by themselves. */
  lemma LeafFirst(a: Marked, b: Marked, caseSensitive: bool)
    ensures a.node == b.node ==>
              (EqualAt(a, b, caseSensitive) <==> a.leaf.kind != Invalid && b.leaf.kind != Invalid)
    ensures a.node != b.node && EqualAt(a, b, caseSensitive) ==> SameLeaf(a.leaf, b.leaf)
    ensures a.node != b.node && a.leaf.kind != Kind.Array && a.leaf.kind != Kind.Object ==>
              (EqualAt(a, b, caseSensitive) <==> SameLeaf(a.leaf, b.leaf))
    ensures a.node != b.node && a.leaf.kind == b.leaf.kind == Kind.Array ==>
              (EqualAt(a, b, caseSensitive) <==>
                 |a.kids| == |b.kids| && forall i | 0 <= i < |a.kids| :: EqualAt(a.kids[i], b.kids[i], caseSensitive))
  {
  }

  /** Where the two trees share a node, what hangs there agrees with itself. */
  predicate SharedAgrees(a: Marked, b: Marked, caseSensitive: bool)
    decreases a
  {
    if a.node == b.node then a == b && Agrees(Plain(a), caseSensitive)
    else forall i, j | 0 <= i < |a.kids| && 0 <= j < |b.kids| :: SharedAgrees(a.kids[i], b.kids[j], caseSensitive)
  }

  /** How the two relations are related, for one pair of parts. */
  predicate Related(a: Marked, b: Marked, exactly: bool, caseSensitive: bool) {
    && (Equal(Plain(a), Plain(b), caseSensitive) ==> EqualAt(a, b, caseSensitive))
    && (exactly ==> (EqualAt(a, b, caseSensitive) ==> Equal(Plain(a), Plain(b), caseSensitive)))
  }

  lemma FoundRelated(e: Marked, t: seq<Marked>, exactly: bool, caseSensitive: bool)
    requires forall j | 0 <= j < |t| :: Related(e, t[j], exactly, caseSensitive)
    ensures FoundAt(Plain(e), Plains(t), caseSensitive) ==> MarkedFoundAt(e, t, caseSensitive)
    ensures exactly ==> (MarkedFoundAt(e, t, caseSensitive) ==> FoundAt(Plain(e), Plains(t), caseSensitive))
  {
    hide Equal, EqualAt, Lookup;
    var j := Lookup(MarkedNames(t), e.leaf.name, caseSensitive);
    if j.Some? {
      assert Related(e, t[j.value], exactly, caseSensitive);
    }
  }

  lemma AllFoundRelated(s: seq<Marked>, t: seq<Marked>, exactly: bool, caseSensitive: bool)
    requires forall i, j | 0 <= i < |s| && 0 <= j < |t| :: Related(s[i], t[j], exactly, caseSensitive)
    ensures FoundIn(Plains(s), Plains(t), caseSensitive) ==> MarkedFoundIn(s, t, caseSensitive)
    ensures exactly ==> (MarkedFoundIn(s, t, caseSensitive) ==> FoundIn(Plains(s), Plains(t), caseSensitive))
  {
    hide FoundAt, MarkedFoundAt, Related;
    forall i | 0 <= i < |s|
      ensures FoundAt(Plains(s)[i], Plains(t), caseSensitive) ==> MarkedFoundAt(s[i], t, caseSensitive)
      ensures exactly ==> (MarkedFoundAt(s[i], t, caseSensitive) ==> FoundAt(Plains(s)[i], Plains(t), caseSensitive))
    {
      FoundRelated(s[i], t, exactly, caseSensitive);
    }
  }

  lemma RelatedBothWays(a: Marked, b: Marked, exactly: bool, caseSensitive: bool)
    ensures Related(a, b, exactly, caseSensitive) == Related(b, a, exactly, caseSensitive)
  {
    hide Equal, EqualAt;
    EqualIsSymmetric(Plain(a), Plain(b), caseSensitive);
    EqualAtIsSymmetric(a, b, caseSensitive);
  }

  /** From the parts to the whole. */
  lemma PartsRelated(a: Marked, b: Marked, exactly: bool, caseSensitive: bool)
    requires a.node != b.node
    requires forall i, j | 0 <= i < |a.kids| && 0 <= j < |b.kids| ::
               Related(a.kids[i], b.kids[j], exactly, caseSensitive)
    ensures Related(a, b, exactly, caseSensitive)
  {
    hide Equal, EqualAt, FoundIn, MarkedFoundIn;
    LeafFirst(a, b, caseSensitive);
    PlainLeafFirst(Plain(a), Plain(b), caseSensitive);
    if SameLeaf(a.leaf, b.leaf) && a.leaf.kind == Kind.Object {
      ObjectsEqualIff(Plain(a), Plain(b), caseSensitive);
      MarkedObjectsIff(a, b, caseSensitive);
      AllFoundRelated(a.kids, b.kids, exactly, caseSensitive);
      forall i, j | 0 <= i < |b.kids| && 0 <= j < |a.kids| ensures Related(b.kids[i], a.kids[j], exactly, caseSensitive) {
        RelatedBothWays(a.kids[j], b.kids[i], exactly, caseSensitive);
      }
      AllFoundRelated(b.kids, a.kids, exactly, caseSensitive);
    }
  }

  lemma PlainLeafFirst(a: Tree, b: Tree, caseSensitive: bool)
    ensures Equal(a, b, caseSensitive) ==> SameLeaf(a, b)
    ensures a.kind != Kind.Array && a.kind != Kind.Object ==> (Equal(a, b, caseSensitive) <==> SameLeaf(a, b))
    ensures a.kind == b.kind == Kind.Array ==>
              (Equal(a, b, caseSensitive) <==>
                 |a.kids| == |b.kids| && forall i | 0 <= i < |a.kids| :: Equal(a.kids[i], b.kids[i], caseSensitive))
  {
  }

  /** Trees that are equal by their contents compare equal whatever they share; and unless they share a part that differs
      from its own copy, the answer does not depend on what they share. */
  lemma {:induction false} SharingIsInvisible(a: Marked, b: Marked, caseSensitive: bool)
    ensures Equal(Plain(a), Plain(b), caseSensitive) ==> EqualAt(a, b, caseSensitive)
    ensures SharedAgrees(a, b, caseSensitive) ==>
              (EqualAt(a, b, caseSensitive) <==> Equal(Plain(a), Plain(b), caseSensitive))
    decreases a
  {
    hide Equal, EqualAt, Agrees;
    var exactly := SharedAgrees(a, b, caseSensitive);
    if a.node == b.node {
      SelfEqualIff(Plain(a), caseSensitive);
      LeafFirst(a, b, caseSensitive);
      PlainLeafFirst(Plain(a), Plain(b), caseSensitive);
    } else {
      forall i, j | 0 <= i < |a.kids| && 0 <= j < |b.kids|
        ensures Related(a.kids[i], b.kids[j], exactly, caseSensitive)
      {
        SharingIsInvisible(a.kids[i], b.kids[j], caseSensitive);
      }
      PartsRelated(a, b, exactly, caseSensitive);
    }
  }

  // The comparison itself.

  function Size(sh: Shape): nat {
    1 + SizeOf(sh.kids)
  }

  function SizeOf(kids: seq<Shape>): nat {
    if kids == [] then 0 else Size(kids[0]) + SizeOf(kids[1..])
  }

  lemma {:induction false} KidIsSmaller(kids: seq<Shape>, i: nat)
    requires i < |kids|
    ensures Size(kids[i]) <= SizeOf(kids)
  {
    if i > 0 {
      KidIsSmaller(kids[1..], i - 1);
    }
  }

  lemma FoundNone(s: seq<Marked>, t: seq<Marked>, caseSensitive: bool)
    requires s == []
    ensures MarkedFoundIn(s, t, caseSensitive)
  {
  }

  lemma FoundStep(s: seq<Marked>, t: seq<Marked>, caseSensitive: bool, k: nat)
    requires k < |s| && MarkedFoundIn(s[..k], t, caseSensitive)
    ensures var j := Lookup(MarkedNames(t), s[k].leaf.name, caseSensitive);
            MarkedFoundIn(s[..k + 1], t, caseSensitive) <==> j.Some? && EqualAt(s[k], t[j.value], caseSensitive)
    ensures MarkedFoundIn(s, t, caseSensitive) ==> MarkedFoundIn(s[..k + 1], t, caseSensitive)
  {
    hide Lookup, EqualAt;
    assert MarkedFoundIn(s[..k + 1], t, caseSensitive) <==> MarkedFoundAt(s[k], t, caseSensitive) by {
      hide MarkedFoundAt;
      assert forall i | 0 <= i < k :: s[..k][i] == s[i] == s[..k + 1][i];
    }
    assert forall i | 0 <= i < k :: s[..k][i] == s[i] == s[..k + 1][i];
  }

  lemma MarkAt(sh: Shape, i: nat)
    requires i < |sh.kids|
    ensures |Mark(sh).kids| == |sh.kids|
    ensures Mark(sh).kids[i] == Mark(sh.kids[i])
    ensures Mark(sh.kids[i]).leaf.name == sh.kids[i].node.name && Mark(sh.kids[i]).node == sh.kids[i].node
  {
  }

  lemma MarkLength(sh: Shape)
    ensures |Mark(sh).kids| == |sh.kids| && Mark(sh).node == sh.node
  {
  }

  /** What a kid takes over from its parent. */
  lemma KidAt(sh: Shape, i: nat)
    requires Unfolds(sh) && i < |sh.kids|
    ensures Unfolds(sh.kids[i]) && Nodes(sh.kids[i]) <= Nodes(sh) && Size(sh.kids[i]) < Size(sh)
    ensures sh.kids[i].node.next == CJsonNodes.NodeAt(Roots(sh.kids), i + 1)
  {
    hide Unfolds, Nodes;
    KidIsSmaller(sh.kids, i);
    UnfoldedKid(sh, i);
  }

  lemma NamesOfKids(sh: Shape)
    ensures CJsonNodes.NodeNames(Roots(sh.kids)) == MarkedNames(Mark(sh).kids)
  {
  }

  lemma ListOf(sh: Shape)
    requires Unfolds(sh)
    ensures CJsonNodes.Chain(sh.node.child, Roots(sh.kids)) && sh.node.child == CJsonNodes.NodeAt(Roots(sh.kids), 0)
  {
  }

  /** `cJSON_Compare`, on any two trees, also where they share nodes. */
  method Compare(a: CJsonNodes.Node?, b: CJsonNodes.Node?, caseSensitive: bool, ghost sa: Shape, ghost sb: Shape,
    ghost space: set<CJsonNodes.Node>)
    returns (same: bool)
    requires a != null ==> sa.node == a && Unfolds(sa) && Nodes(sa) <= space
    requires b != null ==> sb.node == b && Unfolds(sb) && Nodes(sb) <= space
    ensures same <==> a != null && b != null && EqualAt(Mark(sa), Mark(sb), caseSensitive)
    decreases Size(sa) + Size(sb), 2
  {
    hide Unfolds, Nodes, NodesOf, Size, SizeOf, Marks, EqualAt, CloseNumbers, MarkedFoundIn;
    BelowIsInside(sa);
    BelowIsInside(sb);
    if a == null || b == null || a.kind != b.kind {
      same := false;
      if a != null && b != null {
        LeafFirst(Mark(sa), Mark(sb), caseSensitive);
      }
      return;
    }
    LeafFirst(Mark(sa), Mark(sb), caseSensitive);
    if a.kind == Invalid {
      return false;
    }
    if a == b {
      return true;
    }
    match a.kind {
      case False | True | NULL =>
        same := true;
      case Number =>
        same := CloseNumbers(a.valuedouble, b.valuedouble);
      case String | Raw =>
        same := a.valuestring.Some? && b.valuestring.Some? && a.valuestring == b.valuestring;
      case Array =>
        same := CompareArrays(a, b, caseSensitive, sa, sb, space);
      case Object =>
        MarkedObjectsIff(Mark(sa), Mark(sb), caseSensitive);
        same := CompareMembers(a, b, caseSensitive, sa, sb, space);
        if same {
          same := CompareMembers(b, a, caseSensitive, sb, sa, space);
        }
    }
  }

  /** Elements pairwise; one list may be the longer. */
  method CompareArrays(a: CJsonNodes.Node, b: CJsonNodes.Node, caseSensitive: bool, ghost sa: Shape, ghost sb: Shape,
    ghost space: set<CJsonNodes.Node>)
    returns (same: bool)
    requires sa.node == a && Unfolds(sa) && sb.node == b && Unfolds(sb) && Nodes(sa) + Nodes(sb) <= space
    ensures var s, t := Mark(sa).kids, Mark(sb).kids;
            same <==> |s| == |t| && forall i | 0 <= i < |s| :: EqualAt(s[i], t[i], caseSensitive)
    decreases Size(sa) + Size(sb), 1
  {
    hide Unfolds, Nodes, NodesOf, Size, SizeOf, Marks, EqualAt, Mark, CJsonNodes.Chain;
    ListOf(sa);
    ListOf(sb);
    BelowIsInside(sa);
    BelowIsInside(sb);
    var aElement, bElement := a.child, b.child;
    ghost var k := 0;
    ghost var s, t := Mark(sa).kids, Mark(sb).kids;
    assert |s| == |sa.kids| && |t| == |sb.kids| by {
      MarkLength(sa);
      MarkLength(sb);
    }
    while aElement != null && bElement != null
      invariant k <= |sa.kids| && k <= |sb.kids|
      invariant aElement == CJsonNodes.NodeAt(Roots(sa.kids), k) && bElement == CJsonNodes.NodeAt(Roots(sb.kids), k)
      invariant Unfolds(sa) && Unfolds(sb) && Mark(sa).kids == s && Mark(sb).kids == t
      invariant forall i | 0 <= i < k :: EqualAt(s[i], t[i], caseSensitive)
      decreases |sa.kids| - k
    {
      KidAt(sa, k);
      KidAt(sb, k);
      var equal := Compare(aElement, bElement, caseSensitive, sa.kids[k], sb.kids[k], space);
      MarkAt(sa, k);
      MarkAt(sb, k);
      if !equal {
        return false;
      }
      aElement := aElement.next;
      bElement := bElement.next;
      k := k + 1;
    }
    same := aElement == bElement;
  }

  /** One of the two passes over the members: each one of `a` is looked up in `b`. */
  method CompareMembers(a: CJsonNodes.Node, b: CJsonNodes.Node, caseSensitive: bool, ghost sa: Shape, ghost sb: Shape,
    ghost space: set<CJsonNodes.Node>)
    returns (same: bool)
    requires sa.node == a && Unfolds(sa) && sb.node == b && Unfolds(sb) && Nodes(sa) + Nodes(sb) <= space
    ensures same <==> MarkedFoundIn(Mark(sa).kids, Mark(sb).kids, caseSensitive)
    decreases Size(sa) + Size(sb), 1
  {
    hide Lookup, SearchEnd, SameName, MarkedFoundIn, MarkedFoundAt, MarkedNames, EqualAt;
    hide Mark, Marks, Roots, Unfolds, Nodes, NodesOf, Size, SizeOf, CJsonNodes.Chain;
    ListOf(sa);
    ListOf(sb);
    BelowIsInside(sa);
    BelowIsInside(sb);
    var aElement := a.child;
    ghost var k := 0;
    ghost var s, t := Mark(sa).kids, Mark(sb).kids;
    assert |s| == |sa.kids| && |t| == |sb.kids| by {
      MarkLength(sa);
      MarkLength(sb);
    }
    FoundNone(s[..0], t, caseSensitive);
    while aElement != null
      invariant k <= |sa.kids| && aElement == CJsonNodes.NodeAt(Roots(sa.kids), k)
      invariant Unfolds(sa) && Unfolds(sb) && Mark(sa).kids == s && Mark(sb).kids == t
      invariant MarkedFoundIn(s[..k], t, caseSensitive)
      decreases |sa.kids| - k
    {
      MarkAt(sa, k);
      NamesOfKids(sb);
      ListOf(sb);
      ghost var j := Lookup(MarkedNames(t), aElement.name, caseSensitive);
      var bElement := CJsonNodes.GetObjectItem(b, aElement.name, caseSensitive, Roots(sb.kids));
      if bElement == null {
        FoundStep(s, t, caseSensitive, k);
        return false;
      }
      KidAt(sa, k);
      KidAt(sb, j.value);
      var equal := Compare(aElement, bElement, caseSensitive, sa.kids[k], sb.kids[j.value], space);
      MarkAt(sa, k);
      MarkAt(sb, j.value);
      FoundStep(s, t, caseSensitive, k);
      if !equal {
        return false;
      }
      aElement := aElement.next;
      k := k + 1;
    }
    assert s[..k] == s;
    same := true;
  }

  lemma {:induction false} ApartSharesNothing(s: Shape, t: Shape, caseSensitive: bool)
    requires Nodes(s) !! Nodes(t)
    ensures SharedAgrees(Mark(s), Mark(t), caseSensitive)
    decreases s
  {
    MarkLength(s);
    MarkLength(t);
    forall i, j | 0 <= i < |s.kids| && 0 <= j < |t.kids|
      ensures SharedAgrees(Mark(s).kids[i], Mark(t).kids[j], caseSensitive)
    {
      MarkAt(s, i);
      MarkAt(t, j);
      ApartSharesNothing(s.kids[i], t.kids[j], caseSensitive);
    }
  }

  /** Nor does sharing matter where names are distinct: a node that is in both trees has the same parts in both. */
  lemma {:induction false} UnambiguousSharing(s: Shape, t: Shape, caseSensitive: bool)
    requires Unfolds(s) && Unfolds(t) && Complete(Content(s)) && Unambiguous(Content(s), caseSensitive)
    ensures SharedAgrees(Mark(s), Mark(t), caseSensitive)
    decreases s
  {
    hide Unfolds, Nodes, NodesOf, Agrees, DistinctNames, Known;
    MarkLength(s);
    MarkLength(t);
    if s.node == t.node {
      UnfoldsOnce(s, t);
      PlainOfMark(s);
      UnambiguousAgrees(Content(s), caseSensitive);
    } else {
      forall i, j | 0 <= i < |s.kids| && 0 <= j < |t.kids|
        ensures SharedAgrees(Mark(s).kids[i], Mark(t).kids[j], caseSensitive)
      {
        MarkAt(s, i);
        MarkAt(t, j);
        UnfoldedKid(s, i);
        UnfoldedKid(t, j);
        assert Content(s.kids[i]) == Content(s).kids[i];
        UnambiguousSharing(s.kids[i], t.kids[j], caseSensitive);
      }
    }
  }

  /** A copy compares equal to its original, by either rule for names, exactly if there was room for it and the original
      agrees with itself by that rule. */
  method DuplicateThenCompare(item: CJsonNodes.Node, caseSensitive: bool, allocations: nat, ghost sh: Shape,
    ghost space: set<CJsonNodes.Node>)
    returns (same: bool)
    requires sh.node == item && Unfolds(sh) && Nodes(sh) <= space
    ensures same <==>
            allocations >= CJsonLinking.Cost(old(Content(sh))) && Agrees(old(Content(sh)), caseSensitive)
  {
    hide Owned, Unfolds, Nodes, NodesOf, Content, Contents, Equal, EqualAt, Agrees, Mark;
    BelowIsInside(sh);
    ghost var c := Content(sh);
    var copy, left;
    ghost var dup, made;
    copy, left, dup, made := CJsonDuplicate.Duplicate(item, true, allocations, sh, space);
    if copy == null {
      return false;
    }
    BelowIsInside(dup);
    OwnedUnfolds(dup);
    assert Content(dup) == c && Content(sh) == c;
    same := Compare(item, copy, caseSensitive, sh, dup, made + space);
    assert Content(dup) == c && Content(sh) == c;
    PlainOfMark(sh);
    PlainOfMark(dup);
    ApartSharesNothing(sh, dup, caseSensitive);
    SharingIsInvisible(Mark(sh), Mark(dup), caseSensitive);
    SelfEqualIff(c, caseSensitive);
  }
}
