/** What a cJSON node and the nodes below it hold, and the search for a member by name (cJSON.c:132-154, 1880-1910). */
module CJsonTree {
  import opened Bytes

  /** The low byte of a node's type; `Invalid` stands for every value that is none of the eight. */
  datatype Kind = Invalid | False | True | NULL | Number | String | Array | Object | Raw

  datatype Tree = Tree(
    kind: Kind,
    stringIsConst: bool,
    valueint: int,
    valuedouble: real,
    valuestring: Option<bytes>,
    name: Option<bytes>,
    kids: seq<Tree>)

  function ToLower(b: byte): byte {
    if 65 <= b <= 90 then b + 32 else b
  }

  /** What two names are compared by. */
  function Folded(name: bytes, caseSensitive: bool): (r: bytes)
    ensures |r| == |name|
  {
    if caseSensitive then name else seq(|name|, i requires 0 <= i < |name| => ToLower(name[i]))
  }

  /** `strcmp` or `case_insensitive_strcmp` answering zero; a missing name equals nothing. */
  predicate SameName(a: Option<bytes>, b: Option<bytes>, caseSensitive: bool) {
    a.Some? && b.Some? && Folded(a.value, caseSensitive) == Folded(b.value, caseSensitive)
  }

  /** One letter in two cases. */
  predicate TwoCases(a: byte, b: byte) {
    exists k :: 0 <= k < 26 && a as char == "abcdefghijklmnopqrstuvwxyz"[k] && b as char == "ABCDEFGHIJKLMNOPQRSTUVWXYZ"[k]
  }

  lemma CasesFold(a: byte, b: byte)
    ensures ToLower(a) == ToLower(b) <==> a == b || TwoCases(a, b) || TwoCases(b, a)
  {
    var small, large := "abcdefghijklmnopqrstuvwxyz", "ABCDEFGHIJKLMNOPQRSTUVWXYZ";
    assert forall k | 0 <= k < 26 :: small[k] == (97 + k) as char && large[k] == (65 + k) as char;
    if ToLower(a) == ToLower(b) && a < b {
      assert small[a - 65] == b as char && large[a - 65] == a as char;
    } else if ToLower(a) == ToLower(b) && b < a {
      assert small[b - 65] == a as char && large[b - 65] == b as char;
    }
  }

  /** Names are the same byte by byte, or, where case does not matter, but for the cases of the letters A to Z. */
  lemma SameNameIff(a: Option<bytes>, b: Option<bytes>, caseSensitive: bool)
    ensures SameName(a, b, caseSensitive) <==>
            && a.Some? && b.Some? && |a.value| == |b.value|
            && forall i | 0 <= i < |a.value| ::
                 var x, y := a.value[i], b.value[i];
                 x == y || (!caseSensitive && (TwoCases(x, y) || TwoCases(y, x)))
  {
    hide ToLower, TwoCases;
    if a.Some? && b.Some? && |a.value| == |b.value| {
      var s, t := a.value, b.value;
      var u, v := Folded(s, caseSensitive), Folded(t, caseSensitive);
      forall i | 0 <= i < |s|
        ensures u[i] == v[i] <==> s[i] == t[i] || (!caseSensitive && (TwoCases(s[i], t[i]) || TwoCases(t[i], s[i])))
      {
        CasesFold(s[i], t[i]);
      }
      assert u == v <==> forall i | 0 <= i < |u| :: u[i] == v[i];
    }
  }

  lemma SameNameIsEquality(a: Option<bytes>, b: Option<bytes>, c: Option<bytes>, caseSensitive: bool)
    ensures SameName(a, b, caseSensitive) == SameName(b, a, caseSensitive)
    ensures SameName(a, b, caseSensitive) ==> SameName(b, c, caseSensitive) == SameName(a, c, caseSensitive)
  {
  }

  /** Where `get_object_item` ends: at a match or, if case matters, at the first element that has no name. */
  predicate SearchStops(names: seq<Option<bytes>>, name: Option<bytes>, caseSensitive: bool, i: nat)
    requires i < |names|
  {
    SameName(name, names[i], caseSensitive) || (caseSensitive && names[i].None?)
  }

  /** The first element from `k` on at which the search stops, or the number of elements. */
  function SearchEnd(names: seq<Option<bytes>>, name: Option<bytes>, caseSensitive: bool, k: nat): (r: nat)
    requires k <= |names|
    ensures k <= r <= |names|
    ensures forall i | k <= i < r :: !SearchStops(names, name, caseSensitive, i)
    ensures forall i | k <= i < r :: !SameName(name, names[i], caseSensitive)
    ensures r < |names| ==> SearchStops(names, name, caseSensitive, r)
    decreases |names| - k
  {
    if k == |names| || SearchStops(names, name, caseSensitive, k) then k
    else SearchEnd(names, name, caseSensitive, k + 1)
  }

  /** `get_object_item`: the index of the member found. */
  function Lookup(names: seq<Option<bytes>>, name: Option<bytes>, caseSensitive: bool): (r: Option<nat>)
    ensures r.Some? ==> name.Some? && r.value < |names| && SameName(name, names[r.value], caseSensitive)
    ensures r.Some? ==> forall i | 0 <= i < r.value :: !SameName(name, names[i], caseSensitive)
  {
    var k := SearchEnd(names, name, caseSensitive, 0);
    if name.Some? && k < |names| && names[k].Some? then Some(k) else None
  }

  /** Which element is found: the first one of that name, but no element behind one without a name if case matters. */
  lemma {:induction false} LookupIff(names: seq<Option<bytes>>, name: Option<bytes>, caseSensitive: bool, k: nat)
    ensures Lookup(names, name, caseSensitive) == Some(k) <==>
            && k < |names| && SameName(name, names[k], caseSensitive)
            && forall i | 0 <= i < k :: !SameName(name, names[i], caseSensitive) && (caseSensitive ==> names[i].Some?)
  {
    hide Folded;
    var end := SearchEnd(names, name, caseSensitive, 0);
    if k < |names| && SameName(name, names[k], caseSensitive) {
      assert SearchStops(names, name, caseSensitive, k);
      if end < k {
        assert SameName(name, names[end], caseSensitive) || (caseSensitive && names[end].None?);
      }
    }
    forall i | 0 <= i < end ensures !SameName(name, names[i], caseSensitive) && (caseSensitive ==> names[i].Some?) {
      assert !SearchStops(names, name, caseSensitive, i);
    }
  }

  /** Every member has a name, and no two the same one: what makes the members of an object a map. */
  predicate DistinctNames(names: seq<Option<bytes>>, caseSensitive: bool) {
    && (forall i | 0 <= i < |names| :: names[i].Some?)
    && forall i, j | 0 <= i < j < |names| :: !SameName(names[i], names[j], caseSensitive)
  }

  /** Among distinct names the search finds exactly the members that are there. */
  lemma LookupFinds(names: seq<Option<bytes>>, name: Option<bytes>, caseSensitive: bool, i: nat)
    requires DistinctNames(names, caseSensitive) && i < |names|
    ensures SameName(name, names[i], caseSensitive) <==> Lookup(names, name, caseSensitive) == Some(i)
  {
    var k := SearchEnd(names, name, caseSensitive, 0);
    if SameName(name, names[i], caseSensitive) {
      assert SearchStops(names, name, caseSensitive, i);
      assert SearchStops(names, name, caseSensitive, k);
      assert k < i ==> !SameName(names[k], names[i], caseSensitive);
    }
  }
}
