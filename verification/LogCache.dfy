/** The tag cache of the log library (log.c:57-76, 101-203, 205-296): an array heap on generation numbers that behaves
    as the list in order of use of LogTags. The log lock makes every operation here atomic. */
module LogCache {
  import opened Bytes
  import opened LogTags

  datatype Entry = Entry(tag: Ptr, level: Level, generation: nat)

  // ---------- heaps of generations ----------

  function Parent(i: nat): (p: nat)
    requires i > 0
    ensures p < i && (i == 2 * p + 1 || i == 2 * p + 2)
  {
    (i - 1) / 2
  }

  /** The entry at `i` is newer than its parent. */
  predicate InOrder(a: seq<Entry>, i: nat)
    requires 0 < i < |a|
  {
    a[Parent(i)].generation < a[i].generation
  }

  predicate HeapOrdered(a: seq<Entry>) {
    forall i | 0 < i < |a| :: InOrder(a, i)
  }

  predicate Apart(a: seq<Entry>) {
    forall i, j | 0 <= i < j < |a| :: a[i].generation != a[j].generation && a[i].tag != a[j].tag
  }

  /** In a heap nothing is older than the root. */
  lemma {:induction false} RootIsOldest(a: seq<Entry>, i: nat)
    requires HeapOrdered(a) && i < |a|
    ensures a[0].generation <= a[i].generation
  {
    if i > 0 {
      assert InOrder(a, i);
      RootIsOldest(a, Parent(i));
    }
  }

  /** A heap in which the entry at `hole` may sit too high: it is the newest of all, its children are newer than its
      parent, and everything else is in order. */
  predicate HeapBut(a: seq<Entry>, hole: nat)
    requires hole < |a|
  {
    && (forall i | 0 < i < |a| && Parent(i) != hole :: InOrder(a, i))
    && (forall i | 0 <= i < |a| && i != hole :: a[i].generation < a[hole].generation)
    && (hole > 0 && 2 * hole + 1 < |a| ==> a[Parent(hole)].generation < a[2 * hole + 1].generation)
    && (hole > 0 && 2 * hole + 2 < |a| ==> a[Parent(hole)].generation < a[2 * hole + 2].generation)
  }

  /** Once the hole is a leaf, nothing is out of order. */
  lemma HoleAtLeaf(a: seq<Entry>, hole: nat)
    requires hole < |a| && HeapBut(a, hole) && |a| <= 2 * hole + 1
    ensures HeapOrdered(a)
  {
  }

  function Swap(a: seq<Entry>, i: nat, j: nat): (r: seq<Entry>)
    requires i < |a| && j < |a|
    ensures |r| == |a|
  {
    a[i := a[j]][j := a[i]]
  }

  lemma NotSameAge(a: seq<Entry>, i: nat, j: nat)
    requires Apart(a) && i < |a| && j < |a| && i != j
    ensures a[i].generation != a[j].generation
  {
  }

  lemma SwapIs(a: seq<Entry>, i: nat, j: nat, b: seq<Entry>)
    requires i < |a| == |b| && j < |a| && i != j && b[i] == a[j] && b[j] == a[i]
    requires forall k | 0 <= k < |a| && k != i && k != j :: b[k] == a[k]
    ensures b == Swap(a, i, j)
  {
  }

  lemma SwapKeeps(a: seq<Entry>, i: nat, j: nat)
    requires i < |a| && j < |a|
    ensures multiset(Swap(a, i, j)) == multiset(a)
    ensures Apart(a) ==> Apart(Swap(a, i, j))
  {
  }

  /** Moving the newest entry one level down along the older child leaves a heap but for the child's place. The newest
      entry needs no comparison: no child can be newer. */
  lemma BubbleStep(a: seq<Entry>, hole: nat, next: nat)
    requires 2 * hole + 2 < |a| && HeapBut(a, hole)
    requires a[2 * hole + 1].generation != a[2 * hole + 2].generation
    requires next == if a[2 * hole + 1].generation < a[2 * hole + 2].generation then 2 * hole + 1 else 2 * hole + 2
    ensures HeapBut(Swap(a, hole, next), next)
  {
    var b := Swap(a, hole, next);
    var other := 4 * hole + 3 - next;
    assert Parent(next) == hole && Parent(other) == hole && a[next].generation < a[other].generation;
    forall i | 0 < i < |b| && Parent(i) != next
      ensures InOrder(b, i)
    {
      if Parent(i) == hole {
        assert i == next || i == other;
      } else if i != hole {
        assert InOrder(a, i);
      }
    }
    forall i | 0 < i < |b| && Parent(i) == next
      ensures a[next].generation < b[i].generation
    {
      assert InOrder(a, i);
    }
    assert 2 * next + 1 < |b| ==> Parent(2 * next + 1) == next;
    assert 2 * next + 2 < |b| ==> Parent(2 * next + 2) == next;
  }

  // ---------- the cache against its order of use ----------

  predicate Sorted(order: seq<Entry>) {
    forall i, j | 0 <= i < j < |order| :: order[i].generation < order[j].generation
  }

  /** `order` lists the entries of the array from the oldest to the newest. */
  predicate Ordering(a: seq<Entry>, order: seq<Entry>) {
    multiset(a) == multiset(order) && Sorted(order)
  }

  lemma SameEntries(a: seq<Entry>, order: seq<Entry>, e: Entry)
    requires multiset(a) == multiset(order)
    ensures |a| == |order| && (e in a <==> e in order)
  {
    assert |a| == |multiset(a)| && |order| == |multiset(order)|;
    assert e in a <==> e in multiset(a);
    assert e in order <==> e in multiset(order);
  }

  lemma SameCount(a: seq<Entry>, order: seq<Entry>)
    requires Ordering(a, order)
    ensures |a| == |order|
  {
    assert |a| == |multiset(a)| && |order| == |multiset(order)|;
  }

  /** The root of the heap is the entry least recently used. */
  lemma RootIsFirst(a: seq<Entry>, order: seq<Entry>)
    requires a != [] && HeapOrdered(a) && Ordering(a, order)
    ensures |order| == |a| && order[0] == a[0]
  {
    SameEntries(a, order, a[0]);
    SameEntries(a, order, order[0]);
    assert a[0] in a && order[0] in order;
    var k :| 0 <= k < |order| && order[k] == a[0];
    var i :| 0 <= i < |a| && a[i] == order[0];
    RootIsOldest(a, i);
  }

  /** Giving one entry the newest generation moves it to the back of the order. */
  lemma RenewMoves(a: seq<Entry>, order: seq<Entry>, i: nat, k: nat, e: Entry)
    requires i < |a| && k < |order| && Ordering(a, order) && a[i] == order[k]
    requires forall j | 0 <= j < |a| :: a[j].generation < e.generation
    ensures Ordering(a[i := e], order[..k] + order[k + 1..] + [e])
  {
    MultisetOfUpdate(a, i, e);
    MultisetOfMove(order, k, e);
    assert multiset(a[i := e]) == multiset(order[..k] + order[k + 1..] + [e]);
    forall j | 0 <= j < |order| ensures order[j].generation < e.generation {
      OlderToo(a, order, j, e);
    }
  }

  lemma MultisetOfUpdate(a: seq<Entry>, i: nat, e: Entry)
    requires i < |a|
    ensures multiset(a[i := e]) == multiset(a) - multiset{a[i]} + multiset{e}
  {
  }

  lemma MultisetOfMove(order: seq<Entry>, k: nat, e: Entry)
    requires k < |order|
    ensures multiset(order[..k] + order[k + 1..] + [e]) == multiset(order) - multiset{order[k]} + multiset{e}
  {
    assert order == order[..k] + [order[k]] + order[k + 1..];
  }

  lemma OlderToo(a: seq<Entry>, order: seq<Entry>, j: nat, e: Entry)
    requires multiset(a) == multiset(order) && j < |order|
    requires forall i | 0 <= i < |a| :: a[i].generation < e.generation
    ensures order[j].generation < e.generation
  {
    SameEntries(a, order, order[j]);
    assert order[j] in order;
  }

  lemma AddNewest(a: seq<Entry>, order: seq<Entry>, e: Entry)
    requires Ordering(a, order) && forall j | 0 <= j < |a| :: a[j].generation < e.generation
    ensures Ordering(a + [e], order + [e])
  {
    assert multiset(a + [e]) == multiset(order + [e]);
    forall j | 0 <= j < |order| ensures order[j].generation < e.generation {
      OlderToo(a, order, j, e);
    }
  }

  function Strip(order: seq<Entry>): (r: seq<Item>)
    ensures |r| == |order| && forall i | 0 <= i < |r| :: r[i] == Item(order[i].tag, order[i].level)
  {
    seq(|order|, i requires 0 <= i < |order| => Item(order[i].tag, order[i].level))
  }

  /** Where a cached tag stands in the order of use. */
  lemma PlaceInOrder(a: seq<Entry>, order: seq<Entry>, i: nat) returns (k: nat)
    requires i < |a| && Ordering(a, order) && Apart(a)
    ensures k < |order| && order[k] == a[i] && Position(Strip(order), a[i].tag) == k
  {
    SameEntries(a, order, a[i]);
    assert a[i] in a;
    k :| 0 <= k < |order| && order[k] == a[i];
    var p := Position(Strip(order), a[i].tag);
    assert Strip(order)[k].tag == a[i].tag;
    assert p <= k;
    SameEntries(a, order, order[p]);
    assert order[p] in order;
    var j :| 0 <= j < |a| && a[j] == order[p];
    assert a[j].tag == a[i].tag;
    assert i == j;
  }

  lemma NotInOrder(a: seq<Entry>, order: seq<Entry>, tag: Ptr)
    requires Ordering(a, order) && forall i | 0 <= i < |a| :: a[i].tag != tag
    ensures Position(Strip(order), tag) == |order|
  {
    var p := Position(Strip(order), tag);
    if p < |order| {
      assert order[p] in order;
      SameEntries(a, order, order[p]);
    }
  }

  // ---------- the library ----------

  class LogLibrary {
    const text: Ptr -> string
    var defaultLevel: Level
    var rules: seq<Rule>
    var cache: array<Entry>
    var count: nat
    var maxGeneration: nat

    /** The entries from the least to the most recently used. */
    ghost var order: seq<Entry>

    ghost predicate Valid()
      reads this, cache
    {
      // TAG_CACHE_SIZE is 2^n - 1 with n >= 2; what the heap relies on is that it is odd.
      && cache.Length >= 3 && cache.Length % 2 == 1 && count <= cache.Length
      && HeapOrdered(cache[..count]) && Apart(cache[..count]) && Ordering(cache[..count], order)
      && (forall i | 0 <= i < count :: cache[i].generation < maxGeneration)
    }

    /** The state the rest of the world can observe. */
    ghost function Abstract(): State
      reads this
    {
      State(Settings(defaultLevel, rules), Strip(order))
    }

    constructor (text: Ptr -> string, size: nat)
      requires size >= 3 && size % 2 == 1
      ensures Valid() && this.text == text && cache.Length == size && fresh(cache)
      ensures Abstract() == State(Settings(5, []), [])
    {
      this.text, defaultLevel, rules := text, 5, [];
      cache := new Entry[size](_ => Entry(0, 0, 0));
      count, maxGeneration, order := 0, 0, [];
    }

    /** `heap_bubble_down`: the entry at `index` was just made the newest. */
    method HeapBubbleDown(index: nat)
      requires cache.Length % 2 == 1 && index < cache.Length
      requires Apart(cache[..]) && HeapBut(cache[..], index)
      modifies cache
      ensures HeapOrdered(cache[..]) && Apart(cache[..]) && multiset(cache[..]) == multiset(old(cache[..]))
    {
      hide HeapBut, Apart, HeapOrdered, Swap;
      var i := index;
      while i < cache.Length / 2
        invariant i < cache.Length && Apart(cache[..]) && HeapBut(cache[..], i)
        invariant multiset(cache[..]) == multiset(old(cache[..]))
        decreases cache.Length - i
      {
        var left := i * 2 + 1;
        var right := left + 1;
        var next := if cache[left].generation < cache[right].generation then left else right;
        ghost var before := cache[..];
        NotSameAge(before, left, right);
        BubbleStep(before, i, next);
        SwapKeeps(before, i, next);
        cache[i], cache[next] := cache[next], cache[i];
        SwapIs(before, i, next, cache[..]);
        i := next;
      }
      HoleAtLeaf(cache[..], i);
    }

    /** The lookup of `esp_log_writev`: the cache first, then the list, then the default; the cache is refreshed. */
    method LevelForTag(tag: Ptr) returns (level: Level)
      requires Valid()
      modifies this`count, this`maxGeneration, this`order, cache
      ensures Valid()
      ensures (Abstract(), level) == Use(text, cache.Length, old(Abstract()), tag)
    {
      var found;
      found, level := GetCached(tag);
      if !found {
        level := GetUncached(tag);
        AddToCache(tag, level);
      }
    }

    /** `esp_log_writev`: whether the message is printed. */
    method Write(message: Level, tag: Ptr) returns (printed: bool)
      requires Valid()
      modifies this`count, this`maxGeneration, this`order, cache
      ensures Valid() && Abstract() == Use(text, cache.Length, old(Abstract()), tag).0
      ensures printed <==> message <= Use(text, cache.Length, old(Abstract()), tag).1
    {
      var levelForTag := LevelForTag(tag);
      printed := message <= levelForTag;
    }

    static lemma OthersDiffer(a: seq<Entry>, i: nat)
      requires i < |a| && Apart(a)
      ensures forall j | 0 <= j < |a| && j != i :: a[j].tag != a[i].tag
    {
    }

    static lemma StripMove(order: seq<Entry>, k: nat, e: Entry)
      requires k < |order|
      ensures Strip(order[..k] + order[k + 1..] + [e]) ==
              Strip(order)[..k] + Strip(order)[k + 1..] + [Item(e.tag, e.level)]
    {
    }

    /** `get_cached_log_level` */
    method GetCached(tag: Ptr) returns (found: bool, level: Level)
      requires Valid()
      modifies this`maxGeneration, this`order, cache
      ensures Valid() && count == old(count)
      ensures found == Cached(old(Abstract()).items, tag)
      ensures found ==> (Abstract(), level) == Use(text, cache.Length, old(Abstract()), tag)
      ensures !found ==> Abstract() == old(Abstract()) && forall i | 0 <= i < count :: cache[i].tag != tag
    {
      hide HeapOrdered, Apart, Ordering, Strip;
      var i := 0;
      while i < count && cache[i].tag != tag
        invariant i <= count && forall k | 0 <= k < i :: cache[k].tag != tag
      {
        i := i + 1;
      }
      if i == count {
        NotInOrder(cache[..count], order, tag);
        return false, 0;
      }
      level := cache[i].level;
      ghost var k := PlaceInOrder(cache[..count], order, i);
      SameCount(cache[..count], order);
      if count == cache.Length {
        ghost var was := order;
        var e := cache[i].(generation := maxGeneration);
        OthersDiffer(cache[..count], i);
        Renew(i, k, e);
        StripMove(was, k, e);
      }
      found := true;
    }

    /** Overwrites a slot of the full cache with an entry of the newest generation and restores the heap. */
    method Renew(i: nat, ghost k: nat, e: Entry)
      requires Valid() && count == cache.Length && i < count && k < |order| && order[k] == cache[i]
      requires e.generation == maxGeneration
      requires forall j | 0 <= j < count && j != i :: cache[j].tag != e.tag
      modifies this`maxGeneration, this`order, cache
      ensures Valid() && order == old(order[..k] + order[k + 1..]) + [e]
    {
      ghost var before := cache[..];
      assert cache[..count] == before;
      RenewMoves(before, order, i, k, e);
      maxGeneration := maxGeneration + 1;
      cache[i] := e;
      assert cache[..] == before[i := e];
      HoleAt(before, i, e);
      ApartAt(before, i, e);
      HeapBubbleDown(i);
      order := order[..k] + order[k + 1..] + [e];
      assert cache[..count] == cache[..];
      forall j | 0 <= j < count ensures cache[j].generation < maxGeneration {
        assert cache[..][j] in multiset(cache[..]);
        assert cache[j] in multiset(before[i := e]);
        assert cache[j] in before[i := e];
      }
    }

    static lemma ApartAt(a: seq<Entry>, i: nat, e: Entry)
      requires i < |a| && Apart(a)
      requires forall j | 0 <= j < |a| :: a[j].generation < e.generation
      requires forall j | 0 <= j < |a| && j != i :: a[j].tag != e.tag
      ensures Apart(a[i := e])
    {
    }

    static lemma HoleAt(a: seq<Entry>, i: nat, e: Entry)
      requires i < |a| && HeapOrdered(a)
      requires forall j | 0 <= j < |a| :: a[j].generation < e.generation
      ensures HeapBut(a[i := e], i)
    {
      var b := a[i := e];
      forall j | 0 < j < |b| && Parent(j) != i ensures InOrder(b, j) {
        assert InOrder(a, j);
      }
      if i > 0 {
        assert InOrder(a, i);
        assert 2 * i + 1 < |b| ==> Parent(2 * i + 1) == i && InOrder(a, 2 * i + 1);
        assert 2 * i + 2 < |b| ==> Parent(2 * i + 2) == i && InOrder(a, 2 * i + 2);
      }
    }

    /** `get_uncached_log_level`, or the default. */
    method GetUncached(tag: Ptr) returns (level: Level)
      ensures level == LevelFor(Settings(defaultLevel, rules), text(tag))
    {
      var i := 0;
      while i < |rules| && rules[i].tag != text(tag)
        invariant i <= |rules| && forall k | 0 <= k < i :: rules[k].tag != text(tag)
      {
        i := i + 1;
      }
      if i < |rules| {
        FindIs(rules, text(tag), i);
        return rules[i].level;
      }
      FindNone(rules, text(tag));
      return defaultLevel;
    }

    /** `add_to_cache`: append while there is room, otherwise replace the root. */
    method AddToCache(tag: Ptr, level: Level)
      requires Valid() && forall i | 0 <= i < count :: cache[i].tag != tag
      requires !Cached(Strip(order), tag)
      requires level == LevelFor(Settings(defaultLevel, rules), text(tag))
      modifies this`count, this`maxGeneration, this`order, cache
      ensures Valid()
      ensures Abstract() == Use(text, cache.Length, old(Abstract()), tag).0
    {
      hide HeapOrdered, Apart, Ordering, Sorted, Strip, LevelFor, Use, Cached;
      var e := Entry(tag, level, maxGeneration);
      UseUncached(text, cache.Length, Abstract(), tag);
      ghost var was := order;
      SameCount(cache[..count], order);
      if count < cache.Length {
        Append(e);
        StripAdd(was, e);
      } else {
        ReplaceOldest(e);
        StripReplace(was, e);
      }
    }

    /** The second case: the root, which is the oldest entry, makes room. */
    method ReplaceOldest(e: Entry)
      requires Valid() && count == cache.Length && e.generation == maxGeneration
      requires forall i | 0 <= i < count :: cache[i].tag != e.tag
      modifies this`maxGeneration, this`order, cache
      ensures old(order) != [] && Valid() && order == old(order)[1..] + [e]
    {
      hide HeapOrdered, Apart, Ordering, Sorted;
      RootIsFirst(cache[..count], order);
      assert order[..0] + order[1..] == order[1..];
      Renew(0, 0, e);
    }

    static lemma StripReplace(order: seq<Entry>, e: Entry)
      requires order != []
      ensures Strip(order[1..] + [e]) == Strip(order)[1..] + [Item(e.tag, e.level)]
    {
    }

    /** The first case of `add_to_cache`: a free slot at the end. */
    method Append(e: Entry)
      requires Valid() && count < cache.Length && e.generation == maxGeneration
      requires forall i | 0 <= i < count :: cache[i].tag != e.tag
      modifies this`count, this`maxGeneration, this`order, cache
      ensures Valid() && order == old(order) + [e]
    {
      hide HeapOrdered, Apart, Ordering;
      ghost var before := cache[..count];
      maxGeneration := maxGeneration + 1;
      cache[count] := e;
      count := count + 1;
      assert cache[..count] == before + [e];
      AddNewest(before, order, e);
      HeapAddNewest(before, e);
      order := order + [e];
    }

    static lemma StripAdd(order: seq<Entry>, e: Entry)
      ensures Strip(order + [e]) == Strip(order) + [Item(e.tag, e.level)]
    {
    }

    /** Appending a new newest entry keeps the heap. */
    static lemma HeapAddNewest(a: seq<Entry>, e: Entry)
      requires HeapOrdered(a) && Apart(a)
      requires forall j | 0 <= j < |a| :: a[j].generation < e.generation && a[j].tag != e.tag
      ensures HeapOrdered(a + [e]) && Apart(a + [e])
    {
      ghost var b := a + [e];
      forall i | 0 < i < |b| ensures InOrder(b, i) {
        if i < |a| {
          assert InOrder(a, i);
        }
      }
    }

    /** `esp_log_level_set`; `memory` says whether a list entry can be allocated, `hit` is the cached tag whose level is
        updated, if any. */
    method LevelSet(tag: string, level: Level, memory: bool) returns (ghost hit: Option<Ptr>)
      requires Valid()
      modifies this, cache
      ensures Valid() && cache == old(cache)
      ensures Takes(old(Abstract()).settings, tag, memory) ==> Matches(text, old(Abstract()).items, tag, hit)
      ensures Abstract() == Set(old(Abstract()), tag, level, memory, hit)
    {
      hide HeapOrdered, Apart, Ordering;
      hit := None;
      if tag == WILDCARD {
        defaultLevel := level;
        ClearLevelList();
        return;
      }
      var it := 0;
      while it < |rules| && rules[it].tag != tag
        invariant it <= |rules| && forall k | 0 <= k < it :: rules[k].tag != tag
      {
        it := it + 1;
      }
      if it < |rules| {
        FindIs(rules, tag, it);
        rules := rules[it := Rule(tag, level)];
      } else {
        FindNone(rules, tag);
        if !memory {
          return;
        }
        rules := [Rule(tag, level)] + rules;
      }
      hit := UpdateCached(tag, level);
    }

    /** Any run of these calls: what is printed is what the abstract cache lets through, each update stopping where the
        library found a match. */
    method Execute(ops: seq<Op>) returns (printed: seq<bool>, ghost hits: seq<Option<Ptr>>)
      requires Valid()
      modifies this, cache
      ensures Valid() && cache == old(cache) && |hits| == |ops|
      ensures Faithful(text, cache.Length, old(Abstract()), ops, hits)
      ensures printed == CachedRun(text, cache.Length, old(Abstract()), ops, hits)
      ensures Abstract() == After(text, cache.Length, old(Abstract()), ops, hits)
      decreases |ops|
    {
      hide Valid, Use, Set, Matches, Takes;
      if ops == [] {
        return [], [];
      }
      var first := [];
      ghost var hit := None;
      match ops[0] {
        case SetOp(tag, level, memory) =>
          hit := LevelSet(tag, level, memory);
        case LogOp(tag, message) =>
          var flag := Write(message, tag);
          first := [flag];
      }
      var rest;
      ghost var restHits;
      rest, restHits := Execute(ops[1..]);
      printed, hits := first + rest, [hit] + restHits;
      assert hits[1..] == restHits;
    }

    /** Such a run on a full cache that it does not clear leaves in the cache the tags used most recently, in that order. */
    method ExecuteFull(ops: seq<Op>) returns (printed: seq<bool>)
      requires Valid() && count == cache.Length && NoWildcard(ops)
      modifies this, cache
      ensures Valid() && cache == old(cache)
      ensures var recent := ByLastUse(old(Tags(Strip(order))) + Used(ops));
              |recent| >= cache.Length && Tags(Strip(order)) == LastN(recent, cache.Length)
    {
      hide HeapOrdered, Sorted, After, ByLastUse, Used, NoWildcard, Tags, LastN;
      ghost var st := Abstract();
      OrderFits(cache[..count], order);
      ghost var hits;
      printed, hits := Execute(ops);
      KeepsMostRecent(text, cache.Length, st, ops, hits);
    }

    /** Such a run, where every string has one address, prints exactly what a library without a cache would print. */
    method Run(ops: seq<Op>, ghost tags: set<Ptr>) returns (printed: seq<bool>)
      requires Valid() && Coherent(text, Abstract())
      requires OnePointer(text, tags) && TagsOf(Abstract().items) + TagsLogged(ops) <= tags
      modifies this, cache
      ensures Valid() && cache == old(cache) && printed == PlainRun(text, old(Settings(defaultLevel, rules)), ops)
    {
      hide CachedRun, PlainRun, Faithful, Coherent, OnePointer, TagsOf, TagsLogged;
      ghost var st := Abstract();
      OrderFits(cache[..count], order);
      ghost var hits;
      printed, hits := Execute(ops);
      CacheIsInvisible(text, cache.Length, st, ops, hits, tags);
    }

    static lemma OrderFits(a: seq<Entry>, order: seq<Entry>)
      requires Ordering(a, order) && Apart(a)
      ensures |Strip(order)| == |a| && Distinct(Strip(order))
    {
      SameCount(a, order);
      forall i, j | 0 <= i < j < |order| ensures order[i].tag != order[j].tag {
        assert order[i] in order && order[j] in order;
        SameEntries(a, order, order[i]);
        SameEntries(a, order, order[j]);
        assert order[i].generation < order[j].generation;
      }
    }

    method ClearLevelList()
      requires Valid()
      modifies this`rules, this`count, this`maxGeneration, this`order
      ensures Valid() && rules == [] && order == []
    {
      rules, count, maxGeneration, order := [], 0, 0, [];
    }

    /** The last loop of `esp_log_level_set`: the first cached tag with these characters gets the level. */
    method UpdateCached(tag: string, level: Level) returns (ghost hit: Option<Ptr>)
      requires Valid()
      modifies this`order, cache
      ensures Valid() && Matches(text, old(Strip(order)), tag, hit)
      ensures Strip(order) == if hit == None then old(Strip(order))
                              else old(Strip(order))[Position(old(Strip(order)), hit.value) := Item(hit.value, level)]
    {
      hide HeapOrdered, Apart, Ordering, Strip;
      hit := None;
      var i := 0;
      while i < count && text(cache[i].tag) != tag
        invariant i <= count && forall k | 0 <= k < i :: text(cache[k].tag) != tag
      {
        i := i + 1;
      }
      ghost var before := cache[..count];
      if i < count {
        ghost var was := order;
        ghost var k := PlaceInOrder(before, order, i);
        var e := cache[i].(level := level);
        hit := Some(e.tag);
        cache[i] := e;
        assert cache[..count] == before[i := e];
        Relevel(before, order, i, k, e);
        SameCount(before, was);
        order := order[k := e];
        StripUpdate(was, k, e);
      } else {
        NoneMatches(text, before, order, tag);
      }
    }

    static lemma StripUpdate(order: seq<Entry>, k: nat, e: Entry)
      requires k < |order|
      ensures Strip(order[k := e]) == Strip(order)[k := Item(e.tag, e.level)]
    {
    }

    static lemma NoneMatches(text: Ptr -> string, a: seq<Entry>, order: seq<Entry>, tag: string)
      requires Ordering(a, order) && forall i | 0 <= i < |a| :: text(a[i].tag) != tag
      ensures Matches(text, Strip(order), tag, None)
    {
      forall k | 0 <= k < |order| ensures text(order[k].tag) != tag {
        SameEntries(a, order, order[k]);
        assert order[k] in order;
      }
    }

    static lemma Relevel(a: seq<Entry>, order: seq<Entry>, i: nat, k: nat, e: Entry)
      requires i < |a| && k < |order| && Ordering(a, order) && order[k] == a[i] && HeapOrdered(a) && Apart(a)
      requires e.tag == a[i].tag && e.generation == a[i].generation
      ensures Ordering(a[i := e], order[k := e]) && HeapOrdered(a[i := e]) && Apart(a[i := e])
    {
      assert multiset(a[i := e]) == multiset(a) - multiset{a[i]} + multiset{e};
      assert multiset(order[k := e]) == multiset(order) - multiset{order[k]} + multiset{e};
      ghost var b := a[i := e];
      forall j | 0 < j < |b| ensures InOrder(b, j) {
        assert InOrder(a, j);
      }
    }
  }

  /** From the start of the program on: no run of level changes and log calls shows that there is a cache. */
  method RunFromStart(text: Ptr -> string, size: nat, ops: seq<Op>) returns (printed: seq<bool>)
    requires size >= 3 && size % 2 == 1 && OnePointer(text, TagsLogged(ops))
    ensures printed == PlainRun(text, Settings(5, []), ops)
  {
    var library := new LogLibrary(text, size);
    printed := library.Run(ops, TagsLogged(ops));
  }
}
