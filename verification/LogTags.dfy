/** Tag levels of the log library (log.c:101-203, 275-278) as plain values: the settings, a cache kept in order of use,
    and why a reader of the log cannot tell that there is a cache. */
module LogTags {
  import opened Bytes

  /** ESP_LOG_NONE to ESP_LOG_VERBOSE */
  type Level = l: int | 0 <= l <= 5

  /** The address of a tag's characters. `text` gives the characters: lookups in the cache compare addresses, everything
      else compares characters. */
  type Ptr = nat

  datatype Rule = Rule(tag: string, level: Level)

  datatype Settings = Settings(default: Level, rules: seq<Rule>)

  const WILDCARD := "*"

  // ---------- settings ----------

  /** The first rule with this tag; the number of rules if there is none. */
  function Find(rules: seq<Rule>, tag: string): (i: nat)
    ensures i <= |rules|
    ensures i < |rules| ==> rules[i].tag == tag
    ensures forall k | 0 <= k < i :: rules[k].tag != tag
  {
    if rules == [] || rules[0].tag == tag then 0 else 1 + Find(rules[1..], tag)
  }

  predicate HasRule(s: Settings, tag: string) {
    Find(s.rules, tag) < |s.rules|
  }

  /** The slow answer: the first rule with the tag, or the default. */
  function LevelFor(s: Settings, tag: string): Level {
    if HasRule(s, tag) then s.rules[Find(s.rules, tag)].level else s.default
  }

  /** `esp_log_level_set` on the settings; `memory` says whether a new list entry can be had. */
  function SetLevel(s: Settings, tag: string, level: Level, memory: bool): Settings {
    if tag == WILDCARD then Settings(level, [])
    else if HasRule(s, tag) then s.(rules := s.rules[Find(s.rules, tag) := Rule(tag, level)])
    else if memory then s.(rules := [Rule(tag, level)] + s.rules)
    else s
  }

  /** Whether the call gets as far as the cache. */
  predicate Takes(s: Settings, tag: string, memory: bool) {
    tag != WILDCARD && (HasRule(s, tag) || memory)
  }

  lemma FindIs(rules: seq<Rule>, tag: string, i: nat)
    requires i < |rules| && rules[i].tag == tag && forall k | 0 <= k < i :: rules[k].tag != tag
    ensures Find(rules, tag) == i
  {
  }

  lemma FindNone(rules: seq<Rule>, tag: string)
    requires forall k | 0 <= k < |rules| :: rules[k].tag != tag
    ensures Find(rules, tag) == |rules|
  {
  }

  /** What a call of `esp_log_level_set` means for every tag: the wildcard sets all of them, another tag only its own. */
  lemma SetLevelMeaning(s: Settings, tag: string, level: Level, memory: bool, other: string)
    ensures LevelFor(SetLevel(s, tag, level, memory), other) ==
            if tag == WILDCARD || (tag == other && Takes(s, tag, memory)) then level else LevelFor(s, other)
  {
    var s' := SetLevel(s, tag, level, memory);
    if tag != WILDCARD && Takes(s, tag, memory) {
      var i, j := Find(s.rules, tag), Find(s.rules, other);
      if HasRule(s, tag) {
        if tag == other {
          FindIs(s'.rules, other, i);
        } else if j < |s.rules| {
          FindIs(s'.rules, other, j);
        } else {
          FindNone(s'.rules, other);
        }
      } else if tag == other {
        FindIs(s'.rules, other, 0);
      } else if j < |s.rules| {
        FindIs(s'.rules, other, j + 1);
      } else {
        FindNone(s'.rules, other);
      }
    }
  }

  // ---------- the cache in order of use ----------

  datatype Item = Item(tag: Ptr, level: Level)

  /** `items` goes from the next one to be evicted to the one used last. */
  datatype State = State(settings: Settings, items: seq<Item>)

  predicate Distinct(items: seq<Item>) {
    forall i, j | 0 <= i < j < |items| :: items[i].tag != items[j].tag
  }

  function Position(items: seq<Item>, tag: Ptr): (i: nat)
    ensures i <= |items|
    ensures i < |items| ==> items[i].tag == tag
    ensures forall k | 0 <= k < i :: items[k].tag != tag
  {
    if items == [] || items[0].tag == tag then 0 else 1 + Position(items[1..], tag)
  }

  predicate Cached(items: seq<Item>, tag: Ptr) {
    Position(items, tag) < |items|
  }

  function MoveToBack<T>(s: seq<T>, i: nat): seq<T>
    requires i < |s|
  {
    s[..i] + s[i + 1..] + [s[i]]
  }

  /** One lookup by `esp_log_writev`: the level found, and the cache afterwards. Hits reorder a full cache only. */
  function Use(text: Ptr -> string, size: nat, st: State, tag: Ptr): (r: (State, Level))
    requires size > 0
  {
    var i := Position(st.items, tag);
    if i < |st.items| then
      (if |st.items| == size then st.(items := MoveToBack(st.items, i)) else st, st.items[i].level)
    else
      var level := LevelFor(st.settings, text(tag));
      (st.(items := (if |st.items| < size then st.items else st.items[1..]) + [Item(tag, level)]), level)
  }

  /** `esp_log_level_set` on the whole state; `hit` is the cached tag that is updated, the first whose characters match. */
  function Set(st: State, tag: string, level: Level, memory: bool, hit: Option<Ptr>): State {
    var settings := SetLevel(st.settings, tag, level, memory);
    if tag == WILDCARD then State(settings, [])
    else if !Takes(st.settings, tag, memory) || hit == None || !Cached(st.items, hit.value) then
      State(settings, st.items)
    else State(settings, st.items[Position(st.items, hit.value) := Item(hit.value, level)])
  }

  /** Which cached tag the comparison of characters can stop at. */
  predicate Matches(text: Ptr -> string, items: seq<Item>, tag: string, hit: Option<Ptr>) {
    match hit
    case Some(p) => Cached(items, p) && text(p) == tag
    case None => forall i | 0 <= i < |items| :: text(items[i].tag) != tag
  }

  // ---------- the cache answers as the list would ----------

  predicate Coherent(text: Ptr -> string, st: State) {
    forall i | 0 <= i < |st.items| :: st.items[i].level == LevelFor(st.settings, text(st.items[i].tag))
  }

  lemma UseKeeps(text: Ptr -> string, size: nat, st: State, tag: Ptr)
    requires size > 0 && |st.items| <= size && Distinct(st.items) && Coherent(text, st)
    ensures
      var (st', level) := Use(text, size, st, tag);
      && level == LevelFor(st.settings, text(tag)) && st'.settings == st.settings
      && |st'.items| <= size && Distinct(st'.items) && Coherent(text, st')
  {
    hide LevelFor;
    if Cached(st.items, tag) {
      assert st.items[Position(st.items, tag)].tag == tag;
    }
  }

  /** Using a tag that is not cached puts it behind the others, in place of the first one when there is no room. */
  lemma UseUncached(text: Ptr -> string, size: nat, st: State, tag: Ptr)
    requires size > 0 && !Cached(st.items, tag)
    ensures Use(text, size, st, tag).0 ==
            State(st.settings, (if |st.items| < size then st.items else st.items[1..]) +
                               [Item(tag, LevelFor(st.settings, text(tag)))])
  {
    hide LevelFor;
  }

  /** Setting a level keeps the cache coherent exactly when no other cached tag has the same characters, or the tag
      already had that level: the search through the cache stops at the first match. */
  lemma SetKeepsIff(
      text: Ptr -> string, st: State, tag: string, level: Level, memory: bool, hit: Option<Ptr>)
    requires Distinct(st.items) && Coherent(text, st)
    requires Takes(st.settings, tag, memory) ==> Matches(text, st.items, tag, hit)
    ensures Distinct(Set(st, tag, level, memory, hit).items)
    ensures Coherent(text, Set(st, tag, level, memory, hit)) <==>
            || tag == WILDCARD || !Takes(st.settings, tag, memory) || LevelFor(st.settings, tag) == level
            || forall i | 0 <= i < |st.items| && text(st.items[i].tag) == tag :: Some(st.items[i].tag) == hit
  {
    var st' := Set(st, tag, level, memory, hit);
    forall i | 0 <= i < |st.items|
      ensures LevelFor(st'.settings, text(st.items[i].tag)) ==
              if tag == WILDCARD || (tag == text(st.items[i].tag) && Takes(st.settings, tag, memory)) then level
              else st.items[i].level
    {
      SetLevelMeaning(st.settings, tag, level, memory, text(st.items[i].tag));
    }
    if tag != WILDCARD && Takes(st.settings, tag, memory) && LevelFor(st.settings, tag) != level {
      if i :| 0 <= i < |st.items| && text(st.items[i].tag) == tag && Some(st.items[i].tag) != hit {
        assert st'.items[i] == st.items[i];
      }
    }
  }

  // ---------- whole runs ----------

  datatype Op =
    | SetOp(tag: string, level: Level, memory: bool)
    | LogOp(ptr: Ptr, message: Level)

  /** What a run prints, one boolean per message, with the cache; `hits` are the cached tags its updates stop at ... */
  function CachedRun(text: Ptr -> string, size: nat, st: State, ops: seq<Op>, hits: seq<Option<Ptr>>): seq<bool>
    requires size > 0 && |hits| == |ops|
    decreases |ops|
  {
    if ops == [] then []
    else
      match ops[0]
      case SetOp(tag, level, memory) =>
        CachedRun(text, size, Set(st, tag, level, memory, hits[0]), ops[1..], hits[1..])
      case LogOp(tag, message) =>
        var (st', level) := Use(text, size, st, tag);
        [message <= level] + CachedRun(text, size, st', ops[1..], hits[1..])
  }

  /** ... and without. */
  function PlainRun(text: Ptr -> string, s: Settings, ops: seq<Op>): seq<bool>
    decreases |ops|
  {
    if ops == [] then []
    else
      match ops[0]
      case SetOp(tag, level, memory) => PlainRun(text, SetLevel(s, tag, level, memory), ops[1..])
      case LogOp(tag, message) => [message <= LevelFor(s, text(tag))] + PlainRun(text, s, ops[1..])
  }

  // What the messages depend on, told from the calls alone.

  /** Whether `past` has left an entry for the tag: it was set, with memory for the entry, and no wildcard came later. */
  predicate HasEntry(past: seq<Op>, tag: string)
    decreases |past|
  {
    past != [] &&
    var before, last := past[..|past| - 1], past[|past| - 1];
    if last.SetOp? && last.tag == "*" then false
    else (last.SetOp? && last.tag == tag && last.memory) || HasEntry(before, tag)
  }

  /** The level in force for a tag: that of the last call that named it or the wildcard and was not lost for want of memory,
      or else the level at the start. */
  function InForce(past: seq<Op>, tag: string, start: Level): Level
    decreases |past|
  {
    if past == [] then start
    else
      var before, last := past[..|past| - 1], past[|past| - 1];
      if last.SetOp? && (last.tag == "*" || (last.tag == tag && (last.memory || HasEntry(before, tag)))) then last.level
      else InForce(before, tag, start)
  }

  function Settled(s: Settings, ops: seq<Op>): Settings
    decreases |ops|
  {
    if ops == [] then s
    else
      match ops[0]
      case SetOp(tag, level, memory) => Settled(SetLevel(s, tag, level, memory), ops[1..])
      case LogOp(_, _) => Settled(s, ops[1..])
  }

  lemma {:induction false} RunSplits(text: Ptr -> string, s: Settings, a: seq<Op>, b: seq<Op>)
    ensures PlainRun(text, s, a + b) == PlainRun(text, s, a) + PlainRun(text, Settled(s, a), b)
    ensures Settled(s, a + b) == Settled(Settled(s, a), b)
    decreases |a|
  {
    hide SetLevel, LevelFor;
    if a == [] {
      assert a + b == b;
    } else {
      assert (a + b)[1..] == a[1..] + b;
      match a[0]
      case SetOp(tag, level, memory) => RunSplits(text, SetLevel(s, tag, level, memory), a[1..], b);
      case LogOp(_, _) => RunSplits(text, s, a[1..], b);
    }
  }

  lemma {:induction false} SettledIs(text: Ptr -> string, past: seq<Op>, tag: string, start: Level)
    requires tag != "*"
    ensures LevelFor(Settled(Settings(start, []), past), tag) == InForce(past, tag, start)
    ensures HasRule(Settled(Settings(start, []), past), tag) <==> HasEntry(past, tag)
    decreases |past|
  {
    hide SetLevel, LevelFor, HasRule;
    if past == [] {
      NoRules(start, tag);
    } else {
      var before, last := past[..|past| - 1], past[|past| - 1];
      assert past == before + [last] && [last][1..] == [];
      RunSplits(text, Settings(start, []), before, [last]);
      SettledIs(text, before, tag, start);
      if last.SetOp? {
        var s := Settled(Settings(start, []), before);
        SetLevelMeaning(s, last.tag, last.level, last.memory, tag);
        SetRules(s, last.tag, last.level, last.memory, tag);
      }
    }
  }

  lemma NoRules(start: Level, tag: string)
    ensures LevelFor(Settings(start, []), tag) == start && !HasRule(Settings(start, []), tag)
  {
  }

  lemma SetRules(s: Settings, tag: string, level: Level, memory: bool, other: string)
    ensures Takes(s, tag, memory) <==> tag != WILDCARD && (HasRule(s, tag) || memory)
    ensures HasRule(SetLevel(s, tag, level, memory), other) <==>
            tag != WILDCARD && (HasRule(s, other) || (tag == other && memory))
  {
    var s' := SetLevel(s, tag, level, memory);
    var i, j := Find(s.rules, tag), Find(s.rules, other);
    if tag != WILDCARD {
      if HasRule(s, tag) {
        assert forall k | 0 <= k < |s.rules| :: s'.rules[k].tag == s.rules[k].tag;
        assert j < |s.rules| ==> s'.rules[j].tag == other;
      } else if memory {
        assert forall k | 0 <= k < |s.rules| :: s'.rules[k + 1] == s.rules[k];
        assert s'.rules[0].tag == tag;
        assert j < |s.rules| ==> s'.rules[j + 1].tag == other;
        if HasRule(s', other) && tag != other {
          assert s'.rules[Find(s'.rules, other)] == s.rules[Find(s'.rules, other) - 1];
        }
      }
    }
  }

  /** After any calls a message is printed exactly if its level is at most the level in force for its tag. */
  lemma PrintedIff(text: Ptr -> string, past: seq<Op>, ptr: Ptr, message: Level, start: Level)
    requires text(ptr) != "*"
    ensures PlainRun(text, Settings(start, []), past + [LogOp(ptr, message)]) ==
            PlainRun(text, Settings(start, []), past) + [message <= InForce(past, text(ptr), start)]
  {
    hide InForce, LevelFor, HasRule, HasEntry;
    RunSplits(text, Settings(start, []), past, [LogOp(ptr, message)]);
    SettledIs(text, past, text(ptr), start);
    assert [LogOp(ptr, message)][1..] == [];
  }

  /** Each update that gets as far as the cache stops at a tag whose characters match, if there is one. */
  predicate Faithful(text: Ptr -> string, size: nat, st: State, ops: seq<Op>, hits: seq<Option<Ptr>>)
    requires size > 0 && |hits| == |ops|
    decreases |ops|
  {
    ops == [] ||
    match ops[0]
    case SetOp(tag, level, memory) =>
      && (Takes(st.settings, tag, memory) ==> Matches(text, st.items, tag, hits[0]))
      && Faithful(text, size, Set(st, tag, level, memory, hits[0]), ops[1..], hits[1..])
    case LogOp(tag, _) => Faithful(text, size, Use(text, size, st, tag).0, ops[1..], hits[1..])
  }

  /** Every tag string is passed through one address. */
  predicate OnePointer(text: Ptr -> string, tags: set<Ptr>) {
    forall p, q | p in tags && q in tags && text(p) == text(q) :: p == q
  }

  function TagsLogged(ops: seq<Op>): set<Ptr> {
    set op | op in ops && op.LogOp? :: op.ptr
  }

  function TagsOf(items: seq<Item>): set<Ptr> {
    set item | item in items :: item.tag
  }

  /** Over every run of level changes and log calls, failed allocations and wildcards included, exactly those messages
      are printed that an implementation without a cache would print. */
  lemma {:induction false} CacheIsInvisible(
      text: Ptr -> string, size: nat, st: State, ops: seq<Op>, hits: seq<Option<Ptr>>, tags: set<Ptr>)
    requires size > 0 && |hits| == |ops| && |st.items| <= size && Distinct(st.items) && Coherent(text, st)
    requires OnePointer(text, tags) && TagsOf(st.items) + TagsLogged(ops) <= tags
    requires Faithful(text, size, st, ops, hits)
    ensures CachedRun(text, size, st, ops, hits) == PlainRun(text, st.settings, ops)
    decreases |ops|
  {
    if ops != [] {
      assert TagsLogged(ops[1..]) <= TagsLogged(ops);
      match ops[0]
      case SetOp(tag, level, memory) =>
        SetStep(text, st, tag, level, memory, hits[0], tags);
        CacheIsInvisible(text, size, Set(st, tag, level, memory, hits[0]), ops[1..], hits[1..], tags);
      case LogOp(tag, _) =>
        UseKeeps(text, size, st, tag);
        var st' := Use(text, size, st, tag).0;
        assert ops[0] in ops;
        assert tag in TagsLogged(ops);
        UseTags(text, size, st, tag);
        CacheIsInvisible(text, size, st', ops[1..], hits[1..], tags);
    }
  }

  lemma UseTags(text: Ptr -> string, size: nat, st: State, tag: Ptr)
    requires size > 0
    ensures TagsOf(Use(text, size, st, tag).0.items) <= TagsOf(st.items) + {tag}
  {
  }

  lemma SetStep(text: Ptr -> string, st: State, tag: string, level: Level, memory: bool, hit: Option<Ptr>,
                tags: set<Ptr>)
    requires Distinct(st.items) && Coherent(text, st)
    requires Takes(st.settings, tag, memory) ==> Matches(text, st.items, tag, hit)
    requires OnePointer(text, tags) && TagsOf(st.items) <= tags
    ensures
      var st' := Set(st, tag, level, memory, hit);
      && st'.settings == SetLevel(st.settings, tag, level, memory)
      && Distinct(st'.items) && Coherent(text, st') && |st'.items| <= |st.items| && TagsOf(st'.items) <= TagsOf(st.items)
  {
    forall i | 0 <= i < |st.items| && text(st.items[i].tag) == tag && Takes(st.settings, tag, memory)
      ensures Some(st.items[i].tag) == hit
    {
      assert st.items[i] in st.items;
      assert st.items[i].tag in TagsOf(st.items);
      if hit.Some? {
        var k := Position(st.items, hit.value);
        assert st.items[k] in st.items;
        assert st.items[k].tag in TagsOf(st.items);
      }
    }
    SetKeepsIff(text, st, tag, level, memory, hit);
    var st' := Set(st, tag, level, memory, hit);
    forall p | p in TagsOf(st'.items) ensures p in TagsOf(st.items) {
      var k :| 0 <= k < |st'.items| && st'.items[k].tag == p;
      assert st.items[k].tag == p && st.items[k] in st.items;
    }
  }

  /** Two cached addresses with the same characters: an update reaches one, and the other keeps the old level. */
  lemma TwoPointersDiverge()
    ensures
      var text := (p: Ptr) => "wifi";
      var st := State(Settings(5, []), [Item(0, 5), Item(1, 5)]);
      var ops, hits := [SetOp("wifi", 1, true), LogOp(1, 3)], [Some(0), None];
      && Distinct(st.items) && Coherent(text, st) && Faithful(text, 3, st, ops, hits)
      && CachedRun(text, 3, st, ops, hits) == [true] && PlainRun(text, st.settings, ops) == [false]
  {
    var text := (p: Ptr) => "wifi";
    var st := State(Settings(5, []), [Item(0, 5), Item(1, 5)]);
    var ops, hits := [SetOp("wifi", 1, true), LogOp(1, 3)], [Some(0), None];
    var st' := Set(st, "wifi", 1, true, Some(0));
    assert "wifi" != WILDCARD by {
      assert |"wifi"| == 4;
    }
    assert Position(st.items, 0) == 0;
    assert st'.items == [Item(0, 1), Item(1, 5)];
    assert st'.settings == Settings(5, [Rule("wifi", 1)]);
    assert ops[1..] == [LogOp(1, 3)];
    assert Position(st'.items, 1) == 1 by {
      assert st'.items[1..][0] == Item(1, 5);
    }
    assert ops[1..][1..] == [];
    assert LevelFor(st'.settings, "wifi") == 1;
  }

  // ---------- least recently used ----------

  function Tags(items: seq<Item>): (r: seq<Ptr>)
    ensures |r| == |items| && forall i | 0 <= i < |items| :: r[i] == items[i].tag
  {
    seq(|items|, i requires 0 <= i < |items| => items[i].tag)
  }

  function Without(s: seq<Ptr>, p: Ptr): (r: seq<Ptr>)
    ensures p !in r && forall q | q != p :: q in r <==> q in s
  {
    if s == [] then [] else (if s[0] == p then [] else [s[0]]) + Without(s[1..], p)
  }

  /** The tags of a history in order of their last occurrence. */
  function ByLastUse(history: seq<Ptr>): (r: seq<Ptr>)
    ensures forall p :: p in r <==> p in history
  {
    if history == [] then []
    else
      var last := history[|history| - 1];
      assert history == history[..|history| - 1] + [last];
      Without(ByLastUse(history[..|history| - 1]), last) + [last]
  }

  /** The state after one call, ... */
  function Called(text: Ptr -> string, size: nat, st: State, op: Op, hit: Option<Ptr>): State
    requires size > 0
  {
    match op
    case SetOp(tag, level, memory) => Set(st, tag, level, memory, hit)
    case LogOp(tag, _) => Use(text, size, st, tag).0
  }

  /** ... and after a run. */
  function After(text: Ptr -> string, size: nat, st: State, ops: seq<Op>, hits: seq<Option<Ptr>>): State
    requires size > 0 && |hits| == |ops|
    decreases |ops|
  {
    if ops == [] then st else After(text, size, Called(text, size, st, ops[0], hits[0]), ops[1..], hits[1..])
  }

  lemma {:induction false} AfterLast(text: Ptr -> string, size: nat, st: State, ops: seq<Op>, hits: seq<Option<Ptr>>)
    requires size > 0 && |hits| == |ops| > 0
    ensures
      var n := |ops| - 1;
      After(text, size, st, ops, hits) == Called(text, size, After(text, size, st, ops[..n], hits[..n]), ops[n], hits[n])
    decreases |ops|
  {
    hide Called;
    var n := |ops| - 1;
    var next := Called(text, size, st, ops[0], hits[0]);
    if n == 0 {
      assert ops[1..] == [] && ops[..0] == [];
    } else {
      AfterLast(text, size, next, ops[1..], hits[1..]);
      assert ops[1..][..n - 1] == ops[..n][1..] && hits[1..][..n - 1] == hits[..n][1..];
      assert ops[..n][0] == ops[0] && hits[..n][0] == hits[0];
    }
  }

  /** The tags of the log calls, in order. */
  function Used(ops: seq<Op>): seq<Ptr>
    decreases |ops|
  {
    if ops == [] then []
    else Used(ops[..|ops| - 1]) + if ops[|ops| - 1].LogOp? then [ops[|ops| - 1].ptr] else []
  }

  /** No call clears the cache. */
  predicate NoWildcard(ops: seq<Op>) {
    forall i | 0 <= i < |ops| && ops[i].SetOp? :: ops[i].tag != WILDCARD
  }

  /** A level change that does not clear the cache leaves its tags and their order alone. */
  lemma SetKeepsTags(st: State, tag: string, level: Level, memory: bool, hit: Option<Ptr>)
    requires tag != WILDCARD
    ensures
      var st' := Set(st, tag, level, memory, hit);
      Tags(st'.items) == Tags(st.items) && |st'.items| == |st.items| && (Distinct(st.items) ==> Distinct(st'.items))
  {
    var st' := Set(st, tag, level, memory, hit);
    if hit.Some? && Cached(st.items, hit.value) {
      assert st.items[Position(st.items, hit.value)].tag == hit.value;
    }
    assert forall i | 0 <= i < |st.items| :: st'.items[i].tag == st.items[i].tag;
  }

  function LastN(s: seq<Ptr>, n: nat): seq<Ptr>
    requires n <= |s|
  {
    s[|s| - n..]
  }

  lemma {:induction false} WithoutFirst(s: seq<Ptr>, i: nat)
    requires i < |s| && forall k | 0 <= k < |s| && k != i :: s[k] != s[i]
    ensures Without(s, s[i]) == s[..i] + s[i + 1..]
  {
    if i == 0 {
      WithoutAbsent(s[1..], s[0]);
    } else {
      WithoutFirst(s[1..], i - 1);
      assert s[..i] == [s[0]] + s[1..][..i - 1];
    }
  }

  lemma {:induction false} WithoutAbsent(s: seq<Ptr>, p: Ptr)
    requires p !in s
    ensures Without(s, p) == s
  {
    if s != [] {
      WithoutAbsent(s[1..], p);
    }
  }

  predicate NoDuplicates(s: seq<Ptr>) {
    forall i, j | 0 <= i < j < |s| :: s[i] != s[j]
  }

  lemma {:induction false} WithoutNoDuplicates(s: seq<Ptr>, p: Ptr)
    requires NoDuplicates(s)
    ensures NoDuplicates(Without(s, p)) && |Without(s, p)| == |s| - if p in s then 1 else 0
  {
    if p in s {
      var i :| 0 <= i < |s| && s[i] == p;
      WithoutFirst(s, i);
    } else {
      WithoutAbsent(s, p);
    }
  }

  /** Removing a tag and putting it last, seen from the last `n` places. */
  lemma {:induction false} LastNStep(all: seq<Ptr>, n: nat, p: Ptr)
    requires 0 < n <= |all| && NoDuplicates(all)
    ensures |Without(all, p)| + 1 >= n
    ensures
      var tail := LastN(all, n);
      LastN(Without(all, p) + [p], n) == (if p in tail then Without(tail, p) else tail[1..]) + [p]
  {
    hide Without, NoDuplicates;
    WithoutNoDuplicates(all, p);
    if p in all {
      var i :| 0 <= i < |all| && all[i] == p;
      LastNPresent(all, n, i);
    } else {
      WithoutAbsent(all, p);
      assert p !in LastN(all, n);
    }
  }

  lemma TailOfLonger(s: seq<Ptr>, p: Ptr, cut: nat)
    requires cut <= |s|
    ensures (s + [p])[cut..] == s[cut..] + [p]
  {
  }

  lemma WithoutLate(all: seq<Ptr>, i: nat, cut: nat)
    requires cut <= i < |all|
    ensures (all[..i] + all[i + 1..])[cut..] == all[cut..][..i - cut] + all[cut..][i - cut + 1..]
  {
  }

  lemma WithoutEarly(all: seq<Ptr>, i: nat, cut: nat)
    requires i < cut < |all|
    ensures (all[..i] + all[i + 1..])[cut..] == all[cut..][1..]
  {
  }

  lemma LastNPresent(all: seq<Ptr>, n: nat, i: nat)
    requires 0 < n <= |all| && NoDuplicates(all) && i < |all|
    ensures |Without(all, all[i])| == |all| - 1
    ensures
      var tail := LastN(all, n);
      LastN(Without(all, all[i]) + [all[i]], n) ==
        (if all[i] in tail then Without(tail, all[i]) else tail[1..]) + [all[i]]
  {
    hide Without;
    var tail, cut, p := LastN(all, n), |all| - n, all[i];
    WithoutFirst(all, i);
    assert forall k | 0 <= k < n :: tail[k] == all[cut + k];
    if i >= cut {
      assert tail[i - cut] == p;
      WithoutFirst(tail, i - cut);
      WithoutLate(all, i, cut);
    } else {
      assert p !in tail;
      WithoutEarly(all, i, cut);
    }
    TailOfLonger(all[..i] + all[i + 1..], p, cut);
  }

  lemma {:induction false} ByLastUseNoDuplicates(history: seq<Ptr>)
    ensures NoDuplicates(ByLastUse(history))
  {
    if history != [] {
      var front := history[..|history| - 1];
      ByLastUseNoDuplicates(front);
      WithoutNoDuplicates(ByLastUse(front), history[|history| - 1]);
    }
  }

  /** A history without repetitions is already in order of last use. */
  lemma {:induction false} ByLastUseOfDistinct(history: seq<Ptr>)
    requires NoDuplicates(history)
    ensures ByLastUse(history) == history
  {
    if history != [] {
      var front := history[..|history| - 1];
      ByLastUseOfDistinct(front);
      WithoutAbsent(front, history[|history| - 1]);
    }
  }

  lemma {:induction false} UseReorders(text: Ptr -> string, size: nat, st: State, tag: Ptr)
    requires size > 0 && |st.items| == size && Distinct(st.items)
    ensures
      var st' := Use(text, size, st, tag).0;
      var tags := Tags(st.items);
      && |st'.items| == size && Distinct(st'.items)
      && Tags(st'.items) == (if tag in tags then Without(tags, tag) else tags[1..]) + [tag]
  {
    hide Without;
    var tags, i := Tags(st.items), Position(st.items, tag);
    var st' := Use(text, size, st, tag).0;
    if i < size {
      assert tags[i] == tag;
      WithoutFirst(tags, i);
      assert Tags(st'.items) == tags[..i] + tags[i + 1..] + [tag];
    } else {
      assert tag !in tags;
      assert Tags(st'.items) == tags[1..] + [tag];
    }
  }

  /** From the moment the cache is full until it is cleared, over every run of log calls and level changes, it holds the
      `size` tags used most recently, in that order; the tags it was filled with count as used in the order they came
      in. */
  lemma {:induction false} KeepsMostRecent(
      text: Ptr -> string, size: nat, st: State, ops: seq<Op>, hits: seq<Option<Ptr>>)
    requires size > 0 && |hits| == |ops| && |st.items| == size && Distinct(st.items) && NoWildcard(ops)
    ensures
      var st' := After(text, size, st, ops, hits);
      var recent := ByLastUse(Tags(st.items) + Used(ops));
      && |st'.items| == size && Distinct(st'.items) && |recent| >= size && Tags(st'.items) == LastN(recent, size)
    decreases |ops|
  {
    hide Without, Use, Set, After;
    var start := Tags(st.items);
    if ops == [] {
      assert start + Used(ops) == start && After(text, size, st, ops, hits) == st by {
        NothingAfter(text, size, st);
      }
      ByLastUseOfDistinct(start);
    } else {
      var n := |ops| - 1;
      var front, op := ops[..n], ops[n];
      KeepsMostRecent(text, size, st, front, hits[..n]);
      AfterLast(text, size, st, ops, hits);
      var before, history := After(text, size, st, front, hits[..n]), start + Used(front);
      match op {
        case SetOp(tag, level, memory) =>
          SetKeepsTags(before, tag, level, memory, hits[n]);
          assert start + Used(ops) == history;
        case LogOp(tag, _) =>
          UseReorders(text, size, before, tag);
          ByLastUseNoDuplicates(history);
          LastNStep(ByLastUse(history), size, tag);
          assert start + Used(ops) == history + [tag];
          assert (history + [tag])[..|history|] == history;
      }
    }
  }

  lemma NothingAfter(text: Ptr -> string, size: nat, st: State)
    requires size > 0
    ensures After(text, size, st, [], []) == st
  {
  }

  // ---------- filling up ----------

  /** The tags of a history in order of their first occurrence. */
  function ByFirstUse(history: seq<Ptr>): (r: seq<Ptr>)
    ensures forall p :: p in r <==> p in history
  {
    if history == [] then []
    else
      var front, last := history[..|history| - 1], history[|history| - 1];
      assert history == front + [last];
      if last in front then ByFirstUse(front) else ByFirstUse(front) + [last]
  }

  lemma {:induction false} ByFirstUseOfDistinct(history: seq<Ptr>)
    requires NoDuplicates(history)
    ensures ByFirstUse(history) == history
  {
    if history != [] {
      ByFirstUseOfDistinct(history[..|history| - 1]);
    }
  }

  lemma {:induction false} ByFirstUseGrows(history: seq<Ptr>, n: nat)
    requires n <= |history|
    ensures |ByFirstUse(history[..n])| <= |ByFirstUse(history)|
    decreases |history|
  {
    if n < |history| {
      ByFirstUseGrows(history[..|history| - 1], n);
      assert history[..|history| - 1][..n] == history[..n];
    } else {
      assert history[..n] == history;
    }
  }

  /** As long as there is room, the cache holds the tags used, in the order in which they came in. */
  lemma {:induction false} FillsInOrder(
      text: Ptr -> string, size: nat, st: State, ops: seq<Op>, hits: seq<Option<Ptr>>)
    requires size > 0 && |hits| == |ops| && Distinct(st.items) && NoWildcard(ops)
    requires |ByFirstUse(Tags(st.items) + Used(ops))| < size
    ensures
      var st' := After(text, size, st, ops, hits);
      Distinct(st'.items) && Tags(st'.items) == ByFirstUse(Tags(st.items) + Used(ops))
    decreases |ops|
  {
    hide Set, Use, After, Tags, Distinct;
    var start := Tags(st.items);
    if ops == [] {
      NothingAfter(text, size, st);
      assert start + Used(ops) == start;
      TagsDistinct(st.items);
      ByFirstUseOfDistinct(start);
    } else {
      var n := |ops| - 1;
      var front, op, history := ops[..n], ops[n], start + Used(ops[..n]);
      assert start + Used(ops) == history + if op.LogOp? then [op.ptr] else [];
      assert (start + Used(ops))[..|history|] == history;
      ByFirstUseGrows(start + Used(ops), |history|);
      FillsInOrder(text, size, st, front, hits[..n]);
      AfterLast(text, size, st, ops, hits);
      var before := After(text, size, st, front, hits[..n]);
      match op {
        case SetOp(tag, level, memory) =>
          SetKeepsTags(before, tag, level, memory, hits[n]);
          assert start + Used(ops) == history;
        case LogOp(tag, _) =>
          UseWithRoom(text, size, before, tag);
          assert (history + [tag])[..|history|] == history;
      }
    }
  }

  lemma TagsDistinct(items: seq<Item>)
    ensures NoDuplicates(Tags(items)) <==> Distinct(items)
  {
    assert forall i | 0 <= i < |items| :: Tags(items)[i] == items[i].tag;
  }

  lemma UseWithRoom(text: Ptr -> string, size: nat, st: State, tag: Ptr)
    requires |st.items| < size && Distinct(st.items)
    ensures
      var st', tags := Use(text, size, st, tag).0, Tags(st.items);
      Distinct(st'.items) && Tags(st'.items) == if tag in tags then tags else tags + [tag]
  {
    hide LevelFor;
    var i := Position(st.items, tag);
    if i < |st.items| {
      assert Tags(st.items)[i] == tag;
    }
  }
}
