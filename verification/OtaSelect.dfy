/** Which app boots next (esp_ota_ops.c:347-418, 457-518): two select entries, one per sector, and modular sequence
    numbers. The `bootloader_common_*` helpers are not in the repository; they are specified here from the comment at
    esp_ota_ops.c:386-400. */
module OtaSelect {
  import opened Bytes

  const WORD_LIMIT: nat := 0x1_0000_0000
  const BLANK_WORD: nat := 0xFFFF_FFFF
  const IMG_NEW: nat := 0
  const IMG_INVALID: nat := 3
  const IMG_ABORTED: nat := 4
  const IMG_UNDEFINED: nat := 0xFFFF_FFFF

  /** The fields of `esp_ota_select_entry_t` that selection looks at. */
  datatype Select = Select(otaSeq: nat, state: nat, crc: nat)

  /** The checksum of a sequence number. */
  type Crc = nat -> nat

  // ---------- valid and active entries ----------

  predicate Discarded(e: Select) {
    e.state == IMG_INVALID || e.state == IMG_ABORTED
  }

  /** `bootloader_common_ota_select_invalid` */
  predicate SelectInvalid(e: Select) {
    e.otaSeq == BLANK_WORD || Discarded(e)
  }

  predicate SelectValid(crc: Crc, e: Select) {
    !SelectInvalid(e) && e.crc == crc(e.otaSeq)
  }

  /** `bootloader_common_get_active_otadata`: the valid entry with the larger sequence number, -1 if there is none. */
  function Active(crc: Crc, e0: Select, e1: Select): (a: int)
    ensures -1 <= a <= 1
    ensures a == -1 <==> !SelectValid(crc, e0) && !SelectValid(crc, e1)
    ensures a == 0 ==> SelectValid(crc, e0) && (SelectValid(crc, e1) ==> e0.otaSeq >= e1.otaSeq)
    ensures a == 1 ==> SelectValid(crc, e1) && (SelectValid(crc, e0) ==> e1.otaSeq >= e0.otaSeq)
  {
    if SelectValid(crc, e0) && SelectValid(crc, e1) then (if e0.otaSeq >= e1.otaSeq then 0 else 1)
    else if SelectValid(crc, e0) then 0
    else if SelectValid(crc, e1) then 1
    else -1
  }

  // ---------- the boot partition ----------

  datatype Boot = Default | Slot(index: nat)

  /** The slot a sequence number stands for, with the subtraction on 32 bits. */
  function SlotOf(otaSeq: nat, appCount: nat): (slot: nat)
    requires appCount > 0
    ensures slot < appCount
  {
    (otaSeq + BLANK_WORD) % WORD_LIMIT % appCount
  }

  /** `esp_ota_get_boot_partition`, before the partition table is asked for the slot. */
  function BootOf(crc: Crc, e0: Select, e1: Select, appCount: nat): Boot {
    if (SelectInvalid(e0) && SelectInvalid(e1)) || appCount == 0 then Default
    else
      var a := Active(crc, e0, e1);
      if a == -1 then Default else Slot(SlotOf(if a == 0 then e0.otaSeq else e1.otaSeq, appCount))
  }

  /** An entry that may boot: not erased, not marked invalid (3) or aborted (4), with the checksum of its number. */
  predicate Bootable(crc: Crc, e: Select) {
    e.otaSeq != 0xFFFF_FFFF && e.state != 3 && e.state != 4 && e.crc == crc(e.otaSeq)
  }

  /** The slot before the number, counted around; number zero wraps to 2^32 - 1 first. */
  function SlotBefore(otaSeq: nat, appCount: nat): nat
    requires appCount > 0
  {
    (if otaSeq == 0 then 0xFFFF_FFFF else otaSeq - 1) % appCount
  }

  /** What boots, in terms of the fields: the slot of the larger number among the entries that may boot, or the default app
      if there is none or there are no slots. */
  lemma BootOfIs(crc: Crc, e0: Select, e1: Select, appCount: nat)
    requires e0.otaSeq < WORD_LIMIT && e1.otaSeq < WORD_LIMIT
    ensures BootOf(crc, e0, e1, appCount) == Default <==>
            appCount == 0 || (!Bootable(crc, e0) && !Bootable(crc, e1))
    ensures appCount > 0 && Bootable(crc, e0) && (Bootable(crc, e1) ==> e0.otaSeq >= e1.otaSeq) ==>
              BootOf(crc, e0, e1, appCount) == Slot(SlotBefore(e0.otaSeq, appCount))
    ensures appCount > 0 && Bootable(crc, e1) && (Bootable(crc, e0) ==> e1.otaSeq >= e0.otaSeq) ==>
              BootOf(crc, e0, e1, appCount) == Slot(SlotBefore(e1.otaSeq, appCount))
  {
    hide SlotOf, SlotBefore;
    if appCount > 0 {
      SlotOfIs(e0.otaSeq, appCount);
      SlotOfIs(e1.otaSeq, appCount);
    }
  }

  lemma SlotOfIs(otaSeq: nat, appCount: nat)
    requires otaSeq < WORD_LIMIT && appCount > 0
    ensures SlotOf(otaSeq, appCount) == SlotBefore(otaSeq, appCount)
  {
    assert (otaSeq + BLANK_WORD) % WORD_LIMIT == if otaSeq == 0 then 0xFFFF_FFFF else otaSeq - 1;
  }

  /** An app that is rolled back or found invalid boots no more: its entry then counts as little as an erased one, and the
      other entry decides alone. */
  lemma RolledBack(crc: Crc, e0: Select, e1: Select, appCount: nat, state: nat)
    requires e0.otaSeq < WORD_LIMIT && e1.otaSeq < WORD_LIMIT && (state == 3 || state == 4) && appCount > 0
    ensures BootOf(crc, e0.(state := state), e1, appCount) ==
            if Bootable(crc, e1) then Slot(SlotBefore(e1.otaSeq, appCount)) else Default
    ensures BootOf(crc, e0, e1.(state := state), appCount) ==
            if Bootable(crc, e0) then Slot(SlotBefore(e0.otaSeq, appCount)) else Default
  {
    hide BootOf, SlotBefore;
    BootOfIs(crc, e0.(state := state), e1, appCount);
    BootOfIs(crc, e0, e1.(state := state), appCount);
  }

  const SUBTYPE_FACTORY: nat := 0x00
  const SUBTYPE_OTA_MIN: nat := 0x10
  const SUBTYPE_OTA_MAX: nat := 0x20
  const SUBTYPE_TEST: nat := 0x20

  predicate HasSlot(apps: set<nat>, i: nat) {
    SUBTYPE_OTA_MIN + i in apps
  }

  /** `get_ota_partition_count`: the OTA slots present without a gap. */
  method AppCount(apps: set<nat>) returns (appCount: nat)
    requires exists gap: nat :: gap <= 16 && !HasSlot(apps, gap)
    ensures appCount <= 16 && 0x10 + appCount !in apps
    ensures forall s | 0x10 <= s < 0x10 + appCount :: s in apps
  {
    ghost var gap: nat :| gap <= 16 && !HasSlot(apps, gap);
    appCount := 0;
    while HasSlot(apps, appCount)
      invariant appCount <= gap && forall i | 0 <= i < appCount :: HasSlot(apps, i)
      decreases gap - appCount
    {
      appCount := appCount + 1;
    }
    forall s | 0x10 <= s < 0x10 + appCount ensures s in apps {
      assert HasSlot(apps, s - 0x10);
    }
  }

  /** `find_default_boot_partition`: factory, else the lowest OTA slot, else the test app. */
  method FindDefault(apps: set<nat>) returns (result: Option<nat>)
    ensures result.Some? ==> result.value in apps
    ensures result.None? <==> forall s :: 0x10 <= s <= 0x20 || s == 0x00 ==> s !in apps
    ensures 0x00 in apps ==> result == Some(0x00)
    ensures 0x00 !in apps && result.Some? ==> forall s | 0x10 <= s <= 0x20 && s in apps :: result.value <= s
  {
    if SUBTYPE_FACTORY in apps {
      return Some(SUBTYPE_FACTORY);
    }
    for s := SUBTYPE_OTA_MIN to SUBTYPE_OTA_MAX
      invariant forall k | SUBTYPE_OTA_MIN <= k < s :: k !in apps
    {
      if s in apps {
        return Some(s);
      }
    }
    if SUBTYPE_TEST in apps {
      return Some(SUBTYPE_TEST);
    }
    return None;
  }

  // ---------- the next sequence number ----------

  /** Sequence number `s` stands for slot `y` of `n`: one more than the slot, up to multiples of the number of slots. */
  predicate StandsFor(s: nat, y: nat, n: nat)
    requires n > 0
  {
    s % n == (y + 1) % n
  }

  /** The least number not below `otaSeq` that stands for slot `y` of `n`. */
  predicate IsNextSeq(next: nat, otaSeq: nat, y: nat, n: nat)
    requires n > 0
  {
    next >= otaSeq && StandsFor(next, y, n) && forall s | otaSeq <= s < next :: !StandsFor(s, y, n)
  }

  lemma ModStep(a: int, n: nat, k: nat)
    requires n > 0
    ensures (a + k * n) % n == a % n
  {
    if k > 0 {
      ModStep(a, n, k - 1);
      assert a + k * n == (a + (k - 1) * n) + n;
      ModOnce(a + (k - 1) * n, n);
    }
  }

  lemma ModOnce(b: int, n: nat)
    requires n > 0
    ensures (b + n) % n == b % n
  {
    var q := b / n;
    assert b + n == (q + 1) * n + b % n;
    DivModUnique(b + n, n, q + 1, b % n);
  }

  lemma DivModUnique(x: int, n: nat, q: int, r: int)
    requires n > 0 && x == q * n + r && 0 <= r < n
    ensures x / n == q && x % n == r
  {
    var q', r' := x / n, x % n;
    assert x == q' * n + r';
    if q > q' {
      Multiple(q, q', n);
    } else if q < q' {
      Multiple(q', q, n);
    }
  }

  lemma {:induction false} Multiple(a: int, b: int, n: nat)
    requires a > b
    ensures a * n >= b * n + n
    decreases a - b
  {
    assert a * n == (a - 1) * n + n;
    if a > b + 1 {
      Multiple(a - 1, b, n);
    }
  }

  /** Two numbers less than `n` apart with the same remainder are the same. */
  lemma ModClose(a: int, b: int, n: nat)
    requires n > 0 && a <= b < a + n && a % n == b % n
    ensures a == b
  {
    var qa, qb := a / n, b / n;
    assert a == qa * n + a % n && b == qb * n + b % n;
    if qb > qa {
      Multiple(qb, qa, n);
    } else if qb < qa {
      Multiple(qa, qb, n);
    }
  }

  lemma {:induction false} AtLeast(i: nat, n: nat)
    requires n > 0
    ensures i * n >= i
  {
    if i > 0 {
      AtLeast(i - 1, n);
      assert i * n == (i - 1) * n + n;
    }
  }

  /** The search loop of `esp_rewrite_ota_data`. The result is the least fitting number; it grows by less than the number
      of slots, and by exactly the distance the comment gives in closed form. */
  method NextSeq(otaSeq: nat, y: nat, n: nat) returns (next: nat)
    requires n > 0 && y < n
    ensures IsNextSeq(next, otaSeq, y, n)
    ensures otaSeq <= next < otaSeq + n && next == otaSeq + (y + 1 - otaSeq) % n
  {
    var base := (y + 1) % n;
    var i := 0;
    while otaSeq > base + i * n
      invariant i > 0 ==> otaSeq > base + (i - 1) * n
      decreases otaSeq - base - i * n
    {
      assert (i + 1) * n == i * n + n;
      AtLeast(i, n);
      i := i + 1;
    }
    next := base + i * n;
    assert i > 0 ==> i * n == (i - 1) * n + n;
    NextSeqFits(next, otaSeq, y, n, i);
  }

  lemma NextSeqFits(next: nat, otaSeq: nat, y: nat, n: nat, i: nat)
    requires n > 0 && y < n
    requires next == (y + 1) % n + i * n && otaSeq <= next < otaSeq + n
    ensures IsNextSeq(next, otaSeq, y, n) && next == otaSeq + (y + 1 - otaSeq) % n
  {
    ModStep((y + 1) % n, n, i);
    DivModUnique((y + 1) % n, n, 0, (y + 1) % n);
    SameRemainder(next, y + 1, n, -(otaSeq as int));
    DivModUnique(next - otaSeq, n, 0, next - otaSeq);
    forall s | otaSeq <= s < next ensures !StandsFor(s, y, n) {
      if StandsFor(s, y, n) {
        ModClose(s, next, n);
      }
    }
  }

  lemma SameRemainder(a: int, b: int, n: nat, d: int)
    requires n > 0 && a % n == b % n
    ensures (a + d) % n == (b + d) % n
  {
    var qa, qb := a / n, b / n;
    assert a - b == (qa - qb) * n by {
      assert a == qa * n + a % n && b == qb * n + b % n;
    }
    var r, q := (b + d) % n, (b + d) / n;
    assert b + d == q * n + r;
    assert a + d == (q + (qa - qb)) * n + r by {
      assert (q + (qa - qb)) * n == q * n + (qa - qb) * n;
    }
    DivModUnique(a + d, n, q + (qa - qb), r);
  }

  // ---------- switching ----------

  /** The sector a switch writes: the one that is not active. */
  function Target(active: int): (t: nat)
    ensures t <= 1 && t != active
  {
    if active == 0 then 1 else 0
  }

  /** Sequence numbers leave room for one more switch. */
  predicate SeqRoom(crc: Crc, e: Select, n: nat) {
    SelectValid(crc, e) ==> e.otaSeq + n < BLANK_WORD
  }

  /** What the next switch to slot `y` writes: the least fitting number from the active entry on, or just `y + 1`. */
  predicate SwitchSeq(crc: Crc, e0: Select, e1: Select, y: nat, n: nat, next: nat)
    requires n > 0
  {
    match Active(crc, e0, e1)
    case 0 => IsNextSeq(next, e0.otaSeq, y, n)
    case 1 => IsNextSeq(next, e1.otaSeq, y, n)
    case _ => next == y + 1
  }

  /** A number that stands for a slot also selects it, unless it is zero: then the subtraction wraps, which does no harm
      only if the number of slots divides 2^32. */
  predicate Selects(s: nat, n: nat)
    requires n > 0
  {
    s >= 1 || WORD_LIMIT % n == 0
  }

  lemma SlotOfNextIff(next: nat, y: nat, n: nat)
    requires n > 0 && y < n && StandsFor(next, y, n) && next < WORD_LIMIT
    ensures SlotOf(next, n) == y <==> Selects(next, n)
  {
    DivModUnique(y, n, 0, y);
    if next >= 1 {
      DivModUnique(next + BLANK_WORD, WORD_LIMIT, 1, next - 1);
      SameRemainder(next, y + 1, n, -1);
    } else {
      ZeroStandsForLast(y, n);
      DivModUnique(BLANK_WORD, WORD_LIMIT, 0, BLANK_WORD);
      WrappedZero(n);
    }
  }

  lemma ZeroStandsForLast(y: nat, n: nat)
    requires n > 0 && y < n
    ensures StandsFor(0, y, n) <==> y == n - 1
  {
    DivModUnique(0, n, 0, 0);
    if y + 1 < n {
      DivModUnique(y + 1, n, 0, y + 1);
    } else {
      DivModUnique(n, n, 1, 0);
    }
  }

  lemma WrappedZero(n: nat)
    requires n > 0
    ensures BLANK_WORD % n == n - 1 <==> WORD_LIMIT % n == 0
  {
    var q, r := BLANK_WORD / n, BLANK_WORD % n;
    assert BLANK_WORD == q * n + r;
    if r == n - 1 {
      assert WORD_LIMIT == (q + 1) * n + 0;
      DivModUnique(WORD_LIMIT, n, q + 1, 0);
    } else {
      assert WORD_LIMIT == q * n + (r + 1);
      DivModUnique(WORD_LIMIT, n, q, r + 1);
    }
  }

  /** A switch writes zero exactly when zero is the active number and the last slot is asked for. */
  lemma NextIsZeroIff(next: nat, otaSeq: nat, y: nat, n: nat)
    requires n > 0 && y < n && IsNextSeq(next, otaSeq, y, n)
    ensures next == 0 <==> otaSeq == 0 && y == n - 1
  {
    ZeroStandsForLast(y, n);
  }

  /** The switch to slot `y` will work: there is no active entry, its number is not zero, another slot than the last is
      asked for, or the number of slots divides 2^32. */
  predicate SwitchWorks(crc: Crc, e0: Select, e1: Select, y: nat, n: nat)
    requires n > 0
  {
    var a := Active(crc, e0, e1);
    a == -1 || (if a == 0 then e0 else e1).otaSeq >= 1 || y < n - 1 || WORD_LIMIT % n == 0
  }

  /** Whatever stands in the target sector after a switch to slot `y` was cut short or completed, the next boot is what it
      was before or slot `y`: it is unchanged if the entry there is not valid, or else the slot of the new number, and that
      is slot `y` exactly where a switch works. */
  lemma SwitchOutcome(crc: Crc, e0: Select, e1: Select, e: Select, y: nat, n: nat, next: nat)
    requires 0 < n <= 16 && y < n && SeqRoom(crc, e0, n) && SeqRoom(crc, e1, n)
    requires SwitchSeq(crc, e0, e1, y, n, next)
    requires SelectValid(crc, e) ==> e.otaSeq == next
    ensures next < BLANK_WORD
    ensures
      var t := Target(Active(crc, e0, e1));
      var before, after := BootOf(crc, e0, e1, n), BootOf(crc, if t == 0 then e else e0, if t == 1 then e else e1, n);
      && after == (if SelectValid(crc, e) then Slot(SlotOf(next, n)) else before)
      && (after == before || after == Slot(y))
      && (SelectValid(crc, e) ==> (after == Slot(y) <==> SwitchWorks(crc, e0, e1, y, n)))
  {
    hide SlotOf, StandsFor;
    var a := Active(crc, e0, e1);
    if a == -1 {
      FirstSeq(y, n);
      SlotOfNextIff(next, y, n);
    } else {
      var seq0 := if a == 0 then e0.otaSeq else e1.otaSeq;
      NextSeqBound(next, seq0, y, n);
      NextIsZeroIff(next, seq0, y, n);
      SlotOfNextIff(next, y, n);
    }
  }

  lemma FirstSeq(y: nat, n: nat)
    requires n > 0
    ensures StandsFor(y + 1, y, n)
  {
  }

  lemma NextSeqBound(next: nat, otaSeq: nat, y: nat, n: nat)
    requires n > 0 && y < n && IsNextSeq(next, otaSeq, y, n)
    ensures next < otaSeq + n
  {
    if next >= otaSeq + n {
      ModOnce(next - n, n);
      assert StandsFor(next - n, y, n);
    }
  }

  /** Number zero with three slots: the switch to slot 2 writes zero again, and slot 0 boots. */
  lemma ZeroSwitchLost()
    ensures
      var crc := (w: nat) => w;
      var e0, e1 := Select(0, IMG_UNDEFINED, 0), Select(BLANK_WORD, IMG_UNDEFINED, BLANK_WORD);
      && SwitchSeq(crc, e0, e1, 2, 3, 0) && !SwitchWorks(crc, e0, e1, 2, 3)
      && BootOf(crc, e0, Select(0, IMG_UNDEFINED, crc(0)), 3) == Slot(0)
  {
  }
}
