/** The host tool's switch_ota_partition (otatool.py:80-189): it rewrites a dump of the OTA data partition, and judges
    entries by sequence number and checksum only, not by their state. */
module OtaTool {
  import opened Bytes
  import opened OtaSelect
  import opened OtaData

  /** `is_otadata_info_valid` */
  predicate ToolValid(crc: Crc, e: Select) {
    e.otaSeq < BLANK_WORD && e.crc == crc(e.otaSeq)
  }

  /** The entry the computation is based on, -1 if neither is valid. */
  function ToolBase(crc: Crc, e0: Select, e1: Select): (b: int)
    ensures -1 <= b <= 1
  {
    if ToolValid(crc, e0) && ToolValid(crc, e1) then (if e0.otaSeq >= e1.otaSeq then 0 else 1)
    else if ToolValid(crc, e0) then 0
    else if ToolValid(crc, e1) then 1
    else -1
  }

  /** Tool and firmware start from the same entry, and so compute the same number and write the same sector, exactly when
      the entry the tool picks is not marked invalid or aborted. */
  lemma SameBaseIff(crc: Crc, e0: Select, e1: Select)
    requires e0.otaSeq < WORD_LIMIT && e1.otaSeq < WORD_LIMIT
    ensures
      var b := ToolBase(crc, e0, e1);
      b == Active(crc, e0, e1) <==> b == -1 || !Discarded(if b == 0 then e0 else e1)
  {
  }

  predicate ToolRoom(crc: Crc, e: Select, n: nat) {
    ToolValid(crc, e) ==> e.otaSeq + n < BLANK_WORD
  }

  /** The number the tool writes: as in the firmware, but from its own base. */
  predicate ToolSeq(crc: Crc, e0: Select, e1: Select, y: nat, n: nat, next: nat)
    requires n > 0
  {
    match ToolBase(crc, e0, e1)
    case 0 => IsNextSeq(next, e0.otaSeq, y, n)
    case 1 => IsNextSeq(next, e1.otaSeq, y, n)
    case _ => next == y + 1
  }

  /** From the same base the tool writes the same sector and the same number. */
  lemma SameBaseSameSwitch(crc: Crc, e0: Select, e1: Select, y: nat, n: nat, next: nat)
    requires n > 0 && ToolBase(crc, e0, e1) == Active(crc, e0, e1)
    ensures ToolTarget(crc, e0, e1) == Target(Active(crc, e0, e1))
    ensures ToolSeq(crc, e0, e1, y, n, next) <==> SwitchSeq(crc, e0, e1, y, n, next)
  {
  }

  /** The sector the tool writes. */
  function ToolTarget(crc: Crc, e0: Select, e1: Select): (t: nat)
    ensures t <= 1
  {
    if ToolBase(crc, e0, e1) == 0 then 1 else 0
  }

  /** The tool leaves the state of the entry it overwrites as it was. So the switch takes effect exactly when that state is
      not invalid or aborted and the new number selects the slot it stands for, or the other entry, in good standing,
      selects the slot already. */
  lemma ToolSwitchTakesEffectIff(crc: Crc, e0: Select, e1: Select, y: nat, n: nat, next: nat)
    requires 0 < n <= 16 && y < n && e0.otaSeq < WORD_LIMIT && e1.otaSeq < WORD_LIMIT
    requires ToolRoom(crc, e0, n) && ToolRoom(crc, e1, n) && ToolSeq(crc, e0, e1, y, n, next)
    ensures next < BLANK_WORD
    ensures
      var b := ToolBase(crc, e0, e1);
      var t := ToolTarget(crc, e0, e1);
      var overwritten, base := if t == 0 then e0 else e1, if b == 0 then e0 else e1;
      var e := Select(next, overwritten.state, crc(next));
      BootOf(crc, if t == 0 then e else e0, if t == 1 then e else e1, n) == Slot(y) <==>
        || (!Discarded(overwritten) && Selects(next, n))
        || (b != -1 && !Discarded(base) && SlotOf(base.otaSeq, n) == y)
  {
    hide SlotOf, StandsFor;
    var b := ToolBase(crc, e0, e1);
    if b == -1 {
      FirstSeq(y, n);
      SlotOfNextIff(next, y, n);
    } else {
      var seq0 := if b == 0 then e0.otaSeq else e1.otaSeq;
      NextSeqBound(next, seq0, y, n);
      NextIsZeroIff(next, seq0, y, n);
      SlotOfNextIff(next, y, n);
    }
  }

  /** Two entries of which the tool overwrites one that is marked aborted: slot 1 was asked for, slot 0 still boots. */
  lemma ToolSwitchLost()
    ensures
      var crc := (w: nat) => w;
      var e0, e1 := Select(3, IMG_UNDEFINED, 3), Select(2, IMG_ABORTED, 2);
      && ToolBase(crc, e0, e1) == 0 && ToolSeq(crc, e0, e1, 1, 2, 4)
      && BootOf(crc, e0, Select(4, e1.state, crc(4)), 2) == Slot(0)
  {
    assert StandsFor(4, 1, 2) && !StandsFor(3, 1, 2);
  }

  /** `file.seek(o); file.write(w)` */
  function Overwrite(s: bytes, o: nat, w: bytes): (r: bytes)
    requires o + |w| <= |s|
    ensures |r| == |s| && r[o..o + |w|] == w
    ensures forall i | 0 <= i < |s| && !(o <= i < o + |w|) :: r[i] == s[i]
  {
    s[..o] + w + s[o + |w|..]
  }

  function EntryOf(image: bytes, sector: nat): (e: bytes)
    requires |image| == 2 * SECTOR && sector <= 1
    ensures |e| == ENTRY
  {
    image[sector * SECTOR..sector * SECTOR + ENTRY]
  }

  /** The dump with a new number and checksum in one entry. */
  function Switched(image: bytes, t: nat, otaSeq: Word, crcOfSeq: Word): (r: bytes)
    requires |image| == 2 * SECTOR && t <= 1
    ensures |r| == |image|
  {
    Overwrite(Overwrite(image, t * SECTOR, WordBytes(otaSeq)), t * SECTOR + CRC_AT, WordBytes(crcOfSeq))
  }

  /** `switch_ota_partition` on the dump: the number and the checksum of the entry that is not the base are replaced,
      every other byte stays. */
  method SwitchOtaPartition(crc: Crc, otadata: bytes, y: nat, n: nat) returns (image: bytes)
    requires |otadata| == 2 * SECTOR && 0 < n <= 16 && y < n
    requires forall w: Word :: crc(w) < WORD_LIMIT
    requires ToolRoom(crc, Fields(EntryOf(otadata, 0)), n) && ToolRoom(crc, Fields(EntryOf(otadata, 1)), n)
    ensures
      var e0, e1 := Fields(EntryOf(otadata, 0)), Fields(EntryOf(otadata, 1));
      var t := ToolTarget(crc, e0, e1);
      exists next: nat :: ToolSeq(crc, e0, e1, y, n, next) && next < BLANK_WORD &&
        image == Switched(otadata, t, next, crc(next)) &&
        EntryOf(image, 1 - t) == EntryOf(otadata, 1 - t) &&
        Fields(EntryOf(image, t)) == Select(next, (if t == 0 then e0 else e1).state, crc(next))
  {
    var e0, e1 := Fields(EntryOf(otadata, 0)), Fields(EntryOf(otadata, 1));
    var computeBase := ToolBase(crc, e0, e1);
    var next: nat;
    if computeBase == 0 || computeBase == 1 {
      next := NextSeq(if computeBase == 0 then e0.otaSeq else e1.otaSeq, y, n);
    } else {
      next := y + 1;
    }
    ToolSwitchTakesEffectIff(crc, e0, e1, y, n, next);
    var start := (if computeBase == 0 then 1 else 0) * SECTOR;
    image := Overwrite(otadata, start, WordBytes(next));
    image := Overwrite(image, start + CRC_AT, WordBytes(crc(next)));
    OverwrittenFields(otadata, image, ToolTarget(crc, e0, e1), next, crc(next));
    assert image == Switched(otadata, ToolTarget(crc, e0, e1), next, crc(next));
  }

  lemma OverwrittenFields(before: bytes, after: bytes, t: nat, otaSeq: Word, crcOfSeq: Word)
    requires |before| == |after| == 2 * SECTOR && t <= 1
    requires after == Switched(before, t, otaSeq, crcOfSeq)
    ensures EntryOf(after, 1 - t) == EntryOf(before, 1 - t)
    ensures Fields(EntryOf(after, t)) == Select(otaSeq, Fields(EntryOf(before, t)).state, crcOfSeq)
  {
    var e, mid := EntryOf(after, t), Overwrite(before, t * SECTOR, WordBytes(otaSeq));
    assert e[0..4] == mid[t * SECTOR..t * SECTOR + 4] == WordBytes(otaSeq);
    WordRoundTrip(e, 0, otaSeq);
    assert e[CRC_AT..CRC_AT + 4] == after[t * SECTOR + CRC_AT..t * SECTOR + CRC_AT + 4] == WordBytes(crcOfSeq);
    WordRoundTrip(e, CRC_AT, crcOfSeq);
    var was := EntryOf(before, t);
    assert forall i | STATE_AT <= i < CRC_AT :: e[i] == after[t * SECTOR + i] == before[t * SECTOR + i] == was[i];
    assert e[24] == was[24] && e[25] == was[25] && e[26] == was[26] && e[27] == was[27];
    assert Fields(e).state == Fields(was).state;
    OtherEntry(before, after, t, otaSeq, crcOfSeq);
  }

  lemma OtherEntry(before: bytes, after: bytes, t: nat, otaSeq: Word, crcOfSeq: Word)
    requires |before| == |after| == 2 * SECTOR && t <= 1
    requires after == Switched(before, t, otaSeq, crcOfSeq)
    ensures EntryOf(after, 1 - t) == EntryOf(before, 1 - t)
  {
    var o := (1 - t) * SECTOR;
    assert forall i | o <= i < o + ENTRY :: after[i] == before[i];
  }
}
