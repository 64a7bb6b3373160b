/** Rewriting the OTA select entries in flash (esp_ota_ops.c:79-104, 347-418), with the power failing at any moment. */
module OtaData {
  import opened Bytes
  import opened OtaSelect

  const SECTOR: nat := 4096
  /** sizeof(esp_ota_select_entry_t): sequence number, a 20-byte label, state, checksum. */
  const ENTRY: nat := 32
  const STATE_AT: nat := 24
  const CRC_AT: nat := 28

  type Word = w: nat | w < WORD_LIMIT

  // ---------- little-endian words ----------

  function WordAt(s: bytes, o: nat): Word
    requires o + 4 <= |s|
  {
    var b0: nat, b1: nat, b2: nat, b3: nat := s[o], s[o + 1], s[o + 2], s[o + 3];
    b0 + 0x100 * (b1 + 0x100 * (b2 + 0x100 * b3))
  }

  function WordBytes(w: Word): (r: bytes)
    ensures |r| == 4
  {
    [w % 0x100, w / 0x100 % 0x100, w / 0x100 / 0x100 % 0x100, w / 0x100 / 0x100 / 0x100]
  }

  lemma WordRoundTrip(s: bytes, o: nat, w: Word)
    requires At(s, o, WordBytes(w))
    ensures WordAt(s, o) == w
  {
    var r := WordBytes(w);
    assert s[o] == s[o..o + 4][0] && s[o + 1] == s[o..o + 4][1] && s[o + 2] == s[o..o + 4][2] && s[o + 3] == s[o..o + 4][3];
    assert w == w % 0x100 + 0x100 * (w / 0x100);
    assert w / 0x100 == w / 0x100 % 0x100 + 0x100 * (w / 0x100 / 0x100);
    assert w / 0x100 / 0x100 == w / 0x100 / 0x100 % 0x100 + 0x100 * (w / 0x100 / 0x100 / 0x100);
  }

  /** The fields of an entry in memory. */
  function Fields(e: bytes): Select
    requires |e| == ENTRY
  {
    Select(WordAt(e, 0), WordAt(e, STATE_AT), WordAt(e, CRC_AT))
  }

  /** An entry in flash is the number, twenty bytes of label, the state and the checksum, each word with its low byte
      first. */
  lemma FieldsOf(e: bytes, otaSeq: Word, name: bytes, state: Word, crc: Word)
    requires |name| == 20 && e == WordBytes(otaSeq) + name + WordBytes(state) + WordBytes(crc)
    ensures |e| == 32 && Fields(e) == Select(otaSeq, state, crc)
  {
    hide WordAt, WordBytes;
    WordRoundTrip(e, 0, otaSeq);
    WordRoundTrip(e, 24, state);
    WordRoundTrip(e, 28, crc);
  }

  lemma LowByteFirst(b0: nat, b1: nat, b2: nat, b3: nat)
    requires b0 < 256 && b1 < 256 && b2 < 256 && b3 < 256
    ensures WordBytes(b0 + 256 * b1 + 65536 * b2 + 16777216 * b3) == [b0, b1, b2, b3]
  {
    var w: Word := b0 + 256 * b1 + 65536 * b2 + 16777216 * b3;
    assert w / 0x100 == b1 + 256 * b2 + 65536 * b3;
    assert w / 0x100 / 0x100 == b2 + 256 * b3;
    assert w / 0x100 / 0x100 / 0x100 == b3;
  }

  // ---------- power cuts ----------

  /** `data` programmed over erased memory, cut off after `k` bytes. */
  function Torn(data: bytes, k: nat): (r: bytes)
    requires k <= |data|
    ensures |r| == |data|
  {
    data[..k] + seq(|data| - k, _ => 0xFF)
  }

  /** The checksum tells apart a sequence number cut off inside its four bytes: such a word does not have the checksum of
      erased memory. Nothing else is asked of the checksum. */
  predicate TornWordsRejected(crc: Crc, next: Word) {
    forall k | 1 <= k <= 3 :: crc(WordAt(Torn(WordBytes(next), k), 0)) != BLANK_WORD
  }

  /** However much of the new entry reached the flash, it is not valid or carries the new sequence number. */
  lemma TornEntry(crc: Crc, e: bytes, k: nat, next: Word)
    requires |e| == ENTRY && k <= ENTRY && WordAt(e, 0) == next && e[..4] == WordBytes(next)
    requires TornWordsRejected(crc, next)
    ensures SelectValid(crc, Fields(Torn(e, k))) ==> Fields(Torn(e, k)).otaSeq == next
  {
    var t := Torn(e, k);
    if k < 4 {
      assert t[CRC_AT] == t[CRC_AT + 1] == t[CRC_AT + 2] == t[CRC_AT + 3] == 0xFF;
      var w := Torn(WordBytes(next), k);
      assert forall i | 0 <= i < 4 :: t[i] == w[i] by {
        assert forall i | 0 <= i < k :: t[i] == e[i] == e[..4][i];
      }
      assert WordAt(t, 0) == WordAt(w, 0);
      if k == 0 {
        assert WordAt(t, 0) == BLANK_WORD;
      }
    } else {
      assert t[0] == e[0] && t[1] == e[1] && t[2] == e[2] && t[3] == e[3];
    }
  }

  // ---------- the partition ----------

  /** The OTA data partition, and how many flash steps (an erase, or one byte programmed) the power lasts. */
  class OtaPartition {
    const crc: Crc
    const cells: array<byte>
    var power: nat

    constructor (crc: Crc, power: nat)
      ensures this.crc == crc && cells.Length == 2 * SECTOR && fresh(cells)
    {
      this.crc, this.power := crc, power;
      cells := new byte[2 * SECTOR];
    }

    ghost function EntryBytes(sector: nat): (e: bytes)
      requires cells.Length == 2 * SECTOR && sector <= 1
      reads cells
      ensures |e| == ENTRY
    {
      cells[sector * 4096..sector * 4096 + 32]
    }

    ghost function Entry(sector: nat): Select
      requires cells.Length == 2 * SECTOR && sector <= 1
      reads cells
    {
      Fields(EntryBytes(sector))
    }

    /** What boots next. */
    ghost function Boots(appCount: nat): Boot
      requires cells.Length == 2 * SECTOR
      reads cells
    {
      BootOf(crc, Entry(0), Entry(1), appCount)
    }

    /** `esp_partition_erase_range` on one sector. */
    method EraseSector(sector: nat) returns (on: bool)
      requires cells.Length == 2 * SECTOR && sector <= 1
      modifies this`power, cells
      ensures on ==> EntryBytes(sector) == Torn(old(EntryBytes(sector)), 0)
      ensures !on ==> unchanged(cells)
      ensures old(power) > 0 ==> on && power == old(power) - 1
      ensures EntryBytes(1 - sector) == old(EntryBytes(1 - sector))
    {
      if power == 0 {
        return false;
      }
      power := power - 1;
      for i := 0 to SECTOR
        modifies cells
        invariant forall k | 0 <= k < cells.Length ::
          cells[k] == if sector * SECTOR <= k < sector * SECTOR + i then 0xFF else old(cells[k])
      {
        cells[sector * SECTOR + i] := 0xFF;
      }
      on := true;
    }

    /** `esp_partition_write` of an entry into an erased sector, byte by byte while the power lasts. */
    method ProgramEntry(sector: nat, e: bytes) returns (on: bool, ghost k: nat)
      requires cells.Length == 2 * SECTOR && sector <= 1 && |e| == ENTRY
      requires EntryBytes(sector) == Torn(e, 0)
      modifies this`power, cells
      ensures k <= ENTRY && (on ==> k == ENTRY) && EntryBytes(sector) == Torn(e, k)
      ensures old(power) >= ENTRY ==> on
      ensures EntryBytes(1 - sector) == old(EntryBytes(1 - sector))
    {
      ghost var other := EntryBytes(1 - sector);
      k := 0;
      for i := 0 to ENTRY
        modifies this`power, cells
        invariant old(power) >= i ==> power == old(power) - i
        invariant k == i && EntryBytes(sector) == Torn(e, i) && EntryBytes(1 - sector) == other
      {
        if power == 0 {
          return false, k;
        }
        power := power - 1;
        cells[sector * SECTOR + i] := e[i];
        k := k + 1;
        assert EntryBytes(sector) == Torn(e, i)[i := e[i]] == Torn(e, i + 1);
      }
      on := true;
    }

    /** `rewrite_ota_seq`: new sequence number and checksum, then erase and program. */
    method RewriteOtaSeq(e: bytes, otaSeq: Word, sector: nat) returns (on: bool, ghost k: nat, ghost erased: bool)
      requires cells.Length == 2 * SECTOR && sector <= 1 && |e| == ENTRY && crc(otaSeq) < WORD_LIMIT
      modifies this`power, cells
      ensures k <= ENTRY && (on ==> erased && k == ENTRY)
      ensures old(power) > ENTRY ==> on
      ensures EntryBytes(sector) == if erased then Torn(NewEntry(e, otaSeq, crc(otaSeq)), k) else old(EntryBytes(sector))
      ensures EntryBytes(1 - sector) == old(EntryBytes(1 - sector))
    {
      var e' := NewEntry(e, otaSeq, crc(otaSeq));
      on := EraseSector(sector);
      k, erased := 0, on;
      if on {
        on, k := ProgramEntry(sector, e');
      }
    }

    /** `esp_rewrite_ota_data`: select slot `y` of `appCount`. Whenever the power fails, the next boot is the one selected
        before or slot `y`, and the active entry is never touched; with power throughout it is slot `y` exactly where a
        switch works. */
    method RewriteOtaData(y: nat, appCount: nat, newState: Word) returns (done: bool)
      requires cells.Length == 2 * SECTOR && y <= 15 && appCount <= 16
      requires newState == IMG_NEW || newState == IMG_UNDEFINED
      requires forall w: Word :: crc(w) < WORD_LIMIT
      requires appCount > 0 ==> SeqRoom(crc, Entry(0), appCount) && SeqRoom(crc, Entry(1), appCount)
      requires forall w: Word | y < appCount && SwitchSeq(crc, Entry(0), Entry(1), y, appCount, w) ::
                 TornWordsRejected(crc, w)
      modifies this`power, cells
      ensures y >= appCount ==> !done && unchanged(cells)
      ensures Boots(appCount) == old(Boots(appCount)) || Boots(appCount) == Slot(y)
      ensures done ==>
                (Boots(appCount) == Slot(y) <==> SwitchWorks(crc, old(Entry(0)), old(Entry(1)), y, appCount))
      ensures y < appCount && old(power) > ENTRY ==> done
      ensures old(Active(crc, Entry(0), Entry(1))) >= 0 ==>
                var a := old(Active(crc, Entry(0), Entry(1)));
                EntryBytes(a) == old(EntryBytes(a))
    {
      if y >= appCount {
        return false;
      }
      hide Fields, Torn, NewEntry, WithState, SelectValid, BootOf, Active, TornWordsRejected, SeqRoom, SwitchWorks;
      ghost var e0, e1 := Entry(0), Entry(1);
      var otadata := [cells[..ENTRY], cells[SECTOR..SECTOR + ENTRY]];
      assert Fields(otadata[0]) == e0 && Fields(otadata[1]) == e1;
      var active := Active(crc, Fields(otadata[0]), Fields(otadata[1]));
      var next: nat;
      if active != -1 {
        next := NextSeq(Fields(otadata[active]).otaSeq, y, appCount);
      } else {
        next := y + 1;
      }
      SwitchOutcome(crc, e0, e1, Select(BLANK_WORD, 0, 0), y, appCount, next);
      var sector := if active == 0 then 1 else 0;
      var e := WithState(otadata[sector], newState);
      ghost var k, erased;
      done, k, erased := RewriteOtaSeq(e, next, sector);
      if erased {
        NewEntryFields(e, next, crc(next), newState, otadata[sector]);
        TornEntry(crc, NewEntry(e, next, crc(next)), k, next);
        SwitchOutcome(crc, e0, e1, Entry(sector), y, appCount, next);
        if done {
          WholeEntry(NewEntry(e, next, crc(next)));
          NewEntryValid(crc, next, newState);
        }
      }
      assert old(Boots(appCount)) == BootOf(crc, e0, e1, appCount);
      assert Boots(appCount) ==
             BootOf(crc, if sector == 0 then Entry(0) else e0, if sector == 1 then Entry(1) else e1, appCount);
    }
  }

  lemma NewEntryValid(crc: Crc, next: nat, state: nat)
    requires next < BLANK_WORD && (state == IMG_NEW || state == IMG_UNDEFINED)
    ensures SelectValid(crc, Select(next, state, crc(next)))
  {
  }

  lemma WholeEntry(e: bytes)
    ensures Torn(e, |e|) == e
  {
  }

  lemma NewEntryFields(e: bytes, otaSeq: Word, crcOfSeq: Word, state: Word, before: bytes)
    requires |before| == ENTRY && e == WithState(before, state)
    ensures Fields(NewEntry(e, otaSeq, crcOfSeq)) == Select(otaSeq, state, crcOfSeq)
    ensures NewEntry(e, otaSeq, crcOfSeq)[..4] == WordBytes(otaSeq)
  {
    var r := NewEntry(e, otaSeq, crcOfSeq);
    WordRoundTrip(r, 0, otaSeq);
    assert r[STATE_AT..STATE_AT + 4] == e[STATE_AT..CRC_AT] == WordBytes(state);
    WordRoundTrip(r, STATE_AT, state);
    assert r[CRC_AT..CRC_AT + 4] == WordBytes(crcOfSeq);
    WordRoundTrip(r, CRC_AT, crcOfSeq);
  }

  /** The entry to be written: state, sequence number and checksum replaced, the label kept. */
  function NewEntry(e: bytes, otaSeq: Word, crcOfSeq: Word): (r: bytes)
    requires |e| == ENTRY
    ensures |r| == ENTRY
  {
    WordBytes(otaSeq) + e[4..CRC_AT] + WordBytes(crcOfSeq)
  }

  function WithState(e: bytes, state: Word): (r: bytes)
    requires |e| == ENTRY
    ensures |r| == ENTRY
  {
    e[..STATE_AT] + WordBytes(state) + e[CRC_AT..]
  }
}
