/** Flash memory as the OTA code sees it: erasing sets bytes to 0xFF, programming can only clear bits, and any
    operation can fail half way. */
module Flash {

  type Byte = bv8
  type Bytes = seq<Byte>

  const ERASED: Byte := 0xFF
  const SECTOR_SIZE: nat := 4096

  /** How the device treats one operation: it works, or it stops after `done` bytes and reports an error. */
  datatype Fate = Works | Fails(done: nat)

  function Least(a: nat, b: nat): nat { if a < b then a else b }

  /** The memory after programming `data` at `offset`. */
  function Programmed(m: Bytes, offset: nat, data: Bytes): (r: Bytes)
    requires offset + |data| <= |m|
    ensures |r| == |m|
    ensures forall i | 0 <= i < |m| && !(offset <= i < offset + |data|) :: r[i] == m[i]
    ensures forall i | 0 <= i < |data| :: r[offset + i] == m[offset + i] & data[i]
  {
    seq(|m|, i requires 0 <= i < |m| => if offset <= i < offset + |data| then m[i] & data[i - offset] else m[i])
  }

  /** Erased memory takes what is programmed. */
  lemma AndErased(b: Byte)
    ensures ERASED & b == b
  {
  }

  class Partition {
    const cells: array<Byte>
    /** What will happen to the operations to come; an exhausted list means they work. */
    var fates: seq<Fate>

    constructor (size: nat, fates: seq<Fate>)
      ensures cells.Length == size && fresh(cells) && this.fates == fates
    {
      cells := new Byte[size];
      this.fates := fates;
    }

    method NextFate() returns (fate: Fate)
      modifies this`fates
      ensures old(fates) == [] ==> fate == Works && fates == []
    {
      if fates == [] {
        return Works;
      }
      fate, fates := fates[0], fates[1..];
    }

    /** `esp_partition_erase_range`: whole sectors inside the partition only. */
    method EraseRange(offset: nat, size: nat) returns (ok: bool)
      modifies this`fates, cells
      ensures ok ==> offset + size <= cells.Length &&
                     forall i | 0 <= i < cells.Length ::
                       cells[i] == if offset <= i < offset + size then ERASED else old(cells[i])
      ensures forall i | 0 <= i < cells.Length && !(offset <= i < offset + size) :: cells[i] == old(cells[i])
      ensures old(fates) == [] ==>
                fates == [] &&
                (ok <==> offset + size <= cells.Length && offset % SECTOR_SIZE == 0 && size % SECTOR_SIZE == 0)
    {
      if offset > cells.Length || offset + size > cells.Length ||
         offset % SECTOR_SIZE != 0 || size % SECTOR_SIZE != 0 {
        return false;
      }
      var fate := NextFate();
      var n := if fate.Works? then size else Least(size, fate.done);
      for i := 0 to n
        modifies cells
        invariant forall k | 0 <= k < cells.Length ::
          cells[k] == if offset <= k < offset + i then ERASED else old(cells[k])
      {
        cells[offset + i] := ERASED;
      }
      ok := fate.Works?;
    }

    /** `esp_partition_write` */
    method Write(offset: nat, data: Bytes) returns (ok: bool)
      modifies this`fates, cells
      ensures ok ==> offset + |data| <= cells.Length && cells[..] == Programmed(old(cells[..]), offset, data)
      ensures forall i | 0 <= i < cells.Length && !(offset <= i < offset + |data|) :: cells[i] == old(cells[i])
      ensures old(fates) == [] ==> fates == [] && (ok <==> offset + |data| <= cells.Length)
    {
      if offset > cells.Length || offset + |data| > cells.Length {
        return false;
      }
      var fate := NextFate();
      var n := if fate.Works? then |data| else Least(|data|, fate.done);
      for i := 0 to n
        modifies cells
        invariant forall k | 0 <= k < cells.Length && !(offset <= k < offset + i) :: cells[k] == old(cells[k])
        invariant forall k | 0 <= k < i :: cells[offset + k] == old(cells[offset + k]) & data[k]
      {
        cells[offset + i] := cells[offset + i] & data[i];
      }
      ok := fate.Works?;
      if ok {
        assert cells[..] == Programmed(old(cells[..]), offset, data);
      }
    }
  }
}
