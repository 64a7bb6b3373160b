/** Writing an OTA image in pieces of any size (esp_ota_ops.c:51-60, 134-257, 294-345). With flash encryption only whole
    blocks of 16 bytes can be written, so what is left over waits in a buffer. */
module OtaWriter {
  import opened Flash

  const BLOCK: nat := 16
  const IMAGE_MAGIC: Byte := 0xE9
  const OTA_SIZE_UNKNOWN: nat := 0xFFFF_FFFF
  const SIZE_LIMIT: nat := 0x1_0000_0000

  /** A `size_t` of 32 bits. */
  type Size = n: nat | n < SIZE_LIMIT

  datatype Err = Ok | InvalidArg | NotFound | ValidateFailed | InvalidState | FlashError

  /** The bytes of a list of pieces. */
  function Flatten(pieces: seq<Bytes>): Bytes {
    if pieces == [] then [] else pieces[0] + Flatten(pieces[1..])
  }

  predicate Uniform(s: Bytes) {
    (forall i | 0 <= i < |s| :: s[i] == 0) || (forall i | 0 <= i < |s| :: s[i] == 0xFF)
  }

  /** What the erase at the start covers: the image size rounded up to whole sectors, on 32 bits, or everything. */
  function ErasedExtent(partitionSize: nat, imageSize: Size): nat {
    if imageSize == 0 || imageSize == OTA_SIZE_UNKNOWN then partitionSize
    else (imageSize + SECTOR_SIZE - 1) % SIZE_LIMIT / SECTOR_SIZE * SECTOR_SIZE
  }

  /** Up to there it ends at the end of the image's last sector of 4096 bytes. */
  lemma ErasesWholeSectors(partitionSize: nat, imageSize: Size)
    requires 0 < imageSize <= 0xFFFF_F000
    ensures
      var extent := ErasedExtent(partitionSize, imageSize);
      extent % 4096 == 0 && imageSize <= extent < imageSize + 4096
  {
  }

  /** The rounding wraps for the last sizes below the unknown one, and nothing is erased then. */
  lemma EraseCoversIff(partitionSize: nat, imageSize: Size)
    requires 0 < imageSize < OTA_SIZE_UNKNOWN
    ensures imageSize <= ErasedExtent(partitionSize, imageSize) <==> imageSize <= 0xFFFF_F000
    ensures imageSize > 0xFFFF_F000 ==> ErasedExtent(partitionSize, imageSize) == 0
  {
  }

  /** Flash and buffer together hold the stream; ahead of the written part the flash is still erased. */
  predicate Holds(encrypted: bool, cells: Bytes, buffer: Bytes, wrote: nat, partial: nat, stream: Bytes, erasedTo: nat)
  {
    && |buffer| == 16 && partial <= 16 && wrote <= |cells| && erasedTo <= |cells|
    && (if encrypted then wrote % 16 == 0 else partial == 0)
    && |stream| == wrote + partial
    && cells[..Least(wrote, erasedTo)] == stream[..Least(wrote, erasedTo)]
    && buffer[..partial] == stream[wrote..]
    && Uniform(buffer[partial..])
    && forall i | wrote <= i < erasedTo :: cells[i] == ERASED
  }

  /** Programming behind the written part, as far as the flash is erased: the old prefix stays, the data is there, and
      what lies ahead stays erased. */
  predicate ProgramKeeps(before: Bytes, at: nat, data: Bytes, after: Bytes, erasedTo: nat) {
    && at + |data| <= |before| == |after|
    && after[..at] == before[..at]
    && (forall i | at <= i < at + |data| && i < erasedTo :: after[i] == data[i - at])
    && forall i | at + |data| <= i < |before| :: after[i] == before[i]
  }

  lemma ProgramAhead(m: Bytes, at: nat, data: Bytes, erasedTo: nat)
    requires at + |data| <= |m| && erasedTo <= |m| && forall i | at <= i < erasedTo :: m[i] == ERASED
    ensures ProgramKeeps(m, at, data, Programmed(m, at, data), erasedTo)
  {
    var after := Programmed(m, at, data);
    forall i | at <= i < at + |data| && i < erasedTo ensures after[i] == data[i - at] {
      assert after[at + (i - at)] == m[at + (i - at)] & data[i - at];
      AndErased(data[i - at]);
    }
  }

  /** Flash holds `body` more of the stream, and the buffer the `tail` behind it. */
  lemma HoldsMore(encrypted: bool, cells: Bytes, cells': Bytes, buffer: Bytes, buffer': Bytes, wrote: nat,
                  stream: Bytes, body: Bytes, tail: Bytes, erasedTo: nat)
    requires Holds(encrypted, cells, buffer, wrote, 0, stream, erasedTo)
    requires ProgramKeeps(cells, wrote, body, cells', erasedTo) && |tail| < BLOCK
    requires if encrypted then |body| % BLOCK == 0 else tail == []
    requires buffer' == tail + buffer[|tail|..]
    ensures Holds(encrypted, cells', buffer', wrote + |body|, |tail|, stream + body + tail, erasedTo)
  {
    var stream' := stream + body + tail;
    var m := Least(wrote + |body|, erasedTo);
    forall i | 0 <= i < m ensures cells'[i] == stream'[i] {
      if i < wrote {
        assert cells'[i] == cells'[..wrote][i] == cells[i] == cells[..Least(wrote, erasedTo)][i];
        assert cells[i] == stream[..Least(wrote, erasedTo)][i] == stream[i];
      }
    }
    assert stream'[wrote + |body|..] == tail;
    assert buffer == buffer[0..];
  }

  /** The full block in the buffer has moved to flash. */
  lemma HoldsFlushed(cells: Bytes, cells': Bytes, buffer: Bytes, buffer': Bytes, wrote: nat, stream: Bytes, erasedTo: nat)
    requires Holds(true, cells, buffer, wrote, BLOCK, stream, erasedTo)
    requires ProgramKeeps(cells, wrote, buffer, cells', erasedTo)
    requires |buffer'| == BLOCK && forall i | 0 <= i < BLOCK :: buffer'[i] == 0xFF
    ensures Holds(true, cells', buffer', wrote + BLOCK, 0, stream, erasedTo)
  {
    assert buffer[..BLOCK] == buffer;
    forall i | 0 <= i < Least(wrote + BLOCK, erasedTo) ensures cells'[i] == stream[i] {
      if i < wrote {
        assert cells'[i] == cells'[..wrote][i] == cells[i] == cells[..Least(wrote, erasedTo)][i];
        assert cells[i] == stream[..Least(wrote, erasedTo)][i] == stream[i];
      } else {
        assert cells'[i] == buffer[i - wrote] == stream[wrote..][i - wrote];
      }
    }
  }

  /** `ota_ops_entry_t`, created by `esp_ota_begin`. */
  class OtaEntry {
    const part: Partition
    const encrypted: bool
    var erasedSize: nat
    var wroteSize: nat
    var partialBytes: nat
    const partialData: array<Byte>

    /** Everything handed over so far, and how far the partition was erased. */
    ghost var stream: Bytes
    ghost const erasedTo: nat

    ghost predicate Shape()
      reads this
    {
      && partialData.Length == BLOCK && partialBytes <= BLOCK && partialData != part.cells
      && erasedSize > 0 && erasedTo <= part.cells.Length && (!encrypted ==> partialBytes == 0)
    }

    ghost predicate Consistent()
      reads this, part.cells, partialData
    {
      Shape() && Holds(encrypted, part.cells[..], partialData[..], wroteSize, partialBytes, stream, erasedTo)
    }

    /** The invariant of a handle none of whose writes failed. */
    ghost predicate Valid()
      reads this, part.cells, partialData
    {
      Consistent() && partialBytes < BLOCK
    }

    /** The part of `esp_ota_begin` behind its erase. */
    constructor (part: Partition, encrypted: bool, imageSize: Size)
      requires part.cells.Length > 0 && ErasedExtent(part.cells.Length, imageSize) <= part.cells.Length
      requires forall i | 0 <= i < ErasedExtent(part.cells.Length, imageSize) :: part.cells[i] == ERASED
      ensures Valid() && this.part == part && this.encrypted == encrypted && stream == [] && fresh(partialData)
      ensures erasedTo == ErasedExtent(part.cells.Length, imageSize)
    {
      this.part, this.encrypted := part, encrypted;
      erasedSize := if imageSize == 0 || imageSize == OTA_SIZE_UNKNOWN then part.cells.Length else imageSize;
      wroteSize, partialBytes := 0, 0;
      partialData := new Byte[BLOCK](_ => 0);
      stream, erasedTo := [], ErasedExtent(part.cells.Length, imageSize);
    }

    /** `esp_ota_write` */
    method Write(data: Bytes) returns (err: Err)
      requires Shape()
      modifies this`wroteSize, this`partialBytes, this`stream, part`fates, part.cells, partialData
      ensures Shape()
      ensures old(Valid()) && err == Ok ==> Valid() && stream == old(stream) + data
      ensures old(wroteSize == 0 && partialBytes == 0) && |data| > 0 && data[0] != 0xE9 <==> err == ValidateFailed
      ensures err == ValidateFailed ==> unchanged(this) && unchanged(part) && unchanged(part.cells) && unchanged(partialData)
      ensures old(part.fates) == [] ==> part.fates == []
      ensures old(part.fates) == [] && old(wroteSize + partialBytes) + |data| <= part.cells.Length ==> err != FlashError
      ensures err in {Ok, ValidateFailed, FlashError}
    {
      if wroteSize == 0 && partialBytes == 0 && |data| > 0 && data[0] != IMAGE_MAGIC {
        return ValidateFailed;
      }
      var rest := data;
      if encrypted && partialBytes != 0 {
        var copyLen := Least(BLOCK - partialBytes, |rest|);
        FillPartial(rest[..copyLen]);
        if partialBytes != BLOCK {
          assert data[..copyLen] == data;
          return Ok;
        }
        var ok := FlushBlock();
        if !ok {
          return FlashError;
        }
        rest := rest[copyLen..];
        assert data == data[..copyLen] + rest;
      }
      var written := WriteBlocks(rest);
      return if written then Ok else FlashError;
    }

    /** Data that tops up a waiting block. */
    method FillPartial(piece: Bytes)
      requires Shape() && encrypted && partialBytes + |piece| <= BLOCK
      modifies this`partialBytes, this`stream, partialData
      ensures Shape() && partialBytes == old(partialBytes) + |piece|
      ensures old(Consistent()) ==> Consistent() && stream == old(stream) + piece
    {
      ghost var before := partialData[..];
      CopyTo(partialBytes, piece);
      partialBytes := partialBytes + |piece|;
      stream := stream + piece;
      assert partialData[..partialBytes] == before[..old(partialBytes)] + piece;
      assert partialData[partialBytes..] == before[old(partialBytes)..][|piece|..];
    }

    /** `memcpy` into the buffer. */
    method CopyTo(at: nat, piece: Bytes)
      requires at + |piece| <= partialData.Length
      modifies partialData
      ensures partialData[..] == old(partialData[..])[..at] + piece + old(partialData[..])[at + |piece|..]
    {
      for i := 0 to |piece|
        invariant forall k | 0 <= k < partialData.Length ::
          partialData[k] == if at <= k < at + i then piece[k - at] else old(partialData[k])
      {
        partialData[at + i] := piece[i];
      }
    }

    /** A full block goes to flash, and the buffer is reset to 0xFF. */
    method FlushBlock() returns (ok: bool)
      requires Shape() && encrypted && partialBytes == BLOCK
      modifies this`partialBytes, this`wroteSize, part`fates, part.cells, partialData
      ensures Shape()
      ensures ok ==> partialBytes == 0 && wroteSize == old(wroteSize) + BLOCK
      ensures old(Consistent()) && ok ==> Consistent()
      ensures old(part.fates) == [] ==> part.fates == [] && (wroteSize + BLOCK <= part.cells.Length ==> ok)
      ensures !ok ==> wroteSize == old(wroteSize)
    {
      hide Holds, ProgramKeeps;
      ghost var block, cells := partialData[..], part.cells[..];
      ok := part.Write(wroteSize, partialData[..]);
      if !ok {
        return;
      }
      CopyTo(0, seq(BLOCK, _ => 0xFF));
      if old(Consistent()) {
        AheadErased(encrypted, cells, block, wroteSize, partialBytes, stream, erasedTo);
        ProgramAhead(cells, wroteSize, block, erasedTo);
        HoldsFlushed(cells, part.cells[..], block, partialData[..], wroteSize, stream, erasedTo);
      }
      partialBytes := 0;
      wroteSize := wroteSize + BLOCK;
    }

    static lemma AheadErased(encrypted: bool, cells: Bytes, buffer: Bytes, wrote: nat, partial: nat, stream: Bytes,
                             erasedTo: nat)
      requires Holds(encrypted, cells, buffer, wrote, partial, stream, erasedTo)
      ensures forall i | wrote <= i < erasedTo :: cells[i] == ERASED
    {
    }

    static lemma BlocksHeld(encrypted: bool, cells: Bytes, buffer: Bytes, buffer': Bytes, wrote: nat, stream: Bytes,
                            data: Bytes, size: nat, erasedTo: nat)
      requires Holds(encrypted, cells, buffer, wrote, 0, stream, erasedTo)
      requires size <= |data| < size + BLOCK && wrote + size <= |cells|
      requires if encrypted then size % BLOCK == 0 else size == |data|
      requires buffer' == data[size..] + buffer[|data[size..]|..]
      ensures Holds(encrypted, Programmed(cells, wrote, data[..size]), buffer', wrote + size, |data| - size, stream + data,
                    erasedTo)
    {
      hide ProgramKeeps, Programmed;
      var body, tail := data[..size], data[size..];
      AheadErased(encrypted, cells, buffer, wrote, 0, stream, erasedTo);
      HoldsSizes(encrypted, cells, buffer, wrote, 0, stream, erasedTo);
      hide Holds;
      ProgramAhead(cells, wrote, body, erasedTo);
      HoldsMore(encrypted, cells, Programmed(cells, wrote, body), buffer, buffer', wrote, stream, body, tail, erasedTo);
      assert stream + body + tail == stream + data;
    }

    /** With encryption, what does not fill a block goes to the buffer; the size of the rest. */
    method KeepTail(data: Bytes) returns (size: nat)
      requires Shape() && partialBytes == 0
      modifies this`partialBytes, partialData
      ensures Shape() && size + partialBytes == |data| && partialBytes < BLOCK
      ensures if encrypted then size % BLOCK == 0 else size == |data|
      ensures partialData[..] == data[size..] + old(partialData[..])[|data[size..]|..]
    {
      size := |data|;
      if encrypted {
        partialBytes := size % BLOCK;
        if partialBytes != 0 {
          size := size - partialBytes;
          CopyTo(0, data[size..]);
        }
      }
    }

    /** With an empty buffer: whole blocks go to flash, the rest (with encryption) waits. */
    method WriteBlocks(data: Bytes) returns (ok: bool)
      requires Shape() && partialBytes == 0
      modifies this`partialBytes, this`wroteSize, this`stream, part`fates, part.cells, partialData
      ensures Shape()
      ensures old(Consistent()) && ok ==> Valid() && stream == old(stream) + data
      ensures old(part.fates) == [] ==> part.fates == []
      ensures old(part.fates) == [] && old(wroteSize) + |data| <= part.cells.Length ==> ok
    {
      hide Holds, Programmed;
      ghost var cells, buffer := part.cells[..], partialData[..];
      var size := KeepTail(data);
      ok := part.Write(wroteSize, data[..size]);
      if ok {
        if old(Consistent()) {
          BlocksHeld(encrypted, cells, buffer, partialData[..], wroteSize, stream, data, size, erasedTo);
        }
        wroteSize := wroteSize + size;
        stream := stream + data;
      }
    }

    /** `esp_ota_end`: the waiting bytes go out as one whole block, padded with what the buffer holds; then the image is
        verified. An encrypted image shorter than a block never reached the flash and is refused. */
    method End(verify: Bytes -> bool) returns (err: Err)
      requires Shape()
      modifies this`partialBytes, this`wroteSize, part`fates, part.cells
      ensures err == InvalidArg <==> old(wroteSize) == 0
      ensures old(Valid()) ==>
                (err == InvalidArg <==> if encrypted then |stream| < 16 else stream == [])
      ensures err in {Ok, ValidateFailed} ==> (err == Ok <==> verify(part.cells[..]))
      ensures old(Valid()) && err == Ok ==> Complete(part.cells[..], stream, wroteSize, erasedTo)
      ensures old(part.fates) == [] && old(wroteSize) + BLOCK <= part.cells.Length ==> err != InvalidState
      ensures old(Valid()) ==> old(wroteSize) <= |stream|
      ensures err in {Ok, InvalidArg, InvalidState, ValidateFailed}
    {
      hide Holds, Complete;
      if Valid() {
        HoldsSizes(encrypted, part.cells[..], partialData[..], wroteSize, partialBytes, stream, erasedTo);
      }
      if erasedSize == 0 || wroteSize == 0 {
        return InvalidArg;
      }
      var ok := FlushTail();
      if !ok {
        return InvalidState;
      }
      return if verify(part.cells[..]) then Ok else ValidateFailed;
    }

    /** The last, padded block, if any bytes are waiting. */
    method FlushTail() returns (ok: bool)
      requires Shape()
      modifies this`partialBytes, this`wroteSize, part`fates, part.cells
      ensures old(Valid()) && ok ==> Complete(part.cells[..], stream, wroteSize, erasedTo)
      ensures old(part.fates) == [] && old(wroteSize) + BLOCK <= part.cells.Length ==> ok
    {
      hide Holds, ProgramKeeps, Complete;
      ghost var cells, buffer := part.cells[..], partialData[..];
      if partialBytes > 0 {
        ok := part.Write(wroteSize, partialData[..]);
        if !ok {
          return;
        }
        if old(Valid()) {
          AheadErased(encrypted, cells, buffer, wroteSize, partialBytes, stream, erasedTo);
          ProgramAhead(cells, wroteSize, buffer, erasedTo);
          HoldsPadded(encrypted, cells, part.cells[..], buffer, wroteSize, partialBytes, stream, erasedTo);
        }
        wroteSize := wroteSize + BLOCK;
        partialBytes := 0;
      } else if Valid() {
        HoldsUnpadded(encrypted, cells, buffer, wroteSize, stream, erasedTo);
      }
      ok := true;
    }
  }

  lemma HoldsSizes(encrypted: bool, cells: Bytes, buffer: Bytes, wrote: nat, partial: nat, stream: Bytes, erasedTo: nat)
    requires Holds(encrypted, cells, buffer, wrote, partial, stream, erasedTo) && partial < BLOCK
    ensures wrote == 0 <==> if encrypted then |stream| < BLOCK else stream == []
    ensures wrote <= |stream|
  {
  }

  /** The flash holds the whole stream, then less than a block of padding that is all 0x00 or all 0xFF. Both as far as the
      flash was erased. */
  predicate Complete(cells: Bytes, stream: Bytes, wrote: nat, erasedTo: nat) {
    && |stream| <= wrote < |stream| + BLOCK && wrote <= |cells|
    && (wrote <= erasedTo ==> cells[..|stream|] == stream && Uniform(cells[|stream|..wrote]))
  }

  lemma HoldsPadded(encrypted: bool, cells: Bytes, cells': Bytes, buffer: Bytes, wrote: nat, partial: nat, stream: Bytes,
                    erasedTo: nat)
    requires Holds(encrypted, cells, buffer, wrote, partial, stream, erasedTo) && 0 < partial < BLOCK
    requires ProgramKeeps(cells, wrote, buffer, cells', erasedTo)
    ensures Complete(cells', stream, wrote + BLOCK, erasedTo)
  {
    if wrote + BLOCK <= erasedTo {
      forall i | 0 <= i < |stream| ensures cells'[i] == stream[i] {
        if i < wrote {
          assert cells'[i] == cells'[..wrote][i] == cells[i] == cells[..wrote][i] == stream[..wrote][i];
        } else {
          assert cells'[i] == buffer[i - wrote] == buffer[..partial][i - wrote] == stream[wrote..][i - wrote];
        }
      }
      assert cells'[|stream|..wrote + BLOCK] == buffer[partial..];
    }
  }

  lemma HoldsUnpadded(encrypted: bool, cells: Bytes, buffer: Bytes, wrote: nat, stream: Bytes, erasedTo: nat)
    requires Holds(encrypted, cells, buffer, wrote, 0, stream, erasedTo)
    ensures Complete(cells, stream, wrote, erasedTo)
  {
    assert stream[..wrote] == stream;
    assert wrote <= erasedTo ==> cells[wrote..wrote] == [];
  }

  /** `esp_ota_begin` for a partition that is or is not an OTA slot, and is or is not the running one. */
  method Begin(part: Partition, isOtaSlot: bool, isRunning: bool, encrypted: bool, imageSize: Size)
    returns (err: Err, entry: OtaEntry?)
    requires part.cells.Length > 0
    modifies part`fates, part.cells
    ensures err == Ok <==> entry != null
    ensures !isOtaSlot || isRunning ==> err != Ok && unchanged(part.cells)
    ensures err == Ok ==>
              && fresh(entry) && fresh(entry.partialData) && entry.part == part && entry.encrypted == encrypted
              && entry.Valid() && entry.stream == []
              && entry.erasedTo == ErasedExtent(part.cells.Length, imageSize)
    ensures old(part.fates) == [] ==> part.fates == []
    ensures (old(part.fates) == [] && isOtaSlot && !isRunning && part.cells.Length % SECTOR_SIZE == 0 &&
             ErasedExtent(part.cells.Length, imageSize) <= part.cells.Length) ==> err == Ok
  {
    if !isOtaSlot || isRunning {
      return InvalidArg, null;
    }
    var erased := part.EraseRange(0, ErasedExtent(part.cells.Length, imageSize));
    if !erased {
      return FlashError, null;
    }
    entry := new OtaEntry(part, encrypted, imageSize);
    err := Ok;
  }

  /** A whole update: begin without a known size, write the pieces until one fails, end. However the image is cut, with or
      without encryption, success means that the partition starts with exactly this image and passed verification. */
  method Update(part: Partition, encrypted: bool, pieces: seq<Bytes>, verify: Bytes -> bool) returns (err: Err)
    requires part.cells.Length > 0
    modifies part`fates, part.cells
    ensures err == Ok ==>
              var image := Flatten(pieces);
              && |image| <= part.cells.Length && part.cells[..|image|] == image && verify(part.cells[..])
              && exists wrote :: Complete(part.cells[..], image, wrote, part.cells.Length)
    ensures
      var image := Flatten(pieces);
      (old(part.fates) == [] && part.cells.Length % SECTOR_SIZE == 0 &&
       BLOCK <= |image| <= part.cells.Length - BLOCK && image[0] == IMAGE_MAGIC) ==>
        (err == Ok <==> verify(part.cells[..]))
  {
    hide Flatten, Complete, ErasedExtent, Holds;
    ghost var image := Flatten(pieces);
    UnknownErasesAll(part.cells.Length);
    var entry;
    err, entry := Begin(part, true, false, encrypted, OTA_SIZE_UNKNOWN);
    if err != Ok {
      return;
    }
    err := WriteAll(entry, pieces);
    if err != Ok {
      return;
    }
    assert [] + image == image;
    err := entry.End(verify);
    if err == Ok {
      CompleteIsImage(part.cells[..], image, entry.wroteSize);
    }
  }

  /** Of an image of size zero or of unknown size nothing is known, so everything is erased. */
  lemma UnknownErasesAll(partitionSize: nat)
    ensures ErasedExtent(partitionSize, 0) == ErasedExtent(partitionSize, 0xFFFF_FFFF) == partitionSize
  {
  }

  lemma CompleteIsImage(cells: Bytes, image: Bytes, wrote: nat)
    requires Complete(cells, image, wrote, |cells|)
    ensures |image| <= |cells| && cells[..|image|] == image
  {
  }

  /** Successive writes, up to the first that fails. */
  method WriteAll(entry: OtaEntry, pieces: seq<Bytes>) returns (err: Err)
    requires entry.Valid()
    modifies entry`wroteSize, entry`partialBytes, entry`stream, entry.part`fates, entry.part.cells, entry.partialData
    ensures entry.Shape() && (err == Ok ==> entry.Valid() && entry.stream == old(entry.stream) + Flatten(pieces))
    ensures old(entry.part.fates) == [] ==> entry.part.fates == []
    ensures
      var image := old(entry.stream) + Flatten(pieces);
      old(entry.part.fates) == [] && 1 <= |image| <= entry.part.cells.Length && image[0] == IMAGE_MAGIC ==> err == Ok
  {
    hide Holds;
    ghost var image := entry.stream + Flatten(pieces);
    assert pieces[0..] == pieces;
    err := Ok;
    for i := 0 to |pieces|
      invariant entry.Valid() && image == entry.stream + Flatten(pieces[i..]) && err == Ok
      invariant old(entry.part.fates) == [] ==> entry.part.fates == []
    {
      assert pieces[i..][1..] == pieces[i + 1..];
      ghost var rest := Flatten(pieces[i + 1..]);
      HoldsLength(entry.encrypted, entry.part.cells[..], entry.partialData[..], entry.wroteSize, entry.partialBytes,
                  entry.stream, entry.erasedTo);
      NextPiece(image, entry.stream, pieces[i], rest);
      err := entry.Write(pieces[i]);
      if err != Ok {
        return;
      }
    }
    assert image == entry.stream;
  }

  lemma HoldsLength(encrypted: bool, cells: Bytes, buffer: Bytes, wrote: nat, partial: nat, stream: Bytes, erasedTo: nat)
    requires Holds(encrypted, cells, buffer, wrote, partial, stream, erasedTo)
    ensures |stream| == wrote + partial
  {
  }

  lemma NextPiece(image: Bytes, before: Bytes, piece: Bytes, rest: Bytes)
    requires image == before + (piece + rest)
    ensures image == before + piece + rest && |before| + |piece| <= |image|
    ensures before == [] && piece != [] ==> image[0] == piece[0]
  {
  }
}
