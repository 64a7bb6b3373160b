/** Downloading an OTA image over HTTPS (esp_https_ota.c:40-57, 119-133, 210-415): the begin / perform / finish state
    machine between an HTTP body and the OTA writer.

    The HTTP connection is given by the body the server sends and by what each read delivers; after the last listed read
    the connection is lost. */
module HttpsOta {
  import opened Flash
  import opened OtaWriter

  /** One call of `esp_http_client_read`: at most `n` bytes, or a failure; `loses` sets `errno` to a lost connection. */
  datatype Delivery = Delivery(n: nat, failed: bool, loses: bool)

  class HttpClient {
    const body: Bytes
    var pos: nat
    var deliveries: seq<Delivery>
    /** `errno` stays set once the connection was lost. */
    var lost: bool

    constructor (body: Bytes, deliveries: seq<Delivery>)
      ensures this.body == body && this.deliveries == deliveries && pos == 0 && !lost
    {
      this.body, this.deliveries, pos, lost := body, deliveries, 0, false;
    }

    /** `esp_http_client_is_complete_data_received` */
    predicate Complete()
      reads this
    {
      pos == |body|
    }

    /** The server delivers: no read fails or loses the connection, each brings something, and they last for the body and
        one more read behind it. */
    ghost predicate Steady()
      reads this
    {
      !lost && pos <= |body| < |deliveries| + pos && forall d | d in deliveries :: d.n > 0 && !d.failed && !d.loses
    }

    method Read(max: nat) returns (dataRead: int, data: Bytes)
      requires pos <= |body|
      modifies this
      ensures -1 <= dataRead <= max && |data| == (if dataRead < 0 then 0 else dataRead)
      ensures old(pos) <= pos <= |body| && data == body[old(pos)..pos]
      ensures |deliveries| < |old(deliveries)| || (dataRead == -1 && lost)
      ensures |deliveries| <= |old(deliveries)| && (old(lost) ==> lost)
      ensures old(Steady()) && max > 0 ==>
                && !lost && dataRead >= 0 && (dataRead == 0 <==> old(Complete())) && (dataRead > 0 ==> Steady())
                && pos <= old(pos) + max
    {
      if deliveries == [] {
        lost := true;
        return -1, [];
      }
      var d := deliveries[0];
      deliveries := deliveries[1..];
      if d.loses {
        lost := true;
      }
      if d.failed {
        return -1, [];
      }
      var n := Least(d.n, Least(max, |body| - pos));
      data := body[pos..pos + n];
      pos := pos + n;
      dataRead := n;
    }
  }

  datatype Status = Done | Fail | InProgressYet | OtaError(err: Err)

  datatype Phase = BeginPhase | InProgressPhase | SuccessPhase

  /** Nothing stands in the way of the update: the server delivers, the flash works, and the body is an image that fits. */
  ghost predicate Healthy(part: Partition, client: HttpClient)
    reads client, part
  {
    && client.Steady() && part.fates == [] && part.cells.Length % 4096 == 0
    && 16 <= |client.body| && |client.body| + 16 <= part.cells.Length && client.body[0] == 0xE9
  }

  class HttpsOtaHandle {
    const part: Partition
    const encrypted: bool
    const client: HttpClient
    const headerSize: nat
    const buffer: array<Byte>
    var phase: Phase
    var binaryFileLen: nat
    var entry: OtaEntry?

    ghost predicate Valid()
      reads this, client, entry
    {
      && 0 < headerSize <= buffer.Length && part.cells.Length > 0 && client.pos <= |client.body|
      && buffer != part.cells
      && (phase == BeginPhase ==> binaryFileLen <= buffer.Length)
      && (phase != BeginPhase ==> entry != null && entry.Shape() && entry.part == part && entry.partialData != buffer)
      && (phase == SuccessPhase ==> client.Complete())
    }

    ghost function Footprint(): set<object>
      reads this, entry
    {
      {this, part, part.cells, client, buffer} + if entry == null then {} else {entry, entry.partialData}
    }

    /** Every byte of the body read so far was handed to the OTA writer, in order, or waits in the buffer for it. */
    ghost predicate InSync()
      requires Valid()
      reads this, client, entry, Footprint()
    {
      if phase == BeginPhase then buffer[..binaryFileLen] == client.body[..client.pos]
      else
        && entry.Valid() && entry.encrypted == encrypted && entry.erasedTo == part.cells.Length
        && entry.stream == client.body[..client.pos]
    }

    /** The last lines of `esp_https_ota_begin`; the buffer holds at least an image header. */
    constructor (part: Partition, encrypted: bool, client: HttpClient, headerSize: nat, bufferSize: nat)
      requires part.cells.Length > 0 && headerSize > 0 && client.pos == 0
      ensures Valid() && InSync() && phase == BeginPhase && binaryFileLen == 0
      ensures this.part == part && this.encrypted == encrypted && this.client == client && this.headerSize == headerSize
      ensures fresh(buffer) && entry == null
    {
      this.part, this.encrypted, this.client, this.headerSize := part, encrypted, client, headerSize;
      buffer := new Byte[if bufferSize > headerSize then bufferSize else headerSize];
      phase, binaryFileLen, entry := BeginPhase, 0, null;
    }

    /** `esp_https_ota_get_img_desc`: reads the image header into the buffer. On success nothing is lost exactly when this
        is the first successful call and `perform` was not called yet: a second call overwrites the header that waits in
        the buffer, and later nobody writes what it reads. A failed call loses what it has read, if anything. */
    method GetImgDesc() returns (ok: bool)
      requires Valid()
      modifies client, buffer, this`binaryFileLen
      ensures Valid()
      ensures ok ==> binaryFileLen == headerSize && client.pos == old(client.pos) + headerSize
      ensures !ok ==> binaryFileLen == old(binaryFileLen)
      ensures ok && old(InSync()) ==> (InSync() <==> phase == BeginPhase && old(binaryFileLen) == 0)
      ensures !ok && old(InSync()) ==> (InSync() <==> client.pos == old(client.pos))
      ensures old(client.Steady()) ==> client.Steady() && (ok <==> old(client.pos) + headerSize <= |client.body|)
      ensures |client.deliveries| <= |old(client.deliveries)|
    {
      var dataReadSize: nat, bytesRead: nat := headerSize, 0;
      while dataReadSize > 0 && !client.Complete()
        modifies client, buffer
        invariant bytesRead + dataReadSize == headerSize
        invariant old(client.pos) + bytesRead == client.pos <= |client.body|
        invariant buffer[..bytesRead] == client.body[old(client.pos)..client.pos]
        invariant bytesRead == 0 ==> buffer[..] == old(buffer[..])
        invariant |client.deliveries| <= |old(client.deliveries)|
        invariant old(client.Steady()) ==> client.Steady()
        decreases |client.deliveries|
      {
        ghost var pos := client.pos;
        var dataRead, data := client.Read(dataReadSize);
        CopyIn(bytesRead, data);
        assert client.body[old(client.pos)..pos] + data == client.body[old(client.pos)..client.pos];
        if client.lost || dataRead < 0 {
          break;
        }
        dataReadSize := dataReadSize - dataRead;
        bytesRead := bytesRead + dataRead;
      }
      if dataReadSize > 0 {
        return false;
      }
      binaryFileLen := bytesRead;
      ok := true;
    }

    method CopyIn(at: nat, data: Bytes)
      requires at + |data| <= buffer.Length
      modifies buffer
      ensures buffer[..at + |data|] == old(buffer[..at]) + data
      ensures buffer[at + |data|..] == old(buffer[at + |data|..])
    {
      for i := 0 to |data|
        invariant forall k | 0 <= k < at :: buffer[k] == old(buffer[k])
        invariant forall k | 0 <= k < i :: buffer[at + k] == data[k]
        invariant forall k | at + i <= k < buffer.Length :: buffer[k] == old(buffer[k])
      {
        buffer[at + i] := data[i];
      }
    }

    /** `_ota_write`: the running length grows by what was written, also by a header that was counted before. */
    method OtaWrite(data: Bytes) returns (status: Status)
      requires Valid() && phase != BeginPhase
      modifies this`binaryFileLen, entry`wroteSize, entry`partialBytes, entry`stream, part`fates, part.cells,
               entry.partialData
      ensures Valid() && (status == InProgressYet || status.OtaError?)
      ensures old(entry.Valid()) && status == InProgressYet ==>
                entry.Valid() && entry.stream == old(entry.stream) + data
      ensures old(part.fates) == [] ==> part.fates == []
      ensures var all := old(entry.stream) + data;
              old(entry.Valid() && part.fates == []) && |all| <= part.cells.Length && (all == [] || all[0] == 0xE9) ==>
                status == InProgressYet
    {
      if entry.Valid() {
        HoldsSizes(entry.encrypted, part.cells[..], entry.partialData[..], entry.wroteSize, entry.partialBytes,
                   entry.stream, entry.erasedTo);
      }
      var err := entry.Write(data);
      if err != Ok {
        return OtaError(err);
      }
      binaryFileLen := binaryFileLen + |data|;
      return InProgressYet;
    }

    /** `esp_https_ota_perform`. As long as it reports progress or completion, nothing is lost; completion means that the
        whole body was received. */
    method Perform() returns (status: Status)
      requires Valid()
      modifies Footprint()
      ensures Valid() && (entry == old(entry) || (fresh(entry) && fresh(entry.partialData)))
      ensures old(InSync()) && (status == InProgressYet || status == Done) ==> InSync()
      ensures status == Done ==> phase == SuccessPhase
      ensures phase == SuccessPhase ==> old(phase) == SuccessPhase || status == Done
      ensures status == InProgressYet ==> old(phase) == BeginPhase || |client.deliveries| < old(|client.deliveries|)
      ensures status == InProgressYet ==> phase == InProgressPhase && old(phase) != SuccessPhase
      ensures phase == BeginPhase ==> old(phase) == BeginPhase
      ensures |client.deliveries| <= old(|client.deliveries|)
      ensures old(Healthy(part, client) && InSync()) && old(phase) != SuccessPhase ==>
                (status == Done || (status == InProgressYet && Healthy(part, client))) && part.fates == []
    {
      match phase {
        case BeginPhase =>
          status := StartWriting();
          if status != Done {
            return;
          }
          status := Transfer();
        case InProgressPhase =>
          status := Transfer();
        case SuccessPhase =>
          return Fail;
      }
    }

    /** The first part of `esp_https_ota_perform`: open the writer, and write a header that was read ahead. */
    method StartWriting() returns (status: Status)
      requires Valid() && phase == BeginPhase
      modifies this`phase, this`binaryFileLen, this`entry, part`fates, part.cells
      ensures Valid() && (entry == old(entry) || (fresh(entry) && fresh(entry.partialData)))
      ensures status == Done || status == InProgressYet ==> phase == InProgressPhase
      ensures phase == BeginPhase || phase == InProgressPhase
      ensures old(InSync()) && (status == Done || status == InProgressYet) ==> InSync()
      ensures status != Fail
      ensures old(Healthy(part, client) && InSync()) ==> (status == Done || status == InProgressYet) && Healthy(part, client)
    {
      UnknownErasesAll(part.cells.Length);
      var err, newEntry := Begin(part, true, false, encrypted, OTA_SIZE_UNKNOWN);
      if err != Ok {
        return OtaError(err);
      }
      entry := newEntry;
      phase := InProgressPhase;
      if binaryFileLen == 0 {
        return Done;
      }
      status := OtaWrite(buffer[..binaryFileLen]);
    }

    /** The second part: one read, passed on to the writer; nothing more to read ends the transfer. */
    method Transfer() returns (status: Status)
      requires Valid() && phase == InProgressPhase
      modifies this`binaryFileLen, this`phase, client, buffer, entry`wroteSize, entry`partialBytes, entry`stream,
               part`fates, part.cells, entry.partialData
      ensures Valid()
      ensures old(InSync()) && (status == InProgressYet || status == Done) ==> InSync()
      ensures status == Done <==> phase == SuccessPhase
      ensures status == InProgressYet ==> |client.deliveries| < old(|client.deliveries|)
      ensures |client.deliveries| <= old(|client.deliveries|)
      ensures phase != BeginPhase
      ensures old(Healthy(part, client) && InSync()) ==>
                (status == Done || (status == InProgressYet && Healthy(part, client))) && part.fates == []
    {
      hide Holds;
      ghost var before, pos := entry.stream, client.pos;
      var dataRead, data := client.Read(buffer.Length);
      CopyIn(0, data);
      if dataRead == 0 {
        if client.lost && !client.Complete() {
          return Fail;
        } else if !client.Complete() {
          return InProgressYet;
        }
        phase := SuccessPhase;
        return Done;
      } else if dataRead > 0 {
        assert client.body[..pos] + data == client.body[..client.pos];
        assert buffer[..|data|] == data;
        status := OtaWrite(buffer[..dataRead]);
      } else {
        return Fail;
      }
    }

    /** `esp_https_ota_finish`; `bootRequested` says whether it came to `esp_ota_set_boot_partition`. It does only after the
        complete body was received and the image verified; the result of that call is not reported. */
    method Finish(verify: Bytes -> bool) returns (status: Status, bootRequested: bool)
      requires Valid()
      modifies Footprint()
      ensures bootRequested <==> phase == SuccessPhase && status == Done
      ensures bootRequested ==> client.Complete() && verify(part.cells[..])
      ensures old(InSync()) && bootRequested ==>
                |client.body| <= part.cells.Length && part.cells[..|client.body|] == client.body
      ensures client.pos == old(client.pos) && phase == old(phase)
      ensures old(InSync() && phase == SuccessPhase && part.fates == []) ==>
                16 <= |client.body| && |client.body| + 16 <= part.cells.Length ==>
                  (bootRequested <==> verify(part.cells[..]))
    {
      status := Done;
      ghost var wasInSync := InSync();
      if phase == SuccessPhase || phase == InProgressPhase {
        var err := entry.End(verify);
        if err != Ok {
          status := OtaError(err);
        } else if phase == SuccessPhase && wasInSync {
          CompleteIsImage(part.cells[..], client.body, entry.wroteSize);
        }
      }
      bootRequested := status == Done && phase == SuccessPhase;
    }
  }

  /** Perform until it reports something other than progress. */
  method PerformAll(handle: HttpsOtaHandle) returns (status: Status)
    requires handle.Valid() && handle.InSync() && handle.phase == BeginPhase
    modifies handle.Footprint()
    ensures handle.Valid() && (handle.entry == old(handle.entry) || (fresh(handle.entry) && fresh(handle.entry.partialData)))
    ensures status == Done ==> handle.InSync()
    ensures status == Done <==> handle.phase == SuccessPhase
    ensures old(Healthy(handle.part, handle.client)) ==> status == Done && handle.part.fates == []
  {
    status := InProgressYet;
    while status == InProgressYet
      invariant handle.Valid()
      invariant handle.entry == old(handle.entry) || (fresh(handle.entry) && fresh(handle.entry.partialData))
      invariant status == InProgressYet || status == Done ==> handle.InSync()
      invariant status == Done <==> handle.phase == SuccessPhase
      invariant old(Healthy(handle.part, handle.client)) ==>
                  (status == Done || (status == InProgressYet && Healthy(handle.part, handle.client))) &&
                  handle.part.fates == []
      decreases |handle.client.deliveries|, handle.phase == BeginPhase, status == InProgressYet
    {
      status := handle.Perform();
    }
  }

  /** The calls of an application that stops at the first error: begin, the image description if `describe` asks for it,
      perform until it reports something other than progress, finish; without the description that is `esp_https_ota`.
      Success means that the partition starts with exactly the body the server sent and passed verification, and was
      selected for the next boot. */
  method HttpsOtaUpdate(part: Partition, encrypted: bool, client: HttpClient, headerSize: nat, bufferSize: nat,
                        describe: bool, verify: Bytes -> bool)
    returns (status: Status, bootRequested: bool)
    requires part.cells.Length > 0 && headerSize > 0 && client.pos == 0
    modifies part, part.cells, client
    ensures status == Done ==> bootRequested
    ensures bootRequested ==>
              && client.Complete() && verify(part.cells[..])
              && |client.body| <= part.cells.Length && part.cells[..|client.body|] == client.body
    ensures old(Healthy(part, client)) && (describe ==> headerSize <= |client.body|) ==>
              (bootRequested <==> verify(part.cells[..]))
  {
    var handle := new HttpsOtaHandle(part, encrypted, client, headerSize, bufferSize);
    status := Done;
    if describe {
      var ok := handle.GetImgDesc();
      if !ok {
        status := Fail;
      }
    }
    if status == Done {
      status := PerformAll(handle);
    }
    var finishStatus;
    finishStatus, bootRequested := handle.Finish(verify);
    if status == Done {
      status := finishStatus;
    }
  }
}
