/** A whole update over the network (esp_https_ota.c:330-367, 381-415, esp_ota_ops.c:420-461): download, verification,
    selection. Whatever fails and whenever the power fails, what boots next is what was selected before, or an image that
    arrived complete. */
module OtaUpdate {
  import opened OtaSelect
  import opened OtaCrc
  import OtaData
  import Flash
  import HttpsOta

  /** The app partition and the boot record are different memory. */
  ghost predicate Separate(part: Flash.Partition, otadata: OtaData.OtaPartition) {
    var app: set<object> := {part, part.cells};
    var record: set<object> := {otadata, otadata.cells};
    app !! record
  }

  /** `esp_ota_set_boot_partition` for the OTA slot `y`: the image in it is verified once more, then the slot is selected. */
  method SetBootPartition(
      part: Flash.Partition, y: nat, appCount: nat, otadata: OtaData.OtaPartition, newState: OtaData.Word,
      verify: Flash.Bytes -> bool)
    returns (ok: bool)
    requires Separate(part, otadata)
    requires otadata.crc == SeqCrc && otadata.cells.Length == 2 * OtaData.SECTOR && y <= 15 && appCount <= 16
    requires newState == IMG_NEW || newState == IMG_UNDEFINED
    requires appCount > 0 ==>
               SeqRoom(SeqCrc, otadata.Entry(0), appCount) && SeqRoom(SeqCrc, otadata.Entry(1), appCount)
    modifies otadata`power, otadata.cells
    ensures otadata.Boots(appCount) == old(otadata.Boots(appCount)) || otadata.Boots(appCount) == Slot(y)
    ensures !verify(part.cells[..]) ==> !ok && unchanged(otadata.cells)
    ensures verify(part.cells[..]) && y < appCount && old(otadata.power) > OtaData.ENTRY ==> ok
    ensures ok ==>
              && y < appCount
              && (otadata.Boots(appCount) == Slot(y) <==>
                    SwitchWorks(SeqCrc, old(otadata.Entry(0)), old(otadata.Entry(1)), y, appCount))
  {
    hide SeqCrc, SeqRoom, SwitchWorks, BootOf, OtaData.TornWordsRejected, OtaData.OtaPartition.Entry;
    if !verify(part.cells[..]) {
      return false;
    }
    forall w: OtaData.Word ensures OtaData.TornWordsRejected(SeqCrc, w) && SeqCrc(w) < WORD_LIMIT {
      SeqCrcRejectsTornWords(w);
    }
    ok := otadata.RewriteOtaData(y, appCount, newState);
  }

  /** A download into the partition of slot `y`, with or without a look at the image description first. A result of Done
      does not say that the selection went well, since the code loses that error; with power enough and a switch that
      works it did. */
  method UpdateAndSelect(
      part: Flash.Partition, encrypted: bool, client: HttpsOta.HttpClient, headerSize: nat, bufferSize: nat,
      describe: bool, y: nat, appCount: nat, otadata: OtaData.OtaPartition, newState: OtaData.Word,
      verify: Flash.Bytes -> bool)
    returns (status: HttpsOta.Status)
    requires part.cells.Length > 0 && headerSize > 0 && client.pos == 0
    requires Separate(part, otadata)
    requires otadata.crc == SeqCrc && otadata.cells.Length == 2 * OtaData.SECTOR && y <= 15 && appCount <= 16
    requires newState == IMG_NEW || newState == IMG_UNDEFINED
    requires appCount > 0 ==>
               SeqRoom(SeqCrc, otadata.Entry(0), appCount) && SeqRoom(SeqCrc, otadata.Entry(1), appCount)
    modifies part, part.cells, client, otadata`power, otadata.cells
    ensures otadata.Boots(appCount) != old(otadata.Boots(appCount)) ==>
              && otadata.Boots(appCount) == Slot(y) && client.Complete() && verify(part.cells[..])
              && |client.body| <= part.cells.Length && part.cells[..|client.body|] == client.body
    ensures status == HttpsOta.Done ==>
              && client.Complete() && verify(part.cells[..])
              && |client.body| <= part.cells.Length && part.cells[..|client.body|] == client.body
    ensures status == HttpsOta.Done && y < appCount && old(otadata.power) > OtaData.ENTRY &&
            SwitchWorks(SeqCrc, old(otadata.Entry(0)), old(otadata.Entry(1)), y, appCount) ==>
              otadata.Boots(appCount) == Slot(y)
    ensures old(HttpsOta.Healthy(part, client)) && (describe ==> headerSize <= |client.body|) &&
            verify(part.cells[..]) && y < appCount && old(otadata.power) > OtaData.ENTRY &&
            SwitchWorks(SeqCrc, old(otadata.Entry(0)), old(otadata.Entry(1)), y, appCount) ==>
              otadata.Boots(appCount) == Slot(y)
  {
    hide SeqCrc, SeqRoom, SwitchWorks, BootOf, OtaData.OtaPartition.Entry;
    var bootRequested;
    status, bootRequested := HttpsOta.HttpsOtaUpdate(part, encrypted, client, headerSize, bufferSize, describe, verify);
    if bootRequested {
      var ok := SetBootPartition(part, y, appCount, otadata, newState, verify);
    }
  }
}
