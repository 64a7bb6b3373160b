/** Sending HTTP request headers through a bounded buffer (http_header.c:175-224, esp_http_client.c:1294-1364): as many
    lines as fit are generated at a time, and the request line shares the first batch. Section 3 of RFC 7230 wants the
    request line, the header lines, and one empty line. */
module HttpHeaders {
  import opened Bytes

  datatype Header = Header(key: bytes, value: bytes)

  const CRLF: bytes := [13, 10]
  const COLON_SPACE: bytes := [58, 32]

  function Line(h: Header): bytes {
    h.key + COLON_SPACE + h.value + CRLF
  }

  function Lines(headers: seq<Header>): bytes {
    if headers == [] then [] else Line(headers[0]) + Lines(headers[1..])
  }

  lemma {:induction false} LinesAppend(headers: seq<Header>, h: Header)
    ensures Lines(headers + [h]) == Lines(headers) + Line(h)
  {
    if headers == [] {
      assert [h][1..] == [];
      assert Line(h) + [] == Line(h) && [] + Line(h) == Line(h);
    } else {
      assert (headers + [h])[1..] == headers[1..] + [h];
      LinesAppend(headers[1..], h);
    }
  }

  lemma {:induction false} LinesConcat(a: seq<Header>, b: seq<Header>)
    ensures Lines(a + b) == Lines(a) + Lines(b)
  {
    if a == [] {
      assert a + b == b;
    } else {
      assert (a + b)[1..] == a[1..] + b;
      LinesConcat(a[1..], b);
    }
  }

  /** The end of the batch that starts at `index`: the lines from there on that leave three of `room` bytes free. */
  predicate BatchEnd(headers: seq<Header>, index: nat, room: int, k: nat) {
    && index <= k <= |headers|
    && (k > index ==> |Lines(headers[index..k])| <= room - 3)
    && (k < |headers| ==> |Lines(headers[index..k + 1])| > room - 3)
  }

  lemma SliceAppend(headers: seq<Header>, a: nat, b: nat)
    requires a <= b < |headers|
    ensures Lines(headers[a..b + 1]) == Lines(headers[a..b]) + Line(headers[b])
  {
    assert headers[a..b + 1] == headers[a..b] + [headers[b]];
    LinesAppend(headers[a..b], headers[b]);
  }

  /** No header is looked at: none is left, or the loop gives up before it gets to `index`. */
  predicate NothingMeasured(headers: seq<Header>, index: nat, bufferLen: int) {
    index == |headers| || (index > 0 && bufferLen < 3)
  }

  /** First loop of `http_header_generate_string`: how many entries fit. */
  method MeasureBatch(headers: seq<Header>, index: nat, bufferLen: int) returns (siz: nat, retIdx: nat, isEnd: bool)
    requires index <= |headers|
    ensures siz == 0 <==> NothingMeasured(headers, index, bufferLen)
    ensures siz > 0 ==> BatchEnd(headers, index, bufferLen, retIdx) && (isEnd <==> retIdx == |headers|)
  {
    siz := 0;
    var idx := 0;
    isEnd := false;
    while idx < |headers|
      invariant idx <= |headers|
      invariant siz == if idx <= index then 0 else |Lines(headers[index..idx])|
      invariant idx > index ==> siz > 0 && siz <= bufferLen - 3
      invariant idx > 0 ==> bufferLen >= 3
    {
      if idx >= index {
        siz := siz + |headers[idx].key| + |headers[idx].value| + 4;
        SliceAppend(headers, index, idx);
        if idx == index {
          assert headers[index..index] == [];
        }
      }
      idx := idx + 1;
      if siz + 1 > bufferLen - 2 {
        retIdx := idx - 1;
        return;
      }
    }
    retIdx, isEnd := idx, true;
  }

  /** `http_header_generate_string`: the next batch, written at `at`, and the index behind it; zero when there is nothing
      left. The empty line follows the last header. */
  method GenerateString(headers: seq<Header>, index: nat, buffer: array<byte>, at: nat, bufferLen: int)
    returns (retIdx: nat, len: int)
    requires index <= |headers| && at <= buffer.Length && at + bufferLen <= buffer.Length
    modifies buffer
    ensures NothingMeasured(headers, index, bufferLen) ==> retIdx == 0 && len == bufferLen && unchanged(buffer)
    ensures !NothingMeasured(headers, index, bufferLen) ==>
              BatchEnd(headers, index, bufferLen, retIdx) &&
              len == |Batch(headers, index, retIdx)| && at + len <= buffer.Length &&
              (retIdx > index ==> len < bufferLen) &&
              buffer[..at + len] == old(buffer[..at]) + Batch(headers, index, retIdx)
  {
    hide Lines, Line;
    var siz, isEnd;
    siz, retIdx, isEnd := MeasureBatch(headers, index, bufferLen);
    if siz == 0 {
      return 0, bufferLen;
    }
    assert headers[index..index] == [] && Lines([]) == [] by {
      NoLines();
    }
    ghost var before := buffer[..at];
    var strLen := 0;
    var idx := index;
    while idx < retIdx
      invariant index <= idx <= retIdx && strLen == |Lines(headers[index..idx])|
      invariant idx > index ==> at + strLen <= buffer.Length
      invariant buffer[..at + strLen] == before + Lines(headers[index..idx])
    {
      SliceAppend(headers, index, idx);
      SliceMonotone(headers, index, idx + 1, retIdx);
      Store(buffer, at + strLen, Line(headers[idx]));
      strLen := strLen + |Line(headers[idx])|;
      assert before + Lines(headers[index..idx]) + Line(headers[idx]) == before + Lines(headers[index..idx + 1]);
      idx := idx + 1;
    }
    if isEnd {
      Store(buffer, at + strLen, CRLF);
      strLen := strLen + 2;
      assert before + Lines(headers[index..retIdx]) + CRLF == before + Batch(headers, index, retIdx);
    }
    len := strLen;
  }

  lemma NoLines()
    ensures Lines([]) == []
  {
  }

  lemma SliceMonotone(headers: seq<Header>, a: nat, b: nat, c: nat)
    requires a <= b <= c <= |headers|
    ensures |Lines(headers[a..b])| <= |Lines(headers[a..c])|
  {
    assert headers[a..c] == headers[a..b] + headers[b..c];
    LinesConcat(headers[a..b], headers[b..c]);
  }

  /** The text of a batch. */
  function Batch(headers: seq<Header>, index: nat, end: nat): bytes
    requires index <= end <= |headers|
  {
    Lines(headers[index..end]) + if end == |headers| then CRLF else []
  }

  /** `snprintf` where the text is known to fit. */
  method Store(buffer: array<byte>, at: nat, text: bytes)
    requires at + |text| <= buffer.Length
    modifies buffer
    ensures buffer[..at + |text|] == old(buffer[..at]) + text
  {
    for i := 0 to |text|
      invariant forall k | 0 <= k < at :: buffer[k] == old(buffer[k])
      invariant forall k | 0 <= k < i :: buffer[at + k] == text[k]
    {
      buffer[at + i] := text[i];
    }
  }

  // What a request may put on the wire. The header list here is what is left to send.

  /** Header `k` leaves three bytes of the transmit buffer free, on its own or, for the first one, behind the request
      line. */
  predicate Fits(firstLine: bytes, headers: seq<Header>, tx: int, k: nat)
    requires k < |headers|
  {
    (if k == 0 then |firstLine| else 0) + |Line(headers[k])| <= tx - 3
  }

  /** The first header from `k` on that does not fit, or the number of headers. */
  function FirstMisfit(firstLine: bytes, headers: seq<Header>, tx: int, k: nat): (r: nat)
    requires k <= |headers|
    ensures k <= r <= |headers|
    ensures forall j | k <= j < r :: Fits(firstLine, headers, tx, j)
    ensures r < |headers| ==> !Fits(firstLine, headers, tx, r)
    decreases |headers| - k
  {
    if k < |headers| && Fits(firstLine, headers, tx, k) then FirstMisfit(firstLine, headers, tx, k + 1) else k
  }

  /** Request line, every header once and in order, one empty line. */
  function Request(firstLine: bytes, headers: seq<Header>): bytes {
    firstLine + Lines(headers) + CRLF
  }

  /** What has been sent when the headers before `k` have: nothing at all before the first of them. */
  function SentBefore(firstLine: bytes, headers: seq<Header>, k: nat): bytes
    requires k <= |headers|
  {
    if k == 0 then [] else firstLine + Batch(headers, 0, k)
  }

  predicate Deliverable(firstLine: bytes, headers: seq<Header>, tx: int) {
    headers != [] && forall k | 0 <= k < |headers| :: Fits(firstLine, headers, tx, k)
  }

  lemma LinesGrow(headers: seq<Header>, k: nat)
    requires k <= |headers|
    ensures |Lines(headers[..k])| + (if k < |headers| then 4 else 0) <= |Lines(headers)|
  {
    assert headers == headers[..k] + headers[k..];
    LinesConcat(headers[..k], headers[k..]);
  }

  /** The whole request goes out exactly when the list is not empty and each line fits. */
  lemma SentWholeIff(firstLine: bytes, headers: seq<Header>, tx: int)
    ensures SentBefore(firstLine, headers, FirstMisfit(firstLine, headers, tx, 0)) == Request(firstLine, headers)
            <==> Deliverable(firstLine, headers, tx)
  {
    var k := FirstMisfit(firstLine, headers, tx, 0);
    LinesGrow(headers, k);
    if k == |headers| && headers != [] {
      assert headers[0..k] == headers;
      assert firstLine + (Lines(headers) + CRLF) == Request(firstLine, headers);
    } else if k > 0 {
      assert headers[0..k] == headers[..k];
      assert |SentBefore(firstLine, headers, k)| < |Request(firstLine, headers)|;
    } else {
      assert |SentBefore(firstLine, headers, k)| < |Request(firstLine, headers)|;
    }
  }

  /** A batch that goes out extends what was sent by its own text. */
  lemma SentStep(firstLine: bytes, headers: seq<Header>, index: nat, end: nat)
    requires index < end <= |headers|
    ensures SentBefore(firstLine, headers, end)
            == SentBefore(firstLine, headers, index) + (if index == 0 then firstLine else []) + Batch(headers, index, end)
  {
    hide Lines;
    if index > 0 {
      assert headers[0..end] == headers[0..index] + headers[index..end];
      LinesConcat(headers[0..index], headers[index..end]);
      Regroup(firstLine, Lines(headers[0..index]), Lines(headers[index..end]), if end == |headers| then CRLF else []);
    }
  }

  lemma PrefixGrows(s: bytes, a: nat, b: nat, k: nat)
    requires a <= b <= |s| && k <= b - a
    ensures s[..a] + s[a..b][..k] == s[..a + k]
  {
  }

  lemma Regroup(f: bytes, a: bytes, b: bytes, t: bytes)
    ensures f + (a + b + t) == f + (a + []) + [] + (b + t)
  {
  }

  /** A batch holds the headers that fit from its start on, and stops only where one does not fit behind the others. */
  lemma BatchFits(firstLine: bytes, headers: seq<Header>, tx: int, index: nat, end: nat)
    requires BatchEnd(headers, index, if index == 0 then tx - |firstLine| else tx, end) && index < |headers|
    requires forall j | 0 <= j < index :: Fits(firstLine, headers, tx, j)
    ensures end == index ==> FirstMisfit(firstLine, headers, tx, 0) == index
    ensures Batch(headers, index, end) == [] <==> end == index
    ensures forall j | 0 <= j < end :: Fits(firstLine, headers, tx, j)
  {
    if end == index {
      assert headers[index..index + 1] == [headers[index]];
      assert Lines([headers[index]]) == Line(headers[index]) by {
        LinesAppend([], headers[index]);
        assert [] + [headers[index]] == [headers[index]];
      }
      assert !Fits(firstLine, headers, tx, index);
    }
    forall j | index <= j < end ensures Fits(firstLine, headers, tx, j) {
      SliceAppend(headers, index, j);
      SliceMonotone(headers, index, j + 1, end);
    }
    if index < end {
      SliceMonotone(headers, index, index + 1, end);
      SliceAppend(headers, index, index);
    }
  }

  /** Every part of what is sent begins the request; a piece of the next batch does too, and leaves something to send. */
  lemma SentBegins(firstLine: bytes, headers: seq<Header>, k: nat, before: bytes, sent: bytes, batch: bytes, n: nat)
    requires 0 < k <= |headers| && before + SentBefore(firstLine, headers, k) == sent + batch && n < |batch|
    ensures Unfinished(sent + batch[..n], before + Request(firstLine, headers))
  {
    hide Lines;
    assert headers[0..k] == headers[..k];
    assert headers == headers[..k] + headers[k..];
    LinesConcat(headers[..k], headers[k..]);
    var tail := if k == |headers| then [] else Lines(headers[k..]) + CRLF;
    assert headers[|headers|..] == [];
    NoLines();
    Regroup(firstLine, Lines(headers[..k]), Lines(headers[k..]), CRLF);
    assert Request(firstLine, headers) == SentBefore(firstLine, headers, k) + tail by {
      assert Request(firstLine, headers) == firstLine + (Lines(headers[..k]) + Lines(headers[k..])) + CRLF;
    }
    hide Request, SentBefore;
    Associate(before, SentBefore(firstLine, headers, k), tail);
    CutBatch(sent, batch, n, tail);
  }

  lemma SentIsPart(firstLine: bytes, headers: seq<Header>, k: nat)
    requires k <= |headers|
    ensures |SentBefore(firstLine, headers, k)| <= |Request(firstLine, headers)|
  {
    hide Lines;
    assert headers[0..k] == headers[..k] && headers == headers[..k] + headers[k..];
    LinesConcat(headers[..k], headers[k..]);
    assert k == |headers| ==> headers[..k] == headers;
  }

  lemma CutBatch(sent: bytes, batch: bytes, n: nat, tail: bytes)
    requires n < |batch|
    ensures Unfinished(sent + batch[..n], sent + batch + tail)
  {
    var rest := batch[n..] + tail;
    assert sent + batch[..n] + rest == sent + batch + tail;
  }

  lemma SentAfterIff(firstLine: bytes, headers: seq<Header>, tx: int, before: bytes)
    ensures Deliverable(firstLine, headers, tx) <==>
            before + SentBefore(firstLine, headers, FirstMisfit(firstLine, headers, tx, 0))
            == before + Request(firstLine, headers)
  {
    var x, y := SentBefore(firstLine, headers, FirstMisfit(firstLine, headers, tx, 0)), Request(firstLine, headers);
    assert (before + x)[|before|..] == x && (before + y)[|before|..] == y;
    SentWholeIff(firstLine, headers, tx);
  }

  /** Something of `request` is still to be sent after `sent`. */
  ghost predicate Unfinished(sent: bytes, request: bytes) {
    exists rest: bytes :: rest != [] && sent + rest == request
  }

  lemma NothingSent(firstLine: bytes, headers: seq<Header>)
    ensures SentBefore(firstLine, headers, 0) == []
  {
  }

  lemma AllFit(firstLine: bytes, headers: seq<Header>, tx: int)
    requires forall j | 0 <= j < |headers| :: Fits(firstLine, headers, tx, j)
    ensures FirstMisfit(firstLine, headers, tx, 0) == |headers|
  {
  }

  /** A batch of all headers from `start + i` on is the batch of the rest from `i` on. */
  lemma BatchOfRest(headers: seq<Header>, start: nat, room: int, i: nat, end: nat)
    requires start + i <= |headers| && BatchEnd(headers, start + i, room, end)
    ensures start + i <= end <= |headers| && BatchEnd(headers[start..], i, room, end - start)
    ensures Batch(headers, start + i, end) == Batch(headers[start..], i, end - start)
  {
    hide Lines;
    SliceOfRest(headers, start, i, end - start);
    if end < |headers| {
      SliceOfRest(headers, start, i, end - start + 1);
    }
  }

  lemma SliceOfRest(headers: seq<Header>, start: nat, a: nat, b: nat)
    requires a <= b && start + b <= |headers|
    ensures headers[start..][a..b] == headers[start + a..start + b]
  {
  }

  lemma NoRoomForAny(line: bytes, headers: seq<Header>, tx: int, k: nat)
    requires k < |headers| && tx < 3 && forall j | 0 <= j < k :: Fits(line, headers, tx, j)
    ensures FirstMisfit(line, headers, tx, 0) == k
  {
    assert !Fits(line, headers, tx, k);
  }

  // ---------- reading the wire ----------

  /** The text in front of the first line break, and what is behind that. */
  function ReadLine(s: bytes): (r: Option<(bytes, bytes)>)
    ensures r.Some? ==> |r.value.1| < |s|
  {
    if |s| < 2 then None
    else if s[0] == '\r' as byte && s[1] == '\n' as byte then Some(([], s[2..]))
    else
      match ReadLine(s[1..])
      case None => None
      case Some((line, rest)) => Some(([s[0]] + line, rest))
  }

  /** A field: its name up to the first colon, a space, its value. */
  function ReadField(line: bytes): Option<Header> {
    if line == [] then None
    else if line[0] == ':' as byte then
      if |line| >= 2 && line[1] == ' ' as byte then Some(Header([], line[2..])) else None
    else
      match ReadField(line[1..])
      case None => None
      case Some(h) => Some(h.(key := [line[0]] + h.key))
  }

  /** The fields up to an empty line, and what is behind it. */
  function ReadFields(s: bytes): Option<(seq<Header>, bytes)>
    decreases |s|
  {
    match ReadLine(s)
    case None => None
    case Some((line, rest)) =>
      if line == [] then Some(([], rest))
      else
        match (ReadField(line), ReadFields(rest))
        case (Some(h), Some((headers, body))) => Some(([h] + headers, body))
        case _ => None
  }

  /** What a server makes of the wire: the request line, the fields, and the body. */
  function ReadRequest(s: bytes): Option<(bytes, seq<Header>, bytes)> {
    match ReadLine(s)
    case None => None
    case Some((line, rest)) =>
      match ReadFields(rest)
      case None => None
      case Some((headers, body)) => Some((line, headers, body))
  }

  predicate NoBreak(s: bytes) {
    forall i | 0 <= i < |s| - 1 :: s[i] != '\r' as byte || s[i + 1] != '\n' as byte
  }

  /** Names without colons, and no line break in a line. */
  predicate Readable(h: Header) {
    (':' as byte) !in h.key && NoBreak(h.key + [':' as byte, ' ' as byte] + h.value)
  }

  predicate AllReadable(headers: seq<Header>) {
    forall i | 0 <= i < |headers| :: Readable(headers[i])
  }

  /** A request line with its line break. */
  predicate Broken(firstLine: bytes) {
    && |firstLine| >= 2 && firstLine[|firstLine| - 2..] == ['\r' as byte, '\n' as byte]
    && NoBreak(firstLine[..|firstLine| - 2])
  }

  function Unbroken(firstLine: bytes): bytes
    requires Broken(firstLine)
  {
    firstLine[..|firstLine| - 2]
  }

  lemma BrokenIs(firstLine: bytes)
    requires Broken(firstLine)
    ensures firstLine == Unbroken(firstLine) + ['\r' as byte, '\n' as byte] && NoBreak(Unbroken(firstLine))
  {
  }

  lemma {:induction false} LineIsRead(line: bytes, rest: bytes)
    requires NoBreak(line)
    ensures ReadLine(line + ['\r' as byte, '\n' as byte] + rest) == Some((line, rest))
    decreases line
  {
    var s := line + ['\r' as byte, '\n' as byte] + rest;
    if line == [] {
      assert s[2..] == rest;
    } else {
      assert s[1..] == line[1..] + ['\r' as byte, '\n' as byte] + rest;
      assert line[1..] == [] || s[1] == line[1];
      LineIsRead(line[1..], rest);
      assert [line[0]] + line[1..] == line;
    }
  }

  lemma {:induction false} FieldIsRead(key: bytes, value: bytes)
    requires (':' as byte) !in key
    ensures ReadField(key + [':' as byte, ' ' as byte] + value) == Some(Header(key, value))
  {
    var line := key + [':' as byte, ' ' as byte] + value;
    if key == [] {
      assert line[2..] == value;
    } else {
      assert line[1..] == key[1..] + [':' as byte, ' ' as byte] + value;
      FieldIsRead(key[1..], value);
      assert [key[0]] + key[1..] == key;
    }
  }

  lemma LineOf(h: Header)
    ensures Line(h) == h.key + [':' as byte, ' ' as byte] + h.value + ['\r' as byte, '\n' as byte]
  {
  }

  /** Lines of headers are read as these headers, in front of whatever comes next. */
  lemma {:induction false} LinesAreRead(headers: seq<Header>, rest: bytes)
    requires AllReadable(headers)
    ensures ReadFields(Lines(headers) + rest) ==
            match ReadFields(rest)
            case None => None
            case Some((more, body)) => Some((headers + more, body))
  {
    hide ReadLine, ReadField;
    if headers == [] {
      assert Lines(headers) + rest == rest;
      assert forall more: seq<Header> :: headers + more == more;
    } else {
      var h := headers[0];
      var line := h.key + [':' as byte, ' ' as byte] + h.value;
      LineOf(h);
      assert Lines(headers) + rest == line + ['\r' as byte, '\n' as byte] + (Lines(headers[1..]) + rest);
      LineIsRead(line, Lines(headers[1..]) + rest);
      FieldIsRead(h.key, h.value);
      LinesAreRead(headers[1..], rest);
      assert forall more: seq<Header> :: [h] + (headers[1..] + more) == headers + more;
    }
  }

  lemma EndIsRead(body: bytes)
    ensures ReadFields(['\r' as byte, '\n' as byte] + body) == Some(([], body)) && ReadFields([]) == None
  {
    LineIsRead([], body);
    assert [] + ['\r' as byte, '\n' as byte] + body == ['\r' as byte, '\n' as byte] + body;
  }

  /** The request is read back as it was meant: its line, every header in order, and the body behind it. */
  lemma RequestIsRead(line: bytes, headers: seq<Header>, body: bytes)
    requires NoBreak(line) && AllReadable(headers)
    ensures ReadRequest(Request(line + ['\r' as byte, '\n' as byte], headers) + body) == Some((line, headers, body))
  {
    hide ReadLine, ReadFields, Lines;
    var crlf: bytes := ['\r' as byte, '\n' as byte];
    assert CRLF == crlf;
    assert Request(line + crlf, headers) + body == line + crlf + (Lines(headers) + (crlf + body));
    LineIsRead(line, Lines(headers) + (crlf + body));
    EndIsRead(body);
    LinesAreRead(headers, crlf + body);
    assert headers + [] == headers;
  }

  /** What goes out is read as the request exactly if the request is deliverable; otherwise no request is read at all. */
  lemma SentIsReadIff(line: bytes, headers: seq<Header>, tx: int)
    requires NoBreak(line) && AllReadable(headers)
    ensures
      var firstLine := line + ['\r' as byte, '\n' as byte];
      ReadRequest(SentBefore(firstLine, headers, FirstMisfit(firstLine, headers, tx, 0))) ==
      if Deliverable(firstLine, headers, tx) then Some((line, headers, [])) else None
  {
    hide ReadFields, Lines, Fits;
    var firstLine := line + ['\r' as byte, '\n' as byte];
    var k := FirstMisfit(firstLine, headers, tx, 0);
    SentWholeIff(firstLine, headers, tx);
    if Deliverable(firstLine, headers, tx) {
      RequestIsRead(line, headers, []);
      assert Request(firstLine, headers) + [] == Request(firstLine, headers);
    } else if k > 0 {
      assert headers[0..k] == headers[..k] && k < |headers|;
      assert SentBefore(firstLine, headers, k) == line + ['\r' as byte, '\n' as byte] + (Lines(headers[..k]) + []);
      LineIsRead(line, Lines(headers[..k]) + []);
      EndIsRead([]);
      LinesAreRead(headers[..k], []);
    }
  }

  datatype SendError = OK | FAIL | WRITE_DATA

  datatype ClientState = INIT | CONNECTED | REQ_COMPLETE_HEADER

  /** The part of a client that sends the request: `sent` is what the transport has taken, `takes` what it answers to the
      coming writes (a count, or zero and below for an error; it fails when the list is used up). */
  class Client {
    const buffer: array<byte>
    var headers: seq<Header>
    var headerIndex: nat
    var dataWriteLeft: int
    var dataWrittenIndex: nat
    var firstLinePrepared: bool
    var postLen: int
    var state: ClientState
    var sent: bytes
    var takes: seq<int>

    constructor (tx: nat, headers: seq<Header>, postLen: int, takes: seq<int>)
      ensures fresh(buffer) && buffer.Length == tx && !firstLinePrepared && state == CONNECTED && sent == []
      ensures this.headers == headers && this.postLen == postLen && this.takes == takes
    {
      buffer := new byte[tx];
      this.headers, this.postLen, this.takes := headers, postLen, takes;
      headerIndex, dataWriteLeft, dataWrittenIndex, firstLinePrepared := 0, 0, 0, false;
      state, sent := CONNECTED, [];
    }

    /** The transport will take something of each write. */
    ghost predicate Willing()
      reads this`takes
    {
      forall i | 0 <= i < |takes| :: takes[i] > 0
    }

    /** `esp_transport_write`: takes at least one byte and at most all of them, or fails. */
    method TransportWrite(data: bytes) returns (wret: int)
      modifies this`sent, this`takes
      ensures wret <= |data|
      ensures sent == old(sent) + (if wret <= 0 then [] else data[..wret])
      ensures old(Willing() && takes != []) && data != [] ==> wret > 0 && Willing() && |takes| == |old(takes)| - 1
    {
      if takes == [] {
        return -1;
      }
      wret := if takes[0] > |data| then |data| else takes[0];
      takes := takes[1..];
      sent := sent + if wret <= 0 then [] else data[..wret];
    }

    /** Inner loop: the first `wlen` bytes of the buffer, in as many pieces as the transport wants. */
    method SendBuffer(wlen: nat) returns (ok: bool)
      requires 0 < wlen <= buffer.Length
      modifies this`sent, this`takes, this`dataWriteLeft, this`dataWrittenIndex, this`state
      ensures dataWrittenIndex <= wlen && dataWriteLeft == wlen - dataWrittenIndex
      ensures sent == old(sent) + buffer[..dataWrittenIndex]
      ensures ok ==> dataWriteLeft == 0 && state == old(state)
      ensures !ok ==> dataWriteLeft > 0 && state == INIT
      ensures old(Willing()) && |old(takes)| >= wlen ==> ok && Willing() && |takes| >= |old(takes)| - wlen
    {
      dataWriteLeft, dataWrittenIndex := wlen, 0;
      while dataWriteLeft > 0
        invariant dataWriteLeft >= 0 && dataWriteLeft + dataWrittenIndex == wlen
        invariant sent == old(sent) + buffer[..dataWrittenIndex] && state == old(state)
        invariant old(Willing()) && |old(takes)| >= wlen ==> Willing() && |takes| >= |old(takes)| - dataWrittenIndex
      {
        var wret := TransportWrite(buffer[dataWrittenIndex..dataWrittenIndex + dataWriteLeft]);
        if wret <= 0 {
          state := INIT;
          return false;
        }
        PrefixGrows(buffer[..], dataWrittenIndex, dataWrittenIndex + dataWriteLeft, wret);
        Associate(old(sent), buffer[..dataWrittenIndex],
                  buffer[dataWrittenIndex..dataWrittenIndex + dataWriteLeft][..wret]);
        dataWriteLeft := dataWriteLeft - wret;
        dataWrittenIndex := dataWrittenIndex + wret;
      }
      ok := true;
    }

    /** Head of the outer loop: puts the next batch into the buffer, behind the request line while that is still there.
        `start` is where the headers to send begin. */
    method NextBatch(first: nat, ghost line: bytes, ghost start: nat) returns (more: bool, wlen: int)
      requires start <= headerIndex <= |headers| && |line| <= buffer.Length && (line != [] ==> start == 0)
      requires first == if headerIndex == start then |line| else 0
      requires headerIndex == start ==> buffer[..first] == line
      requires forall j | 0 <= j < headerIndex - start :: Fits(line, headers[start..], buffer.Length, j)
      modifies this`headerIndex, buffer
      ensures !more ==> FirstMisfit(line, headers[start..], buffer.Length, 0) == old(headerIndex) - start
      ensures more ==>
                && old(headerIndex) < headerIndex <= |headers| && 0 < wlen < buffer.Length
                && SentBefore(line, headers[start..], headerIndex - start)
                   == SentBefore(line, headers[start..], old(headerIndex) - start) + buffer[..wlen]
                && forall j | 0 <= j < headerIndex - start :: Fits(line, headers[start..], buffer.Length, j)
    {
      hide Lines, Line, FirstMisfit, SentBefore, Fits, Batch, BatchEnd;
      ghost var index, rest := headerIndex - start, headers[start..];
      wlen := buffer.Length - first;
      ghost var room := wlen;
      headerIndex, wlen := GenerateString(headers, headerIndex, buffer, first, wlen);
      if NothingMeasured(headers, start + index, room) {
        if index < |rest| {
          NoRoomForAny(line, rest, buffer.Length, index);
        } else {
          AllFit(line, rest, buffer.Length);
        }
      } else {
        BatchOfRest(headers, start, room, index, headerIndex);
        BatchFits(line, rest, buffer.Length, index, headerIndex - start);
      }
      if headerIndex == 0 || wlen <= 0 {
        return false, wlen;
      }
      SentStep(line, rest, index, headerIndex - start);
      wlen := wlen + first;
      assert SentBefore(line, rest, index) + (if index == 0 then line else []) + Batch(rest, index, headerIndex - start)
             == SentBefore(line, rest, index) + buffer[..wlen];
      more := true;
    }

    /** Body of the outer loop: terminates the text in the buffer and sends it. */
    method SendBatch(wlen: nat, ghost line: bytes, ghost rest: seq<Header>, ghost k: nat, ghost before: bytes)
      returns (ok: bool)
      requires 0 < wlen < buffer.Length && 0 < k <= |rest|
      requires before + SentBefore(line, rest, k) == sent + buffer[..wlen]
      modifies this`sent, this`takes, this`dataWriteLeft, this`dataWrittenIndex, this`state, buffer
      ensures ok ==> sent == before + SentBefore(line, rest, k) && state == old(state)
      ensures !ok ==> dataWriteLeft > 0 && state == INIT && Unfinished(sent, before + Request(line, rest))
      ensures old(Willing()) && |old(takes)| >= wlen ==> ok && Willing() && |takes| >= |old(takes)| - wlen
    {
      hide *;
      ghost var batch := buffer[..wlen];
      buffer[wlen] := 0;
      assert buffer[..wlen] == batch;
      ok := SendBuffer(wlen);
      assert buffer[..dataWrittenIndex] == batch[..dataWrittenIndex];
      if !ok {
        SentBegins(line, rest, k, before, old(sent), batch, dataWrittenIndex);
      }
    }

    /** `esp_http_client_request_send`. A call that finds the request line prepared goes on with the next header and
        without the line; it refuses to send data an earlier call has left, in this state. Apart from that, on OK the wire
        has the headers before the first misfit, and on a transport error a proper beginning of what was to be sent. */
    method RequestSend(firstLine: bytes) returns (err: SendError)
      requires firstLine != [] && state == CONNECTED && headerIndex <= |headers|
      modifies this`sent, this`takes, this`dataWriteLeft, this`dataWrittenIndex, this`state, this`headerIndex,
               this`firstLinePrepared, buffer
      ensures old(firstLinePrepared && dataWriteLeft > 0) ==> err == WRITE_DATA && sent == old(sent) && state == CONNECTED
      ensures err == FAIL <==> !old(firstLinePrepared) && |firstLine| >= buffer.Length
      ensures err == FAIL ==> sent == old(sent) && state == CONNECTED && !firstLinePrepared
      ensures
        var line := if old(firstLinePrepared) then [] else firstLine;
        var rest := if old(firstLinePrepared) then headers[old(headerIndex)..] else headers;
        && (err == OK ==>
              && state == REQ_COMPLETE_HEADER && dataWriteLeft == postLen && dataWrittenIndex == 0 && firstLinePrepared
              && sent == old(sent) + SentBefore(line, rest, FirstMisfit(line, rest, buffer.Length, 0))
              && (sent == old(sent) + Request(line, rest) <==> Deliverable(line, rest, buffer.Length)))
        && (err == WRITE_DATA && !old(firstLinePrepared && dataWriteLeft > 0) ==>
              && state == INIT && firstLinePrepared && dataWriteLeft > 0
              && Unfinished(sent, old(sent) + Request(line, rest)))
      ensures old(Willing()) && |old(takes)| >= |Request(firstLine, headers)| && !old(firstLinePrepared) ==>
                err != WRITE_DATA
      ensures err == OK && !old(firstLinePrepared) && Broken(firstLine) && AllReadable(headers) ==>
                old(sent) <= sent &&
                ReadRequest(sent[|old(sent)|..]) ==
                if Deliverable(firstLine, headers, buffer.Length) then Some((Unbroken(firstLine), headers, [])) else None
    {
      hide Lines, Line, FirstMisfit, SentBefore, Fits, Batch, Request, Deliverable, Unfinished, ReadRequest, AllReadable,
           Broken, Unbroken;
      var first := 0;
      ghost var line, start := [], headerIndex;
      if !firstLinePrepared {
        if |firstLine| >= buffer.Length {
          return FAIL;
        }
        Store(buffer, 0, firstLine);
        first := |firstLine|;
        firstLinePrepared := true;
        headerIndex, dataWriteLeft, dataWrittenIndex := 0, 0, 0;
        line, start := firstLine, 0;
      }
      if dataWriteLeft > 0 {
        return WRITE_DATA;
      }
      ghost var rest := headers[start..];
      assert start == 0 ==> rest == headers;
      err := SendHeaders(first, line, start);
      if err == OK {
        if line != [] && Broken(line) && AllReadable(headers) {
          BrokenIs(line);
          SentIsReadIff(Unbroken(line), headers, buffer.Length);
          assert sent[|old(sent)|..] == SentBefore(line, rest, FirstMisfit(line, rest, buffer.Length, 0));
        }
        SentAfterIff(line, rest, buffer.Length, old(sent));
        dataWrittenIndex, dataWriteLeft := 0, postLen;
        state := REQ_COMPLETE_HEADER;
      }
    }

    /** The outer loop. */
    method SendHeaders(firstLen: nat, ghost line: bytes, ghost start: nat) returns (err: SendError)
      requires start == headerIndex <= |headers| && state == CONNECTED && firstLen == |line| <= buffer.Length
      requires buffer[..firstLen] == line && (line != [] ==> start == 0)
      modifies this`sent, this`takes, this`dataWriteLeft, this`dataWrittenIndex, this`state, this`headerIndex, buffer
      ensures err == OK ==>
                && state == CONNECTED
                && sent == old(sent) +
                           SentBefore(line, headers[start..], FirstMisfit(line, headers[start..], buffer.Length, 0))
      ensures err != OK ==>
                && err == WRITE_DATA && state == INIT && dataWriteLeft > 0
                && Unfinished(sent, old(sent) + Request(line, headers[start..]))
      ensures old(Willing()) && |old(takes)| >= |Request(line, headers[start..])| ==> err == OK
    {
      hide Lines, Line, FirstMisfit, SentBefore, Fits, Batch, Request, Deliverable, Unfinished;
      ghost var before, rest := sent, headers[start..];
      var first := firstLen;
      NothingSent(line, rest);
      while true
        invariant start <= headerIndex <= |headers|
        invariant first == if headerIndex == start then |line| else 0
        invariant headerIndex == start ==> buffer[..first] == line
        invariant forall j | 0 <= j < headerIndex - start :: Fits(line, rest, buffer.Length, j)
        invariant sent == before + SentBefore(line, rest, headerIndex - start) && state == CONNECTED
        invariant old(Willing()) && |old(takes)| >= |Request(line, rest)| ==>
                    Willing() && |takes| >= |old(takes)| - |SentBefore(line, rest, headerIndex - start)|
        decreases |headers| - headerIndex
      {
        ghost var index := headerIndex - start;
        var more, wlen := NextBatch(first, line, start);
        if !more {
          return OK;
        }
        first := 0;
        SentIsPart(line, rest, headerIndex - start);
        Associate(before, SentBefore(line, rest, index), buffer[..wlen]);
        var ok := SendBatch(wlen, line, rest, headerIndex - start, before);
        if !ok {
          return WRITE_DATA;
        }
      }
    }
  }
}
