/** Blynk messages on the wire (blynk_iot.c:275-300, 352-413): the serializer, and the parser that takes one byte at a
    time. The socket between them is left out; bytes go straight from one to the other. */
module BlynkFraming {
  import opened Bytes

  const CMD_RESPONSE: byte := 0
  const HEADER: nat := 5
  /** BLYNK_MAX_PAYLOAD_LEN, the size of every payload and of the write buffer. */
  const MAX_PAYLOAD: nat := 512

  type U16 = n: nat | n < 0x1_0000

  /** `blynk_message_t` to be sent. For a response `len` is a status and there is no payload. */
  datatype Message = Message(command: byte, id: U16, len: U16, payload: bytes)

  /** A message as `handle_message` gets to see it. */
  datatype Frame = Frame(command: byte, id: U16, len: U16, payload: bytes)

  function Least(a: nat, b: nat): nat { if a < b then a else b }

  predicate HasBody(command: byte, len: nat) {
    command != CMD_RESPONSE && len != 0
  }

  // ---------- the parser as a state machine ----------

  datatype Mode = Cmd | Id | Len | Payload

  /** The parser's part of `blynk_private_t`; what is left over from earlier messages stays in the fields. */
  datatype Parser = Parser(mode: Mode, command: byte, id: U16, len: U16, cnt: nat, payload: bytes)

  function Shift(word: U16, d: byte): U16 {
    (word * 0x100 + d) % 0x1_0000
  }

  function Delivered(p: Parser): Frame
    requires |p.payload| == MAX_PAYLOAD
  {
    Frame(p.command, p.id, p.len, if HasBody(p.command, p.len) then p.payload[..Least(p.len, MAX_PAYLOAD)] else [])
  }

  /** One byte: `parse_cmd`, `parse_id`, `parse_len` or `parse_payload`. */
  function Step(p: Parser, d: byte): (r: (Parser, seq<Frame>))
    requires |p.payload| == MAX_PAYLOAD
    ensures |r.0.payload| == MAX_PAYLOAD
  {
    match p.mode
    case Cmd => (p.(command := d, cnt := 0, mode := Id), [])
    case Id =>
      if p.cnt + 1 >= 2 then (p.(id := Shift(p.id, d), cnt := 0, mode := Len), [])
      else (p.(id := Shift(p.id, d), cnt := p.cnt + 1), [])
    case Len =>
      var q := p.(len := Shift(p.len, d), cnt := p.cnt + 1);
      if q.cnt < 2 then (q, [])
      else if HasBody(q.command, q.len) then (q.(cnt := 0, mode := Payload), [])
      else (q.(mode := Cmd), [Delivered(q)])
    case Payload =>
      var q := p.(cnt := p.cnt + 1, payload := if p.cnt < MAX_PAYLOAD then p.payload[p.cnt := d] else p.payload);
      if q.cnt < q.len then (q, [])
      else
        var whole := if q.cnt > MAX_PAYLOAD then q.(len := MAX_PAYLOAD) else q;
        (whole.(mode := Cmd), [Delivered(whole)])
  }

  /** Any number of bytes. */
  function Run(p: Parser, s: bytes): (r: (Parser, seq<Frame>))
    requires |p.payload| == MAX_PAYLOAD
    ensures |r.0.payload| == MAX_PAYLOAD
    decreases |s|
  {
    if s == [] then (p, [])
    else
      var (p1, out1) := Step(p, s[0]);
      var (p2, out2) := Run(p1, s[1..]);
      (p2, out1 + out2)
  }

  lemma {:induction false} RunConcat(p: Parser, a: bytes, b: bytes)
    requires |p.payload| == MAX_PAYLOAD
    ensures Run(p, a + b) == var (p1, out1) := Run(p, a); var (p2, out2) := Run(p1, b); (p2, out1 + out2)
    decreases |a|
  {
    hide Step;
    if a == [] {
      assert a + b == b && [] + Run(p, b).1 == Run(p, b).1;
    } else {
      assert (a + b)[1..] == a[1..] + b;
      var (p1, out1) := Step(p, a[0]);
      RunConcat(p1, a[1..], b);
      var (p2, out2) := Run(p1, a[1..]);
      assert out1 + (out2 + Run(p2, b).1) == out1 + out2 + Run(p2, b).1;
    }
  }

  // ---------- what a byte stream means ----------

  /** The length the first header announces for the bytes behind it. */
  function BodyLength(s: bytes): nat
    requires |s| >= HEADER
  {
    if s[0] == CMD_RESPONSE then 0 else Announced(s)
  }

  function Announced(s: bytes): U16
    requires |s| >= HEADER
  {
    var hi: nat, lo: nat := s[3], s[4];
    hi * 0x100 + lo
  }

  function FirstId(s: bytes): U16
    requires |s| >= HEADER
  {
    var hi: nat, lo: nat := s[1], s[2];
    hi * 0x100 + lo
  }

  predicate HasFrame(s: bytes) {
    |s| >= HEADER && |s| >= HEADER + BodyLength(s)
  }

  /** The first frame, with an oversized payload cut to what the buffer holds. */
  function FirstFrame(s: bytes): Frame
    requires HasFrame(s)
  {
    var kept := Least(BodyLength(s), MAX_PAYLOAD);
    Frame(s[0], FirstId(s), if s[0] == CMD_RESPONSE then Announced(s) else kept, s[HEADER..HEADER + kept])
  }

  /** The frames of a stream by their headers alone, and the bytes of an incomplete last one. */
  function Frames(s: bytes): (r: (seq<Frame>, bytes))
    ensures !HasFrame(r.1)
  {
    if !HasFrame(s) then ([], s)
    else
      var (rest, tail) := Frames(s[HEADER + BodyLength(s)..]);
      ([FirstFrame(s)] + rest, tail)
  }

  // ---------- the parser finds exactly these frames ----------

  lemma ShiftTwice(word: U16, hi: byte, lo: byte)
    ensures Shift(Shift(word, hi), lo) == (hi as nat) * 0x100 + lo
  {
  }

  /** After the five header bytes the old contents of the fields are gone. */
  lemma RunHeader(p: Parser, s: bytes)
    requires |p.payload| == MAX_PAYLOAD && p.mode == Cmd && |s| >= HEADER
    ensures
      var (q, out) := Run(p, s[..HEADER]);
      && q.command == s[0] && q.id == FirstId(s) && q.len == Announced(s)
      && if BodyLength(s) == 0 then q.mode == Cmd && out == [Frame(s[0], FirstId(s), Announced(s), [])]
         else q.mode == Payload && q.cnt == 0 && out == []
  {
    var p1 := Step(p, s[0]).0;
    var p2 := Step(p1, s[1]).0;
    var p3 := Step(p2, s[2]).0;
    var p4 := Step(p3, s[3]).0;
    var (p5, out) := Step(p4, s[4]);
    ShiftTwice(p.id, s[1], s[2]);
    ShiftTwice(p.len, s[3], s[4]);
    var h := s[..HEADER];
    assert h[1..][0] == s[1] && h[1..][1..][0] == s[2] && h[1..][1..][1..][0] == s[3];
    assert h[1..][1..][1..][1..] == [s[4]];
    Run5(p, h, p1, p2, p3, p4, p5, out);
  }

  lemma Run5(p: Parser, h: bytes, p1: Parser, p2: Parser, p3: Parser, p4: Parser, p5: Parser, out: seq<Frame>)
    requires |h| == 5 && |p.payload| == MAX_PAYLOAD && |p1.payload| == MAX_PAYLOAD && |p2.payload| == MAX_PAYLOAD
    requires |p3.payload| == MAX_PAYLOAD && |p4.payload| == MAX_PAYLOAD
    requires Step(p, h[0]) == (p1, []) && Step(p1, h[1]) == (p2, []) && Step(p2, h[2]) == (p3, [])
    requires Step(p3, h[3]) == (p4, []) && Step(p4, h[4]) == (p5, out)
    ensures Run(p, h) == (p5, out)
  {
    hide Step;
    assert [] + out == out;
    assert Run(p4, h[4..]) == (p5, out) by {
      assert h[4..][1..] == [];
      assert out + [] == out;
    }
    assert Run(p3, h[3..]) == (p5, out) by {
      assert h[3..][1..] == h[4..];
    }
    assert Run(p2, h[2..]) == (p5, out) by {
      assert h[2..][1..] == h[3..];
    }
    assert Run(p1, h[1..]) == (p5, out) by {
      assert h[1..][1..] == h[2..];
    }
  }

  /** The bytes of a body: stored while there is room, counted in any case, delivered with the last one. */
  lemma {:induction false} RunBody(p: Parser, body: bytes, k: nat)
    requires |p.payload| == MAX_PAYLOAD && p.mode == Payload && p.command != CMD_RESPONSE
    requires 0 < |body| == p.len && k < |body| && p.cnt == k
    requires p.payload[..Least(k, MAX_PAYLOAD)] == body[..Least(k, MAX_PAYLOAD)]
    ensures
      var kept := Least(|body|, MAX_PAYLOAD);
      var (q, out) := Run(p, body[k..]);
      q.mode == Cmd && out == [Frame(p.command, p.id, kept, body[..kept])]
    decreases |body| - k
  {
    var (q, out) := Step(p, body[k]);
    assert body[k..][0] == body[k] && body[k..][1..] == body[k + 1..];
    var kept := Least(k + 1, MAX_PAYLOAD);
    assert q.payload[..kept] == body[..kept];
    if k + 1 < |body| {
      RunBody(q, body, k + 1);
    } else {
      assert body[k + 1..] == [];
      assert out + [] == out;
    }
  }

  /** A parser that waits for a command delivers the first frame, whatever stale fields it holds, and waits again. */
  lemma RunFrame(p: Parser, s: bytes)
    requires |p.payload| == MAX_PAYLOAD && p.mode == Cmd && HasFrame(s)
    ensures
      var (q, out) := Run(p, s[..HEADER + BodyLength(s)]);
      q.mode == Cmd && out == [FirstFrame(s)]
  {
    hide Run, Step;
    var n := BodyLength(s);
    var head, body := s[..HEADER], s[HEADER..HEADER + n];
    assert s[..HEADER + n] == head + body;
    RunConcat(p, head, body);
    RunHeader(p, s);
    if n == 0 {
      assert body == [];
      RunNothing(Run(p, head).0);
    } else {
      var q := Run(p, head).0;
      assert body[0..] == body;
      RunBody(q, body, 0);
      PrefixOfSlice(s, HEADER, n, Least(n, MAX_PAYLOAD));
    }
  }

  lemma PrefixOfSlice(s: bytes, o: nat, n: nat, k: nat)
    requires k <= n && o + n <= |s|
    ensures s[o..o + n][..k] == s[o..o + k]
  {
  }

  lemma RunNothing(p: Parser)
    requires |p.payload| == MAX_PAYLOAD
    ensures Run(p, []) == (p, [])
  {
  }

  /** An incomplete frame delivers nothing, and leaves the parser waiting for a command only if it is empty. */
  lemma RunIncomplete(p: Parser, s: bytes)
    requires |p.payload| == MAX_PAYLOAD && p.mode == Cmd && !HasFrame(s)
    ensures Run(p, s).1 == [] && (Run(p, s).0.mode == Cmd <==> s == [])
  {
    if |s| < HEADER {
      RunShort(p, s);
    } else {
      hide Run, Step;
      var head, body := s[..HEADER], s[HEADER..];
      assert s == head + body;
      RunConcat(p, head, body);
      RunHeader(p, s);
      RunPartOfBody(Run(p, head).0, body);
    }
  }

  lemma RunShort(p: Parser, s: bytes)
    requires |p.payload| == MAX_PAYLOAD && p.mode == Cmd && |s| < HEADER
    ensures Run(p, s).1 == [] && (Run(p, s).0.mode == Cmd <==> s == [])
  {
    if |s| > 0 {
      var p1 := Step(p, s[0]).0;
      if |s| > 1 {
        assert s[1..][0] == s[1];
        var p2 := Step(p1, s[1]).0;
        if |s| > 2 {
          assert s[1..][1..][0] == s[2];
          var p3 := Step(p2, s[2]).0;
          if |s| > 3 {
            assert s[1..][1..][1..] == [s[3]];
            var p4 := Step(p3, s[3]).0;
            assert Run(p3, [s[3]]) == (p4, []);
          }
          assert Run(p2, s[1..][1..]).1 == [];
        }
        assert Run(p1, s[1..]).1 == [];
      }
    }
  }

  lemma {:induction false} RunPartOfBody(p: Parser, body: bytes)
    requires |p.payload| == MAX_PAYLOAD && p.mode == Payload && p.cnt + |body| < p.len
    ensures Run(p, body).1 == [] && Run(p, body).0.mode == Payload
    decreases |body|
  {
    if body != [] {
      RunPartOfBody(Step(p, body[0]).0, body[1..]);
    }
  }

  /** On every stream of bytes the parser delivers the frames that the headers announce, and it waits for the next command
      exactly when no frame is left unfinished. A frame that announces more than 512 bytes is delivered cut to 512, and
      still takes all the bytes it announced: the boundaries of the frames behind it are not lost. */
  lemma {:induction false} ParserFindsFrames(p: Parser, s: bytes)
    requires |p.payload| == MAX_PAYLOAD && p.mode == Cmd
    ensures
      var (q, out) := Run(p, s);
      out == Frames(s).0 && (q.mode == Cmd <==> Frames(s).1 == [])
    decreases |s|
  {
    hide Run, FirstFrame;
    if HasFrame(s) {
      var n := HEADER + BodyLength(s);
      assert s == s[..n] + s[n..];
      RunConcat(p, s[..n], s[n..]);
      RunFrame(p, s);
      ParserFindsFrames(Run(p, s[..n]).0, s[n..]);
    } else {
      RunIncomplete(p, s);
    }
  }

  // ---------- the serializer ----------

  predicate WellFormed(m: Message) {
    |m.payload| == MAX_PAYLOAD
  }

  /** `blynk_serialize` into a buffer of `size` bytes: the payload is cut to fit, the announced length is not. */
  function Serialized(m: Message, size: nat): (r: bytes)
    requires WellFormed(m) && HEADER <= size <= MAX_PAYLOAD
    ensures HEADER <= |r| <= size
  {
    [m.command, m.id / 0x100, m.id % 0x100, m.len / 0x100, m.len % 0x100] +
    if HasBody(m.command, m.len) then m.payload[..Least(m.len, size - HEADER)] else []
  }

  method Serialize(buf: array<byte>, m: Message) returns (size: nat)
    requires WellFormed(m) && HEADER <= buf.Length <= MAX_PAYLOAD
    modifies buf
    ensures size == |Serialized(m, buf.Length)| && buf[..size] == Serialized(m, buf.Length)
  {
    buf[0] := m.command;
    buf[1] := m.id / 0x100;
    buf[2] := m.id % 0x100;
    buf[3] := m.len / 0x100;
    buf[4] := m.len % 0x100;
    size := HEADER;
    if m.len != 0 && m.command != CMD_RESPONSE {
      var payloadSize := m.len;
      if payloadSize > buf.Length - size {
        payloadSize := buf.Length - size;
      }
      for i := 0 to payloadSize
        invariant buf[..HEADER] == [m.command, m.id / 0x100, m.id % 0x100, m.len / 0x100, m.len % 0x100]
        invariant forall k | 0 <= k < i :: buf[HEADER + k] == m.payload[k]
      {
        buf[size + i] := m.payload[i];
      }
      size := size + payloadSize;
      assert buf[..size] == buf[..HEADER] + m.payload[..payloadSize];
    }
  }

  /** The message as the other side should see it. */
  function Seen(m: Message): Frame
    requires WellFormed(m)
  {
    Frame(m.command, m.id, m.len, if HasBody(m.command, m.len) then m.payload[..Least(m.len, MAX_PAYLOAD)] else [])
  }

  /** Whether the whole payload fits behind the header in the write buffer. */
  predicate Fits(m: Message) {
    m.command == CMD_RESPONSE || m.len <= MAX_PAYLOAD - HEADER
  }

  lemma SerializedHeader(m: Message, rest: bytes)
    requires WellFormed(m)
    ensures
      var s := Serialized(m, MAX_PAYLOAD) + rest;
      && |s| >= HEADER && s[0] == m.command && FirstId(s) == m.id && Announced(s) == m.len
      && BodyLength(s) == (if HasBody(m.command, m.len) then m.len else 0)
      && (Fits(m) ==> |Serialized(m, MAX_PAYLOAD)| == HEADER + BodyLength(s))
      && (!Fits(m) ==> |Serialized(m, MAX_PAYLOAD)| == MAX_PAYLOAD < HEADER + BodyLength(s))
  {
    var s := Serialized(m, MAX_PAYLOAD) + rest;
    assert s[0] == m.command && s[1] == m.id / 0x100 && s[2] == m.id % 0x100;
    assert s[3] == m.len / 0x100 && s[4] == m.len % 0x100;
  }

  lemma FirstIsSeen(m: Message, rest: bytes)
    requires WellFormed(m) && Fits(m)
    ensures
      var s := Serialized(m, MAX_PAYLOAD) + rest;
      HasFrame(s) && FirstFrame(s) == Seen(m) && s[HEADER + BodyLength(s)..] == rest
  {
    hide Serialized;
    var s := Serialized(m, MAX_PAYLOAD) + rest;
    SerializedHeader(m, rest);
    var kept := Least(BodyLength(s), MAX_PAYLOAD);
    SerializedBody(m);
    assert s[HEADER..HEADER + kept] == Serialized(m, MAX_PAYLOAD)[HEADER..];
  }

  lemma SerializedBody(m: Message)
    requires WellFormed(m) && Fits(m)
    ensures Serialized(m, MAX_PAYLOAD)[HEADER..] == if HasBody(m.command, m.len) then m.payload[..m.len] else []
  {
  }

  function SerializedAll(ms: seq<Message>): bytes
    requires forall m | m in ms :: WellFormed(m)
  {
    if ms == [] then [] else Serialized(ms[0], MAX_PAYLOAD) + SerializedAll(ms[1..])
  }

  function SeenAll(ms: seq<Message>): (r: seq<Frame>)
    requires forall m | m in ms :: WellFormed(m)
    ensures |r| == |ms| && forall i | 0 <= i < |ms| :: r[i] == Seen(ms[i])
  {
    seq(|ms|, i requires 0 <= i < |ms| => Seen(ms[i]))
  }

  lemma NoFrames()
    ensures Frames([]) == ([], [])
  {
  }

  lemma FramesStep(s: bytes, rest: bytes)
    requires HasFrame(s) && s[HEADER + BodyLength(s)..] == rest
    ensures Frames(s) == ([FirstFrame(s)] + Frames(rest).0, Frames(rest).1)
  {
    hide FirstFrame;
  }

  lemma {:induction false} FramesOfMessages(ms: seq<Message>)
    requires forall m | m in ms :: WellFormed(m) && Fits(m)
    ensures Frames(SerializedAll(ms)) == (SeenAll(ms), [])
  {
    hide Serialized, Seen, FirstFrame, HasFrame, BodyLength;
    if ms == [] {
      NoFrames();
    } else {
      FirstIsSeen(ms[0], SerializedAll(ms[1..]));
      FramesOfMessages(ms[1..]);
      FramesStep(Serialized(ms[0], MAX_PAYLOAD) + SerializedAll(ms[1..]), SerializedAll(ms[1..]));
      assert SeenAll(ms) == [Seen(ms[0])] + SeenAll(ms[1..]);
    }
  }

  /** Any number of messages whose payloads fit, serialized back to back and fed byte by byte to a parser that waits for a
      command: exactly these messages are delivered, in order, and the parser waits for the next command. */
  lemma StreamRoundTrip(p: Parser, ms: seq<Message>)
    requires |p.payload| == MAX_PAYLOAD && p.mode == Cmd
    requires forall m | m in ms :: WellFormed(m) && Fits(m)
    ensures Run(p, SerializedAll(ms)).1 == SeenAll(ms) && Run(p, SerializedAll(ms)).0.mode == Cmd
  {
    hide Run, Frames;
    ParserFindsFrames(p, SerializedAll(ms));
    FramesOfMessages(ms);
  }

  /** The bound is exact: a longer payload is cut but announced in full, so that the parser goes on waiting and takes the
      bytes of later messages for it. */
  lemma {:induction false} RoundTripIff(p: Parser, m: Message)
    requires |p.payload| == MAX_PAYLOAD && p.mode == Cmd && WellFormed(m)
    ensures Run(p, Serialized(m, MAX_PAYLOAD)).0.mode == Cmd <==> Fits(m)
    ensures Run(p, Serialized(m, MAX_PAYLOAD)).1 == if Fits(m) then [Seen(m)] else []
  {
    hide Run, Serialized, FirstFrame;
    var s := Serialized(m, MAX_PAYLOAD);
    assert s + [] == s;
    SerializedHeader(m, []);
    ParserFindsFrames(p, s);
    if Fits(m) {
      FirstIsSeen(m, []);
      assert [Seen(m)] + [] == [Seen(m)];
    }
  }

  // ---------- the bytes on the wire ----------

  /** A command, the id and the length with their high bytes first, and the payload. */
  lemma WireFormat(m: Message)
    requires WellFormed(m) && Fits(m)
    ensures
      var header := [m.command, m.id / 256, m.id % 256, m.len / 256, m.len % 256];
      Serialized(m, 512) == header + if m.command == 0 then [] else m.payload[..m.len]
  {
  }

  /** A message of any other end in this format is delivered as sent. */
  lemma WireIsParsed(p: Parser, command: byte, idHigh: byte, idLow: byte, lenHigh: byte, lenLow: byte, payload: bytes)
    requires |p.payload| == MAX_PAYLOAD && p.mode == Cmd && |payload| <= 512
    requires if command == 0 then payload == [] else |payload| == 256 * lenHigh + lenLow
    ensures Run(p, [command, idHigh, idLow, lenHigh, lenLow] + payload).1 ==
            [Frame(command, 256 * idHigh + idLow, 256 * lenHigh + lenLow, payload)]
  {
    hide Run, Frames;
    var s := [command, idHigh, idLow, lenHigh, lenLow] + payload;
    ParserFindsFrames(p, s);
    assert s[HEADER..] == payload && s[HEADER..][..|payload|] == payload;
    assert BodyLength(s) == |payload| && s[HEADER + BodyLength(s)..] == [];
    FramesStep(s, []);
    NoFrames();
    assert FirstFrame(s) == Frame(command, 256 * idHigh + idLow, 256 * lenHigh + lenLow, payload);
  }

  // ---------- the parser in place ----------

  class BlynkParser {
    var mode: Mode
    var command: byte
    var id: U16
    var len: U16
    var cnt: nat
    const payload: array<byte>
    /** The calls of `handle_message` so far. */
    var delivered: seq<Frame>

    ghost predicate Valid()
      reads this
    {
      payload.Length == MAX_PAYLOAD
    }

    ghost function State(): Parser
      reads this, payload
    {
      Parser(mode, command, id, len, cnt, payload[..])
    }

    constructor ()
      ensures Valid() && mode == Cmd && delivered == [] && fresh(payload)
    {
      mode, command, id, len, cnt, delivered := Cmd, 0, 0, 0, 0, [];
      payload := new byte[MAX_PAYLOAD];
    }

    method HandleMessage()
      requires Valid()
      modifies this`delivered
      ensures delivered == old(delivered) + [Delivered(State())]
    {
      var kept := Least(len, MAX_PAYLOAD);
      delivered := delivered + [Frame(command, id, len, if HasBody(command, len) then payload[..kept] else [])];
    }

    /** The function `parse` points to, applied to one byte. */
    method Parse(d: byte)
      requires Valid()
      modifies this, payload
      ensures Valid() && State() == Step(old(State()), d).0
      ensures delivered == old(delivered) + Step(old(State()), d).1
    {
      match mode {
        case Cmd =>
          command, cnt, mode := d, 0, Id;
        case Id =>
          id := (id * 0x100 + d) % 0x1_0000;
          cnt := cnt + 1;
          if cnt >= 2 {
            cnt, mode := 0, Len;
          }
        case Len =>
          len := (len * 0x100 + d) % 0x1_0000;
          cnt := cnt + 1;
          if cnt >= 2 {
            if command != CMD_RESPONSE && len != 0 {
              cnt, mode := 0, Payload;
            } else {
              HandleMessage();
              mode := Cmd;
            }
          }
        case Payload =>
          if cnt < MAX_PAYLOAD {
            payload[cnt] := d;
          }
          cnt := cnt + 1;
          if cnt >= len {
            if cnt > MAX_PAYLOAD {
              len := MAX_PAYLOAD;
            }
            HandleMessage();
            mode := Cmd;
          }
      }
    }

    /** The read loop, on whatever the socket returned. */
    method ParseAll(data: bytes)
      requires Valid()
      modifies this, payload
      ensures Valid() && State() == Run(old(State()), data).0
      ensures delivered == old(delivered) + Run(old(State()), data).1
    {
      hide Step;
      assert data[0..] == data;
      for i := 0 to |data|
        invariant Valid()
        invariant Run(old(State()), data).0 == Run(State(), data[i..]).0
        invariant old(delivered) + Run(old(State()), data).1 == delivered + Run(State(), data[i..]).1
      {
        assert data[i..][0] == data[i] && data[i..][1..] == data[i + 1..];
        Parse(data[i]);
      }
    }
  }
}
