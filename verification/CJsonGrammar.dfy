/** What cJSON's parser accepts, as functions of the text, an offset and a nesting depth
    (cJSON.c:305-379, 1038-1172, 1312-1364, 1441-1536, 1601-1711). */
module CJsonGrammar {
  import opened Bytes
  import opened CJsonString
  import opened CJsonText

  /** CJSON_NESTING_LIMIT */
  const NESTING_LIMIT: nat := 1000

  // ---------- whitespace ----------

  /** The first byte above 32 at or after `o`, or the end of the text. */
  function SkipBlank(c: bytes, o: nat): (r: nat)
    requires o <= |c|
    ensures o <= r <= |c|
    ensures r < |c| ==> c[r] > 32
    ensures forall i | o <= i < r :: c[i] <= 32
    decreases |c| - o
  {
    if o < |c| && c[o] <= 32 then SkipBlank(c, o + 1) else o
  }

  /** `buffer_skip_whitespace`: on running into the end it steps back to the last byte. */
  function SkipWs(c: bytes, o: nat): (r: nat)
    ensures o <= |c| ==> o <= r <= |c|
    ensures o < |c| ==> r < |c|
    ensures o >= |c| ==> r == o
  {
    if o >= |c| then o
    else
      var r := SkipBlank(c, o);
      if r == |c| then r - 1 else r
  }

  /** Having skipped once, there is nothing more to skip: stepping back one byte and skipping again changes nothing. */
  lemma SkipTwice(c: bytes, o: nat)
    ensures SkipWs(c, SkipWs(c, o)) == SkipWs(c, o)
  {
  }

  // ---------- numbers ----------

  predicate NumberByte(b: byte) {
    48 <= b <= 57 || b == 43 || b == 45 || b == 101 || b == 69 || b == 46
  }

  /** What the parser's copy of a number holds, its terminator excluded. */
  const NUMBER_ROOM: nat := 63

  /** The run of number bytes at `o`, cut at `room`. */
  function NumberRun(c: bytes, o: nat, room: nat): (r: bytes)
    requires o <= |c|
    ensures o + |r| <= |c| && r == c[o..o + |r|] && |r| <= room
    ensures forall i | 0 <= i < |r| :: NumberByte(r[i])
    decreases room
  {
    if room > 0 && o < |c| && NumberByte(c[o]) then [c[o]] + NumberRun(c, o + 1, room - 1) else []
  }

  function ParseNumber(lib: Lib, c: bytes, o: nat): Parse<Json>
    requires o <= |c|
  {
    var (number, used) := lib.strtod(NumberRun(c, o, NUMBER_ROOM));
    if used == 0 then Err(o) else Ok(Number(number), o + used)
  }

  // ---------- values ----------

  predicate Sees(c: bytes, o: nat, b: byte) {
    o < |c| && c[o] == b
  }

  function ParseValue(lib: Lib, c: bytes, o: nat, depth: nat): (r: Parse<Json>)
    ensures r.Ok? ==> o < r.next <= |c|
    decreases |c| - o, 2
  {
    if At(c, o, NULL_TEXT) then Ok(Null, o + 4)
    else if At(c, o, FALSE_TEXT) then Ok(False, o + 5)
    else if At(c, o, TRUE_TEXT) then Ok(True, o + 4)
    else if Sees(c, o, QUOTE) then
      match ParseString(c, o)
      case Err(at) => Err(at)
      case Ok(text, next) => Ok(String(CStr(text)), next)
    else if o < |c| && (c[o] == 45 || 48 <= c[o] <= 57) then ParseNumber(lib, c, o)
    else if Sees(c, o, OPEN_ARRAY) then ParseArray(lib, c, o, depth)
    else if Sees(c, o, OPEN_OBJECT) then ParseObject(lib, c, o, depth)
    else Err(o)
  }

  function ParseArray(lib: Lib, c: bytes, o: nat, depth: nat): (r: Parse<Json>)
    requires o < |c|
    ensures r.Ok? ==> o < r.next <= |c|
    decreases |c| - o, 1
  {
    if depth >= NESTING_LIMIT then Err(o)
    else if Sees(c, SkipWs(c, o + 1), CLOSE_ARRAY) then Ok(Array([]), SkipWs(c, o + 1) + 1)
    else if o + 1 == |c| then Err(o)
    else
      match ParseItems(lib, c, o, depth + 1)
      case Err(at) => Err(at)
      case Ok(items, at) => if Sees(c, at, CLOSE_ARRAY) then Ok(Array(items), at + 1) else Err(at)
  }

  function ParseObject(lib: Lib, c: bytes, o: nat, depth: nat): (r: Parse<Json>)
    requires o < |c|
    ensures r.Ok? ==> o < r.next <= |c|
    decreases |c| - o, 1
  {
    if depth >= NESTING_LIMIT then Err(o)
    else if Sees(c, SkipWs(c, o + 1), CLOSE_OBJECT) then Ok(Object([]), SkipWs(c, o + 1) + 1)
    else if o + 1 == |c| then Err(o)
    else
      match ParseMembers(lib, c, o, depth + 1)
      case Err(at) => Err(at)
      case Ok(members, at) => if Sees(c, at, CLOSE_OBJECT) then Ok(Object(members), at + 1) else Err(at)
  }

  /** The elements behind the bracket or comma at `o`; `next` is the offset the loop stops at. */
  function ParseItems(lib: Lib, c: bytes, o: nat, depth: nat): (r: Parse<seq<Json>>)
    requires o < |c|
    ensures r.Ok? ==> o < r.next <= |c|
    decreases |c| - o, 0
  {
    match ParseValue(lib, c, SkipWs(c, o + 1), depth)
    case Err(at) => Err(at)
    case Ok(item, next) =>
      var at := SkipWs(c, next);
      if !Sees(c, at, COMMA) then Ok([item], at)
      else
        Concat([item], ParseItems(lib, c, at, depth))
  }

  /** The name and the colon of a member: the key, and the offset of the value. */
  function ParseKey(c: bytes, o: nat): (r: Parse<bytes>)
    requires o < |c|
    ensures r.Ok? ==> o < r.next <= |c|
  {
    match ParseString(c, SkipWs(c, o + 1))
    case Err(at) => Err(at)
    case Ok(key, next) =>
      var at := SkipWs(c, next);
      if Sees(c, at, COLON) then Ok(CStr(key), SkipWs(c, at + 1)) else Err(at)
  }

  function ParseMembers(lib: Lib, c: bytes, o: nat, depth: nat): (r: Parse<seq<Member>>)
    requires o < |c|
    ensures r.Ok? ==> o < r.next <= |c|
    decreases |c| - o, 0
  {
    match ParseKey(c, o)
    case Err(at) => Err(at)
    case Ok(key, start) =>
      match ParseValue(lib, c, start, depth)
      case Err(at) => Err(at)
      case Ok(value, next) =>
        var at := SkipWs(c, next);
        if !Sees(c, at, COMMA) then Ok([Member(key, value)], at)
        else
          Concat([Member(key, value)], ParseMembers(lib, c, at, depth))
  }

  /** The elements read so far in front of what the rest of the loop yields. */
  function Concat<T>(front: seq<T>, r: Parse<seq<T>>): Parse<seq<T>> {
    match r
    case Ok(back, next) => Ok(front + back, next)
    case Err(at) => Err(at)
  }

  lemma ConcatStep<T>(front: seq<T>, x: T, r: Parse<seq<T>>)
    ensures Concat(front, Concat([x], r)) == Concat(front + [x], r)
    ensures Concat([], r) == r
  {
    if r.Ok? {
      assert front + ([x] + r.value) == front + [x] + r.value;
      assert [] + r.value == r.value;
    }
  }

  // ---------- the whole text ----------

  const BOM: bytes := [0xEF, 0xBB, 0xBF]

  /** Where the error pointer is set when parsing stopped at offset `at`: always inside the text. */
  function ErrorPosition(c: bytes, at: nat): (r: nat)
    ensures r < |c| || c == []
  {
    if at < |c| then at else if |c| > 0 then |c| - 1 else 0
  }

  /** `cJSON_ParseWithLengthOpts`: the tree and the end of the JSON text. With `nulTerminated` a zero byte must follow
      after optional whitespace. */
  function ParseText(lib: Lib, c: bytes, nulTerminated: bool): Parse<Json> {
    if c == [] then Err(0)
    else
      var start := if |c| > 4 && At(c, 0, BOM) then 3 else 0;
      match ParseValue(lib, c, SkipWs(c, start), 0)
      case Err(at) => Err(ErrorPosition(c, at))
      case Ok(tree, next) =>
        if !nulTerminated then Ok(tree, next)
        else if Sees(c, SkipWs(c, next), 0) then Ok(tree, SkipWs(c, next))
        else Err(ErrorPosition(c, SkipWs(c, next)))
  }
}
