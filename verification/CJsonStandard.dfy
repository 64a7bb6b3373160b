/** JSON texts as RFC 8259 has them, written down without a look at the parser, and how cJSON's grammar relates to them:
    every such text is parsed to what it denotes, and what is parsed is such a text up to white space, numbers and the
    insides of string literals (cJSON.c:305-379, 773-899, 1038-1172, 1312-1364, 1441-1536, 1601-1711). */
module CJsonStandard {
  import opened Bytes
  import opened CJsonUtf16
  import opened CJsonString
  import opened CJsonText
  import opened CJsonGrammar

  // ---------- strings (section 7) ----------

  /** One character: a byte that stands for itself, one of the escapes with a letter, or a scalar value in hexadecimal. */
  datatype Char = Plain(b: byte) | Short(k: nat) | Unicode(cp: nat, upper: Case)

  /** The letters and what they denote. */
  const SHORT_ESCAPES: seq<(byte, byte)> :=
    [('\"' as byte, 0x22), ('\\' as byte, 0x5C), ('/' as byte, 0x2F), ('b' as byte, 0x08),
     ('f' as byte, 0x0C), ('n' as byte, 0x0A), ('r' as byte, 0x0D), ('t' as byte, 0x09)]

  predicate CharOk(x: Char) {
    match x
    case Plain(b) => b >= 0x20 && b != '\"' as byte && b != '\\' as byte
    case Short(k) => k < |SHORT_ESCAPES|
    case Unicode(cp, _) => IsScalar(cp)
  }

  function WrittenChar(x: Char): bytes
    requires CharOk(x)
  {
    match x
    case Plain(b) => [b]
    case Short(k) => ['\\' as byte, SHORT_ESCAPES[k].0]
    case Unicode(cp, upper) => EscapeScalar(cp, upper)
  }

  function DenotedChar(x: Char): bytes
    requires CharOk(x)
  {
    match x
    case Plain(b) => [b]
    case Short(k) => [SHORT_ESCAPES[k].1]
    case Unicode(cp, _) => Utf8(cp)
  }

  predicate CharsOk(chars: seq<Char>) {
    forall i | 0 <= i < |chars| :: CharOk(chars[i])
  }

  function WrittenChars(chars: seq<Char>): bytes
    requires CharsOk(chars)
  {
    if chars == [] then [] else WrittenChar(chars[0]) + WrittenChars(chars[1..])
  }

  function DenotedChars(chars: seq<Char>): bytes
    requires CharsOk(chars)
  {
    if chars == [] then [] else DenotedChar(chars[0]) + DenotedChars(chars[1..])
  }

  function WrittenString(chars: seq<Char>): bytes
    requires CharsOk(chars)
  {
    ['\"' as byte] + WrittenChars(chars) + ['\"' as byte]
  }

  /** The letters that make an escape with the byte they stand for are these eight; behind any other but `u` there is an
      error at the backslash. */
  lemma EscapesRead(s: bytes, p: nat, end: nat)
    requires p < end < |s| && s[p] == '\\' as byte
    ensures forall k | 0 <= k < |SHORT_ESCAPES| && s[p + 1] == SHORT_ESCAPES[k].0 ::
              Unescape(s, p, end) == Prepend([SHORT_ESCAPES[k].1], Unescape(s, p + 2, end))
    ensures (forall k | 0 <= k < |SHORT_ESCAPES| :: s[p + 1] != SHORT_ESCAPES[k].0) && s[p + 1] != 'u' as byte ==>
              Unescape(s, p, end) == Err(p)
  {
    assert forall k | 0 <= k < |SHORT_ESCAPES| :: SimpleEscape(SHORT_ESCAPES[k].0) == Some(SHORT_ESCAPES[k].1);
    var b := s[p + 1];
    if SimpleEscape(b).Some? {
      assert b == SHORT_ESCAPES[0].0 || b == SHORT_ESCAPES[1].0 || b == SHORT_ESCAPES[2].0 || b == SHORT_ESCAPES[3].0 ||
             b == SHORT_ESCAPES[4].0 || b == SHORT_ESCAPES[5].0 || b == SHORT_ESCAPES[6].0 || b == SHORT_ESCAPES[7].0;
    }
  }

  /** What is written for a byte: its letter if it has one, except that a slash stands for itself; four hexadecimal digits
      for the other control characters; itself otherwise. */
  lemma EscapesWritten(b: byte)
    ensures forall k | 0 <= k < |SHORT_ESCAPES| && b == SHORT_ESCAPES[k].1 && k != 2 ::
              EscapeByte(b) == ['\\' as byte, SHORT_ESCAPES[k].0]
    ensures (forall k | 0 <= k < |SHORT_ESCAPES| && k != 2 :: b != SHORT_ESCAPES[k].1) ==>
              EscapeByte(b) == if b >= 0x20 then [b] else ControlEscape(b)
  {
    hide EscapeUnit, ControlEscape;
    if forall k | 0 <= k < |SHORT_ESCAPES| && k != 2 :: b != SHORT_ESCAPES[k].1 {
      assert b != SHORT_ESCAPES[0].1 && b != SHORT_ESCAPES[1].1 && b != SHORT_ESCAPES[3].1 && b != SHORT_ESCAPES[4].1 &&
             b != SHORT_ESCAPES[5].1 && b != SHORT_ESCAPES[6].1 && b != SHORT_ESCAPES[7].1;
      assert EscapeLetter(b).None?;
      if b < 0x20 {
        ControlUnit(b);
      }
    }
  }

  function ControlEscape(b: byte): bytes
    requires b < 0x20
  {
    ['\\' as byte, 'u' as byte, '0' as byte, '0' as byte,
     "0123456789abcdef"[b / 16] as byte, "0123456789abcdef"[b % 16] as byte]
  }

  lemma ControlUnit(b: byte)
    requires b < 0x20
    ensures EscapeUnit(b, LOWER_CASE, 0) == ControlEscape(b)
  {
    hide HexDigit;
    HexDigits(b / 16);
    HexDigits(b % 16);
    HexDigits(0);
  }

  lemma HexDigits(v: nat)
    requires v < 16
    ensures HexDigit(v, false) as char == "0123456789abcdef"[v] && HexDigit(v, true) as char == "0123456789ABCDEF"[v]
  {
  }

  /** Both passes of the string parser undo one character and go on right behind it. */
  lemma CharIsParsed(c: bytes, p: nat, x: Char, end: nat)
    requires CharOk(x) && At(c, p, WrittenChar(x)) && p + |WrittenChar(x)| <= end < |c|
    ensures CloseQuote(c, p) == CloseQuote(c, p + |WrittenChar(x)|)
    ensures Unescape(c, p, end) == Prepend(DenotedChar(x), Unescape(c, p + |WrittenChar(x)|, end))
  {
    hide Hex4, CStr, EscapeScalar, Literal, Utf8, Unescape;
    var e := WrittenChar(x);
    if x.Unicode? {
      ScalarIsSkipped(c, p, x.cp, x.upper);
      EscapeDecodesToScalar(c, p, end, x.cp, x.upper, []);
      UnescapeUnicode(c, p, end);
    } else {
      assert c[p] == c[p..p + |e|][0] == e[0];
      if x.Short? {
        assert c[p + 1] == c[p..p + 2][1] == e[1];
        EscapesRead(c, p, end);
      } else {
        UnescapePlain(c, p, end);
      }
    }
  }

  lemma UnescapePlain(c: bytes, p: nat, end: nat)
    requires p < end < |c| && c[p] != BACKSLASH
    ensures Unescape(c, p, end) == Prepend([c[p]], Unescape(c, p + 1, end))
  {
  }

  lemma UnescapeUnicode(c: bytes, p: nat, end: nat)
    requires p < end < |c| && c[p] == BACKSLASH && c[p + 1] == LOWER_U && Literal(c, p, end).Some?
    ensures
      var (cp, n) := Literal(c, p, end).value;
      Unescape(c, p, end) == Prepend(Utf8(cp), Unescape(c, p + n, end))
  {
    hide Literal, Utf8;
  }

  lemma UnitIsSkipped(c: bytes, p: nat, code: nat, upper: Case, k: nat)
    requires code < 0x1_0000 && At(c, p, EscapeUnit(code, upper, k))
    ensures CloseQuote(c, p) == CloseQuote(c, p + 6) && c[p] == BACKSLASH && c[p + 1] == LOWER_U
  {
    hide HexDigit;
    var e := EscapeUnit(code, upper, k);
    assert forall i | 0 <= i < 6 :: c[p + i] == c[p..p + 6][i] == e[i];
    assert c[p + 0] == e[0] && c[p + 1] == e[1] && c[p + 2] == e[2] && c[p + 3] == e[3];
    assert c[p + 4] == e[4] && c[p + 5] == e[5];
    DigitIsPlain(code / 4096, upper(k));
    DigitIsPlain(code / 256 % 16, upper(k + 1));
    DigitIsPlain(code / 16 % 16, upper(k + 2));
    DigitIsPlain(code % 16, upper(k + 3));
    assert CloseQuote(c, p) == CloseQuote(c, p + 2);
    assert CloseQuote(c, p + 2) == CloseQuote(c, p + 3) == CloseQuote(c, p + 4) == CloseQuote(c, p + 5);
  }

  lemma DigitIsPlain(v: nat, upper: bool)
    requires v < 16
    ensures HexDigit(v, upper) != QUOTE && HexDigit(v, upper) != BACKSLASH
  {
  }

  lemma ScalarIsSkipped(c: bytes, p: nat, cp: nat, upper: Case)
    requires IsScalar(cp) && At(c, p, EscapeScalar(cp, upper))
    ensures CloseQuote(c, p) == CloseQuote(c, p + |EscapeScalar(cp, upper)|)
    ensures p + 1 < |c| && c[p] == BACKSLASH && c[p + 1] == LOWER_U
  {
    hide EscapeUnit, CloseQuote;
    if cp < 0x1_0000 {
      UnitIsSkipped(c, p, cp, upper, 0);
    } else {
      var high, low := 0xD800 + (cp - 0x1_0000) / 1024, 0xDC00 + (cp - 0x1_0000) % 1024;
      AtConcat(c, p, EscapeUnit(high, upper, 0), EscapeUnit(low, upper, 4));
      UnitIsSkipped(c, p, high, upper, 0);
      UnitIsSkipped(c, p + 6, low, upper, 4);
    }
  }

  lemma {:induction false} CharsAreParsed(c: bytes, p: nat, chars: seq<Char>)
    requires CharsOk(chars) && At(c, p, WrittenChars(chars) + [QUOTE])
    ensures CloseQuote(c, p) == Some(p + |WrittenChars(chars)|)
    ensures Unescape(c, p, p + |WrittenChars(chars)|) == Ok(DenotedChars(chars), p + |WrittenChars(chars)|)
    decreases chars
  {
    hide At, CloseQuote, Unescape, WrittenChar, DenotedChar, CharOk;
    if chars == [] {
      NoChars(c, p);
    } else {
      var x, rest := chars[0], chars[1..];
      assert WrittenChars(chars) + [QUOTE] == WrittenChar(x) + (WrittenChars(rest) + [QUOTE]);
      AtConcat(c, p, WrittenChar(x), WrittenChars(rest) + [QUOTE]);
      CharsAreParsed(c, p + |WrittenChar(x)|, rest);
      CharIsParsed(c, p, x, p + |WrittenChars(chars)|);
    }
  }

  lemma NoChars(c: bytes, p: nat)
    requires At(c, p, WrittenChars([]) + [QUOTE])
    ensures p < |c| && CloseQuote(c, p) == Some(p) && Unescape(c, p, p) == Ok([], p)
  {
    FirstOfAt(c, p, [QUOTE]);
  }

  /** Every string literal is parsed to what it denotes, and to its end. */
  lemma StringIsParsed(c: bytes, o: nat, chars: seq<Char>)
    requires CharsOk(chars) && At(c, o, WrittenString(chars))
    ensures ParseString(c, o) == Ok(DenotedChars(chars), o + |WrittenString(chars)|)
  {
    hide At, WrittenChars, DenotedChars, CharsOk, CloseQuote, Unescape;
    assert WrittenString(chars) == [QUOTE] + (WrittenChars(chars) + [QUOTE]);
    AtConcat(c, o, [QUOTE], WrittenChars(chars) + [QUOTE]);
    FirstOfAt(c, o, [QUOTE]);
    CharsAreParsed(c, o + 1, chars);
  }

  /** How the printer writes a byte. */
  function CharOf(b: byte): Char {
    match b
    case 34 => Short(0)
    case 92 => Short(1)
    case 8 => Short(3)
    case 12 => Short(4)
    case 10 => Short(5)
    case 13 => Short(6)
    case 9 => Short(7)
    case _ => if b >= 0x20 then Plain(b) else Unicode(b, LOWER_CASE)
  }

  function CharsOf(s: bytes): seq<Char> {
    seq(|s|, i requires 0 <= i < |s| => CharOf(s[i]))
  }

  lemma CharOfByte(b: byte)
    ensures CharOk(CharOf(b)) && WrittenChar(CharOf(b)) == EscapeByte(b) && DenotedChar(CharOf(b)) == [b]
  {
    hide EscapeUnit;
  }

  /** Escaping is one way to write a string. */
  lemma {:induction false} EscapedIsStandard(s: bytes)
    ensures CharsOk(CharsOf(s)) && WrittenChars(CharsOf(s)) == Escape(s) && DenotedChars(CharsOf(s)) == s
  {
    hide EscapeByte, CharOf, WrittenChar, DenotedChar, CharOk;
    if s != [] {
      CharOfByte(s[0]);
      EscapedIsStandard(s[1..]);
      assert CharsOf(s)[1..] == CharsOf(s[1..]) && CharsOf(s)[0] == CharOf(s[0]);
      assert [s[0]] + s[1..] == s;
    }
  }

  /** Escaping a string and parsing the literal gives the string back and consumes exactly the literal. */
  lemma StringRoundTrip(c: bytes, o: nat, s: bytes)
    requires At(c, o, Quoted(s))
    ensures ParseString(c, o) == Ok(s, o + |Quoted(s)|)
  {
    hide At, Escape, WrittenChars, DenotedChars, CharsOk, CharsOf;
    EscapedIsStandard(s);
    StringIsParsed(c, o, CharsOf(s));
  }

  // ---------- documents (sections 2 to 6) ----------

  function Ascii(s: string): (r: bytes)
    requires forall i | 0 <= i < |s| :: s[i] < 128 as char
    ensures |r| == |s|
  {
    seq(|s|, i requires 0 <= i < |s| => s[i] as byte)
  }

  /** A text and what it denotes: numbers and strings come with their values, everything else with the blanks in it. */
  datatype Doc =
    | NullDoc
    | FalseDoc
    | TrueDoc
    | NumberDoc(digits: bytes, number: real)
    | StringDoc(literal: bytes, text: bytes)
    | ArrayDoc(blank: bytes, items: seq<Item>)
    | ObjectDoc(blank: bytes, pairs: seq<Pair>)

  datatype Item = Item(before: bytes, doc: Doc, after: bytes)

  datatype Pair = Pair(before: bytes, literal: bytes, name: bytes, between: bytes, space: bytes, doc: Doc, after: bytes)

  function Written(d: Doc): bytes
    decreases d, 1
  {
    match d
    case NullDoc => Ascii("null")
    case FalseDoc => Ascii("false")
    case TrueDoc => Ascii("true")
    case NumberDoc(digits, _) => digits
    case StringDoc(literal, _) => literal
    case ArrayDoc(blank, items) => ['[' as byte] + (if items == [] then blank else WrittenItems(items)) + [']' as byte]
    case ObjectDoc(blank, pairs) => ['{' as byte] + (if pairs == [] then blank else WrittenPairs(pairs)) + ['}' as byte]
  }

  function WrittenItems(items: seq<Item>): bytes
    requires items != []
    decreases items, 0
  {
    items[0].before + Written(items[0].doc) + items[0].after +
    if |items| == 1 then [] else [',' as byte] + WrittenItems(items[1..])
  }

  function WrittenPairs(pairs: seq<Pair>): bytes
    requires pairs != []
    decreases pairs, 0
  {
    WrittenName(pairs[0]) + Written(pairs[0].doc) + pairs[0].after +
    if |pairs| == 1 then [] else [',' as byte] + WrittenPairs(pairs[1..])
  }

  function WrittenName(p: Pair): bytes {
    p.before + p.literal + p.between + [':' as byte] + p.space
  }

  function Meaning(d: Doc): Json
    decreases d, 1
  {
    match d
    case NullDoc => Null
    case FalseDoc => False
    case TrueDoc => True
    case NumberDoc(_, number) => Number(number)
    case StringDoc(_, text) => String(text)
    case ArrayDoc(_, items) => Array(ItemValues(items))
    case ObjectDoc(_, pairs) => Object(PairValues(pairs))
  }

  function ItemValues(items: seq<Item>): (r: seq<Json>)
    ensures |r| == |items|
    decreases items, 0
  {
    seq(|items|, i requires 0 <= i < |items| => Meaning(items[i].doc))
  }

  function PairValues(pairs: seq<Pair>): (r: seq<Member>)
    ensures |r| == |pairs|
    decreases pairs, 0
  {
    seq(|pairs|, i requires 0 <= i < |pairs| => Member(pairs[i].name, Meaning(pairs[i].doc)))
  }

  predicate White(s: bytes) {
    forall i | 0 <= i < |s| :: s[i] as char in " \t\n\r"
  }

  /** What all numbers of section 6 are, whatever else is. */
  predicate NumberLike(s: bytes) {
    && s != [] && s[0] as char in "-0123456789"
    && forall i | 0 <= i < |s| :: s[i] as char in "+-.0123456789Ee"
  }

  /** A string literal and the C string it is kept as. */
  ghost predicate LiteralOf(literal: bytes, text: bytes) {
    exists chars :: CharsOk(chars) && literal == WrittenString(chars) && text == CStr(DenotedChars(chars))
  }

  /** Texts that are parsed: numbers of at most 63 bytes that `strtod` reads in full, and arrays and objects at most `room`
      deep. */
  ghost predicate Standard(lib: Lib, d: Doc, room: int)
    decreases d
  {
    match d
    case NumberDoc(digits, number) => NumberLike(digits) && |digits| <= 63 && lib.strtod(digits) == (number, |digits|)
    case StringDoc(literal, text) => LiteralOf(literal, text)
    case ArrayDoc(blank, items) =>
      && room > 0 && White(blank)
      && forall i | 0 <= i < |items| ::
           White(items[i].before) && White(items[i].after) && Standard(lib, items[i].doc, room - 1)
    case ObjectDoc(blank, pairs) =>
      && room > 0 && White(blank)
      && forall i | 0 <= i < |pairs| :: PairStandard(pairs[i]) && Standard(lib, pairs[i].doc, room - 1)
    case _ => true
  }

  ghost predicate PairStandard(p: Pair) {
    White(p.before) && LiteralOf(p.literal, p.name) && White(p.between) && White(p.space) && White(p.after)
  }

  // ---------- blanks and ends ----------

  predicate Blank(c: bytes, from: nat, to: nat) {
    from <= to <= |c| && forall i | from <= i < to :: c[i] <= 32
  }

  lemma {:induction false} SkipOver(c: bytes, o: nat, b: nat)
    requires Blank(c, o, b) && b < |c| && c[b] > 32
    ensures SkipWs(c, o) == b
  {
    var r := SkipBlank(c, o);
  }

  /** The text at `o` goes on with something no number continues with. */
  predicate NumberEnds(c: bytes, o: nat) {
    o < |c| ==> !NumberByte(c[o])
  }

  lemma {:induction false} RunIsText(c: bytes, o: nat, text: bytes, room: nat)
    requires At(c, o, text) && |text| <= room && NumberEnds(c, o + |text|)
    requires forall i | 0 <= i < |text| :: NumberByte(text[i])
    ensures NumberRun(c, o, room) == text
    decreases room
  {
    if text != [] {
      assert c[o] == c[o..o + |text|][0] == text[0];
      assert c[o + 1..o + 1 + |text[1..]|] == c[o..o + |text|][1..] == text[1..];
      RunIsText(c, o + 1, text[1..], room - 1);
      assert [text[0]] + text[1..] == text;
    }
  }

  lemma WhiteAt(c: bytes, o: nat, text: bytes)
    requires At(c, o, text) && White(text)
    ensures Blank(c, o, o + |text|)
  {
    assert forall i | o <= i < o + |text| :: c[i] == c[o..o + |text|][i - o];
  }

  lemma SeesFirst(c: bytes, o: nat, text: bytes)
    requires At(c, o, text) && text != []
    ensures Sees(c, o, text[0])
  {
    FirstOfAt(c, o, text);
  }

  lemma NotNull(c: bytes, o: nat)
    requires o < |c| && c[o] != 110
    ensures !At(c, o, NULL_TEXT)
  {
    if At(c, o, NULL_TEXT) {
      FirstOfAt(c, o, NULL_TEXT);
    }
  }

  lemma NotFalse(c: bytes, o: nat)
    requires o < |c| && c[o] != 102
    ensures !At(c, o, FALSE_TEXT)
  {
    if At(c, o, FALSE_TEXT) {
      FirstOfAt(c, o, FALSE_TEXT);
    }
  }

  lemma NotALiteral(c: bytes, o: nat, first: byte)
    requires Sees(c, o, first) && (first < 102 || first == OPEN_OBJECT)
    ensures !At(c, o, NULL_TEXT) && !At(c, o, FALSE_TEXT) && !At(c, o, TRUE_TEXT)
  {
    NoWord(c, o);
  }

  // ---------- every such text is parsed ----------

  lemma FirstByte(lib: Lib, d: Doc, room: int)
    requires Standard(lib, d, room)
    ensures Written(d) != [] && 32 < Written(d)[0] < 128 && Written(d)[0] != CLOSE_ARRAY
  {
    hide WrittenItems, WrittenPairs, LiteralOf, NumberLike;
    match d
    case NumberDoc(digits, _) => NumberBytes(digits);
    case StringDoc(literal, text) => LiteralOpens(literal, text);
    case _ =>
  }

  lemma LiteralOpens(literal: bytes, text: bytes)
    requires LiteralOf(literal, text)
    ensures literal != [] && literal[0] == QUOTE
  {
    hide WrittenString, DenotedChars, CStr;
    var chars :| CharsOk(chars) && literal == WrittenString(chars) && text == CStr(DenotedChars(chars));
    StringOpens(chars);
  }

  lemma Words()
    ensures Ascii("null") == NULL_TEXT && Ascii("false") == FALSE_TEXT && Ascii("true") == TRUE_TEXT
  {
  }

  lemma LeafIsParsed(lib: Lib, c: bytes, o: nat, d: Doc, level: nat, room: int)
    requires !d.ArrayDoc? && !d.ObjectDoc? && Standard(lib, d, room)
    requires At(c, o, Written(d)) && NumberEnds(c, o + |Written(d)|)
    ensures ParseValue(lib, c, o, level) == Ok(Meaning(d), o + |Written(d)|)
  {
    hide At, SkipWs, ParseItems, ParseMembers, ParseString, LiteralOf, NumberLike, ParseNumber, NumberByte;
    Words();
    match d {
      case StringDoc(literal, text) =>
        LiteralIsParsed(c, o, literal, text);
        NotALiteral(c, o, QUOTE);
      case NumberDoc(digits, number) =>
        NumberIsParsed(lib, c, o, digits, number, level);
      case NullDoc =>
      case TrueDoc => FirstOfAt(c, o, TRUE_TEXT); NotNull(c, o); NotFalse(c, o);
      case FalseDoc => FirstOfAt(c, o, FALSE_TEXT); NotNull(c, o);
    }
  }

  lemma LiteralIsParsed(c: bytes, o: nat, literal: bytes, text: bytes)
    requires LiteralOf(literal, text) && At(c, o, literal)
    ensures literal != [] && literal[0] == QUOTE && Sees(c, o, QUOTE)
    ensures ParseString(c, o).Ok? && ParseString(c, o).next == o + |literal| && CStr(ParseString(c, o).value) == text
  {
    hide At, ParseString, WrittenString, DenotedChars, CStr;
    var chars :| CharsOk(chars) && literal == WrittenString(chars) && text == CStr(DenotedChars(chars));
    StringIsParsed(c, o, chars);
    StringOpens(chars);
    FirstOfAt(c, o, literal);
  }

  lemma NumberIsParsed(lib: Lib, c: bytes, o: nat, digits: bytes, number: real, level: nat)
    requires NumberLike(digits) && |digits| <= 63 && lib.strtod(digits) == (number, |digits|)
    requires At(c, o, digits) && NumberEnds(c, o + |digits|)
    ensures ParseValue(lib, c, o, level) == Ok(Number(number), o + |digits|)
  {
    hide At, SkipWs, ParseItems, ParseMembers, ParseString, NumberRun, NumberLike, NumberByte;
    NumberBytes(digits);
    FirstOfAt(c, o, digits);
    NotALiteral(c, o, c[o]);
    RunIsText(c, o, digits, NUMBER_ROOM);
  }

  lemma NumberBytes(s: bytes)
    requires NumberLike(s)
    ensures s != [] && (s[0] == 45 || 48 <= s[0] <= 57) && forall i | 0 <= i < |s| :: NumberByte(s[i])
  {
  }

  lemma StringOpens(chars: seq<Char>)
    requires CharsOk(chars)
    ensures WrittenString(chars) != [] && WrittenString(chars)[0] == QUOTE
  {
    hide WrittenChars;
  }

  /** The brackets around a body. */
  lemma Wrapped(c: bytes, o: nat, open: byte, body: bytes, close: byte)
    requires At(c, o, [open] + body + [close])
    ensures Sees(c, o, open) && At(c, o + 1, body + [close]) && Sees(c, o + 1 + |body|, close) && At(c, o + 1, body)
  {
    assert [open] + body + [close] == [open] + (body + [close]);
    AtConcat(c, o, [open], body + [close]);
    FirstOfAt(c, o, [open]);
    AtConcat(c, o + 1, body, [close]);
    FirstOfAt(c, o + 1 + |body|, [close]);
  }

  /** A value, the blanks behind it, and the comma with what follows or the closing bracket. */
  lemma ValuePieces(c: bytes, b: nat, text: bytes, after: bytes, last: bool, rest: bytes, close: byte)
    requires At(c, b, text + after + (if last then [] else [COMMA] + rest) + [close]) && White(after)
    requires close == CLOSE_ARRAY || close == CLOSE_OBJECT
    ensures
      var at := b + |text|;
      var end := at + |after|;
      && At(c, b, text) && NumberEnds(c, at) && SkipWs(c, at) == end && Sees(c, end, if last then close else COMMA)
      && (!last ==> At(c, end + 1, rest + [close]))
  {
    hide At, SkipWs, White, Blank;
    var tail := if last then [close] else [COMMA] + (rest + [close]);
    assert text + after + (if last then [] else [COMMA] + rest) + [close] == text + (after + tail);
    AtConcat(c, b, text, after + tail);
    var at := b + |text|;
    AtConcat(c, at, after, tail);
    WhiteAt(c, at, after);
    var end := at + |after|;
    SeesFirst(c, end, tail);
    if !last {
      AtConcat(c, end, [COMMA], rest + [close]);
    }
    SkipOver(c, at, end);
    BlankEnds(c, at, end);
  }

  lemma BlankEnds(c: bytes, at: nat, end: nat)
    requires Blank(c, at, end) && end < |c| && !NumberByte(c[end])
    ensures NumberEnds(c, at)
  {
  }

  lemma ParseItemsStep(lib: Lib, c: bytes, o: nat, level: nat, b: nat, item: Json, at: nat, more: bool,
                       rest: seq<Json>, end: nat)
    requires o < |c| && SkipWs(c, o + 1) == b && ParseValue(lib, c, b, level) == Ok(item, at)
    requires Sees(c, SkipWs(c, at), COMMA) <==> more
    requires if more then ParseItems(lib, c, SkipWs(c, at), level) == Ok(rest, end) else rest == [] && end == SkipWs(c, at)
    ensures ParseItems(lib, c, o, level) == Ok([item] + rest, end)
  {
    hide SkipWs, ParseValue;
    assert [item] + [] == [item];
  }

  lemma Regroup(a: bytes, b: bytes, c: bytes, d: bytes, e: bytes)
    ensures a + b + c + d + e == a + (b + c + d + e)
  {
  }

  lemma FirstItem(items: seq<Item>)
    requires items != []
    ensures
      var tail := if |items| == 1 then [] else [COMMA] + WrittenItems(items[1..]);
      WrittenItems(items) == items[0].before + Written(items[0].doc) + items[0].after + tail
  {
    hide Written;
  }

  lemma FirstItemValue(items: seq<Item>)
    requires items != []
    ensures ItemValues(items) == [Meaning(items[0].doc)] + ItemValues(items[1..])
  {
    hide Meaning;
  }

  /** The pieces of the first element, and what is behind it. */
  lemma ItemPieces(c: bytes, o: nat, items: seq<Item>)
    requires items != [] && At(c, o + 1, WrittenItems(items) + [CLOSE_ARRAY])
    requires White(items[0].before) && White(items[0].after)
    ensures
      var b := o + 1 + |items[0].before|;
      var at := b + |Written(items[0].doc)|;
      var end := at + |items[0].after|;
      && Blank(c, o + 1, b) && At(c, b, Written(items[0].doc)) && NumberEnds(c, at) && SkipWs(c, at) == end
      && if |items| == 1 then Sees(c, end, CLOSE_ARRAY) && end == o + 1 + |WrittenItems(items)|
         else Sees(c, end, COMMA) && At(c, end + 1, WrittenItems(items[1..]) + [CLOSE_ARRAY]) &&
              end + 1 + |WrittenItems(items[1..])| == o + 1 + |WrittenItems(items)|
  {
    hide *;
    var x, last := items[0], |items| == 1;
    var text, rest := Written(x.doc), if last then [] else WrittenItems(items[1..]);
    var tail := if last then [] else [COMMA] + rest;
    FirstItem(items);
    Regroup(x.before, text, x.after, tail, [CLOSE_ARRAY]);
    AtConcat(c, o + 1, x.before, text + x.after + tail + [CLOSE_ARRAY]);
    WhiteAt(c, o + 1, x.before);
    ValuePieces(c, o + 1 + |x.before|, text, x.after, last, rest, CLOSE_ARRAY);
  }

  /** The loop over the elements, from the bracket or comma at `o` on. */
  lemma {:induction false} ItemsAreParsed(lib: Lib, c: bytes, o: nat, items: seq<Item>, level: nat)
    requires items != [] && level <= NESTING_LIMIT && At(c, o + 1, WrittenItems(items) + [CLOSE_ARRAY])
    requires forall i | 0 <= i < |items| ::
               White(items[i].before) && White(items[i].after) && Standard(lib, items[i].doc, NESTING_LIMIT - level)
    ensures o + 1 < |c| && !Sees(c, SkipWs(c, o + 1), CLOSE_ARRAY)
    ensures ParseItems(lib, c, o, level) == Ok(ItemValues(items), o + 1 + |WrittenItems(items)|)
    decreases items, 0
  {
    hide *;
    var x := items[0];
    ItemPieces(c, o, items);
    FirstItemValue(items);
    FirstByte(lib, x.doc, NESTING_LIMIT - level);
    var b := o + 1 + |x.before|;
    var at := b + |Written(x.doc)|;
    var end := at + |x.after|;
    StartsAt(c, o + 1, b, Written(x.doc));
    DocIsParsed(lib, c, b, x.doc, level);
    if |items| == 1 {
      NoValues();
      Closed(c, end);
      ParseItemsStep(lib, c, o, level, b, Meaning(x.doc), at, false, [], end);
    } else {
      ItemsAreParsed(lib, c, end, items[1..], level);
      ParseItemsStep(lib, c, o, level, b, Meaning(x.doc), at, true, ItemValues(items[1..]),
                     end + 1 + |WrittenItems(items[1..])|);
    }
  }

  lemma NoValues()
    ensures ItemValues([]) == [] && PairValues([]) == []
  {
  }

  lemma Closed(c: bytes, o: nat)
    requires Sees(c, o, CLOSE_ARRAY) || Sees(c, o, CLOSE_OBJECT)
    ensures !Sees(c, o, COMMA)
  {
  }

  /** Behind blanks the first byte of the text is found. */
  lemma StartsAt(c: bytes, o: nat, b: nat, text: bytes)
    requires Blank(c, o, b) && At(c, b, text) && text != [] && 32 < text[0]
    ensures o < |c| && SkipWs(c, o) == b && Sees(c, b, text[0])
    ensures forall x | x != text[0] :: !Sees(c, b, x)
  {
    FirstOfAt(c, b, text);
    SkipOver(c, o, b);
  }

  /** A name in front of its value. */
  lemma NameIsParsed(c: bytes, o: nat, p: Pair, first: byte)
    requires o < |c| && PairStandard(p) && At(c, o + 1, WrittenName(p))
    requires Sees(c, o + 1 + |WrittenName(p)|, first) && 32 < first
    ensures ParseKey(c, o) == Ok(p.name, o + 1 + |WrittenName(p)|)
    ensures o + 1 < |c| && !Sees(c, SkipWs(c, o + 1), CLOSE_OBJECT)
  {
    hide At, ParseString, SkipWs, LiteralOf, White, Blank, CStr;
    var rest := p.between + ([':' as byte] + p.space);
    assert WrittenName(p) == p.before + (p.literal + rest);
    var q := o + 1 + |p.before|;
    AtConcat(c, o + 1, p.before, p.literal + rest);
    AtConcat(c, q, p.literal, rest);
    var at := q + |p.literal|;
    AtConcat(c, at, p.between, [':' as byte] + p.space);
    var colon := at + |p.between|;
    AtConcat(c, colon, [':' as byte], p.space);
    WhiteAt(c, o + 1, p.before);
    WhiteAt(c, at, p.between);
    WhiteAt(c, colon + 1, p.space);
    LiteralIsParsed(c, q, p.literal, p.name);
    StartsAt(c, o + 1, q, p.literal);
    StartsAt(c, at, colon, [':' as byte]);
    SkipOver(c, colon + 1, o + 1 + |WrittenName(p)|);
  }

  lemma ParseMembersStep(lib: Lib, c: bytes, o: nat, level: nat, start: nat, m: Member, at: nat, more: bool,
                         rest: seq<Member>, end: nat)
    requires o < |c| && ParseKey(c, o) == Ok(m.key, start) && ParseValue(lib, c, start, level) == Ok(m.value, at)
    requires Sees(c, SkipWs(c, at), COMMA) <==> more
    requires if more then ParseMembers(lib, c, SkipWs(c, at), level) == Ok(rest, end)
             else rest == [] && end == SkipWs(c, at)
    ensures ParseMembers(lib, c, o, level) == Ok([m] + rest, end)
  {
    hide SkipWs, ParseValue, ParseKey;
    assert [m] + [] == [m];
  }

  lemma FirstPair(pairs: seq<Pair>)
    requires pairs != []
    ensures
      var tail := if |pairs| == 1 then [] else [COMMA] + WrittenPairs(pairs[1..]);
      WrittenPairs(pairs) == WrittenName(pairs[0]) + Written(pairs[0].doc) + pairs[0].after + tail
  {
    hide Written, WrittenName;
  }

  lemma FirstPairValue(pairs: seq<Pair>)
    requires pairs != []
    ensures PairValues(pairs) == [Member(pairs[0].name, Meaning(pairs[0].doc))] + PairValues(pairs[1..])
  {
    hide Meaning;
  }

  lemma PairPieces(c: bytes, o: nat, pairs: seq<Pair>)
    requires pairs != [] && At(c, o + 1, WrittenPairs(pairs) + [CLOSE_OBJECT]) && White(pairs[0].after)
    ensures
      var b := o + 1 + |WrittenName(pairs[0])|;
      var at := b + |Written(pairs[0].doc)|;
      var end := at + |pairs[0].after|;
      && At(c, o + 1, WrittenName(pairs[0])) && At(c, b, Written(pairs[0].doc)) && NumberEnds(c, at) && SkipWs(c, at) == end
      && if |pairs| == 1 then Sees(c, end, CLOSE_OBJECT) && end == o + 1 + |WrittenPairs(pairs)|
         else Sees(c, end, COMMA) && At(c, end + 1, WrittenPairs(pairs[1..]) + [CLOSE_OBJECT]) &&
              end + 1 + |WrittenPairs(pairs[1..])| == o + 1 + |WrittenPairs(pairs)|
  {
    hide *;
    var x, last := pairs[0], |pairs| == 1;
    var text, rest := Written(x.doc), if last then [] else WrittenPairs(pairs[1..]);
    var tail := if last then [] else [COMMA] + rest;
    FirstPair(pairs);
    Regroup(WrittenName(x), text, x.after, tail, [CLOSE_OBJECT]);
    AtConcat(c, o + 1, WrittenName(x), text + x.after + tail + [CLOSE_OBJECT]);
    ValuePieces(c, o + 1 + |WrittenName(x)|, text, x.after, last, rest, CLOSE_OBJECT);
  }

  /** The first member, up to its value and behind it. */
  lemma PairStarts(lib: Lib, c: bytes, o: nat, pairs: seq<Pair>, level: nat)
    requires pairs != [] && At(c, o + 1, WrittenPairs(pairs) + [CLOSE_OBJECT])
    requires PairStandard(pairs[0]) && Standard(lib, pairs[0].doc, NESTING_LIMIT - level)
    ensures
      var b := o + 1 + |WrittenName(pairs[0])|;
      var at := b + |Written(pairs[0].doc)|;
      var end := at + |pairs[0].after|;
      && o + 1 < |c| && ParseKey(c, o) == Ok(pairs[0].name, b) && !Sees(c, SkipWs(c, o + 1), CLOSE_OBJECT)
      && At(c, b, Written(pairs[0].doc)) && NumberEnds(c, at) && SkipWs(c, at) == end
      && if |pairs| == 1 then Sees(c, end, CLOSE_OBJECT) && end == o + 1 + |WrittenPairs(pairs)|
         else Sees(c, end, COMMA) && At(c, end + 1, WrittenPairs(pairs[1..]) + [CLOSE_OBJECT]) && end < |c| &&
              end + 1 + |WrittenPairs(pairs[1..])| == o + 1 + |WrittenPairs(pairs)|
  {
    hide *;
    var x := pairs[0];
    AfterWhite(x);
    PairPieces(c, o, pairs);
    FirstByte(lib, x.doc, NESTING_LIMIT - level);
    var b, text := o + 1 + |WrittenName(x)|, Written(x.doc);
    SeesFirst(c, b, text);
    InFront(c, b, text[0]);
    if |pairs| > 1 {
      InFront(c, b + |text| + |x.after|, COMMA);
    }
    NameIsParsed(c, o, x, text[0]);
  }

  /** The first member is parsed; what is behind it decides whether the loop goes on. */
  lemma {:induction false} FirstPairIsParsed(lib: Lib, c: bytes, o: nat, pairs: seq<Pair>, level: nat, b: nat, at: nat)
    requires pairs != [] && level <= NESTING_LIMIT && At(c, o + 1, WrittenPairs(pairs) + [CLOSE_OBJECT])
    requires PairStandard(pairs[0]) && Standard(lib, pairs[0].doc, NESTING_LIMIT - level)
    requires b == o + 1 + |WrittenName(pairs[0])| && at == b + |Written(pairs[0].doc)|
    ensures o + 1 < |c| && ParseKey(c, o) == Ok(pairs[0].name, b) && !Sees(c, SkipWs(c, o + 1), CLOSE_OBJECT)
    ensures ParseValue(lib, c, b, level) == Ok(Meaning(pairs[0].doc), at)
    decreases pairs, 0
  {
    hide *;
    PairStarts(lib, c, o, pairs, level);
    DocIsParsed(lib, c, b, pairs[0].doc, level);
  }

  /** The last one. */
  lemma {:induction false} LastPairIsParsed(lib: Lib, c: bytes, o: nat, pairs: seq<Pair>, level: nat)
    requires |pairs| == 1 && level <= NESTING_LIMIT && At(c, o + 1, WrittenPairs(pairs) + [CLOSE_OBJECT])
    requires PairStandard(pairs[0]) && Standard(lib, pairs[0].doc, NESTING_LIMIT - level)
    ensures o + 1 < |c| && !Sees(c, SkipWs(c, o + 1), CLOSE_OBJECT)
    ensures ParseMembers(lib, c, o, level) == Ok(PairValues(pairs), o + 1 + |WrittenPairs(pairs)|)
    decreases pairs, 1
  {
    hide *;
    var x := pairs[0];
    var b := o + 1 + |WrittenName(x)|;
    var at := b + |Written(x.doc)|;
    FirstPairIsParsed(lib, c, o, pairs, level, b, at);
    FirstPairValue(pairs);
    AfterWhite(x);
    PairPieces(c, o, pairs);
    NoValues();
    Closed(c, at + |x.after|);
    ParseMembersStep(lib, c, o, level, b, Member(x.name, Meaning(x.doc)), at, false, [], at + |x.after|);
  }

  lemma {:induction false} PairsAreParsed(lib: Lib, c: bytes, o: nat, pairs: seq<Pair>, level: nat)
    requires pairs != [] && level <= NESTING_LIMIT && At(c, o + 1, WrittenPairs(pairs) + [CLOSE_OBJECT])
    requires forall i | 0 <= i < |pairs| :: PairStandard(pairs[i]) && Standard(lib, pairs[i].doc, NESTING_LIMIT - level)
    ensures o + 1 < |c| && !Sees(c, SkipWs(c, o + 1), CLOSE_OBJECT)
    ensures ParseMembers(lib, c, o, level) == Ok(PairValues(pairs), o + 1 + |WrittenPairs(pairs)|)
    decreases pairs, 2
  {
    hide *;
    if |pairs| == 1 {
      LastPairIsParsed(lib, c, o, pairs, level);
    } else {
      var b := o + 1 + |WrittenName(pairs[0])|;
      var at := b + |Written(pairs[0].doc)|;
      var end := at + |pairs[0].after|;
      FirstPairIsParsed(lib, c, o, pairs, level, b, at);
      AfterWhite(pairs[0]);
      PairPieces(c, o, pairs);
      InFront(c, end, COMMA);
      PairsAreParsed(lib, c, end, pairs[1..], level);
      JoinPairs(lib, c, o, pairs, level, b, at, o + 1 + |WrittenPairs(pairs)|);
    }
  }

  lemma JoinPairs(lib: Lib, c: bytes, o: nat, pairs: seq<Pair>, level: nat, b: nat, at: nat, stop: nat)
    requires |pairs| > 1 && o < |c| && ParseKey(c, o) == Ok(pairs[0].name, b)
    requires ParseValue(lib, c, b, level) == Ok(Meaning(pairs[0].doc), at) && Sees(c, SkipWs(c, at), COMMA)
    requires SkipWs(c, at) < |c| && ParseMembers(lib, c, SkipWs(c, at), level) == Ok(PairValues(pairs[1..]), stop)
    ensures ParseMembers(lib, c, o, level) == Ok(PairValues(pairs), stop)
  {
    hide *;
    FirstPairValue(pairs);
    var m := Member(pairs[0].name, Meaning(pairs[0].doc));
    ParseMembersStep(lib, c, o, level, b, m, at, true, PairValues(pairs[1..]), stop);
  }

  lemma AfterWhite(p: Pair)
    requires PairStandard(p)
    ensures White(p.after)
  {
  }

  lemma InFront(c: bytes, b: nat, x: byte)
    requires Sees(c, b, x)
    ensures b < |c|
  {
  }

  lemma ParseArrayStep(lib: Lib, c: bytes, o: nat, level: nat, items: seq<Json>, end: nat)
    requires Sees(c, o, OPEN_ARRAY) && level < NESTING_LIMIT && Sees(c, end, CLOSE_ARRAY)
    requires if items == [] then SkipWs(c, o + 1) == end
             else !Sees(c, SkipWs(c, o + 1), CLOSE_ARRAY) && o + 1 < |c| &&
                  ParseItems(lib, c, o, level + 1) == Ok(items, end)
    ensures ParseValue(lib, c, o, level) == Ok(Array(items), end + 1)
  {
    hide At, SkipWs, ParseItems, ParseMembers, ParseString, ParseNumber;
    NotALiteral(c, o, OPEN_ARRAY);
  }

  lemma ParseObjectStep(lib: Lib, c: bytes, o: nat, level: nat, members: seq<Member>, end: nat)
    requires Sees(c, o, OPEN_OBJECT) && level < NESTING_LIMIT && Sees(c, end, CLOSE_OBJECT)
    requires if members == [] then SkipWs(c, o + 1) == end
             else !Sees(c, SkipWs(c, o + 1), CLOSE_OBJECT) && o + 1 < |c| &&
                  ParseMembers(lib, c, o, level + 1) == Ok(members, end)
    ensures ParseValue(lib, c, o, level) == Ok(Object(members), end + 1)
  {
    hide At, SkipWs, ParseItems, ParseMembers, ParseString, ParseNumber;
    NotALiteral(c, o, OPEN_OBJECT);
  }

  /** Blanks between brackets. */
  lemma EmptyBody(c: bytes, o: nat, open: byte, blank: bytes, close: byte)
    requires At(c, o, [open] + blank + [close]) && White(blank) && (close == CLOSE_ARRAY || close == CLOSE_OBJECT)
    ensures SkipWs(c, o + 1) == o + 1 + |blank|
  {
    hide At;
    Wrapped(c, o, open, blank, close);
    WhiteAt(c, o + 1, blank);
    SkipOver(c, o + 1, o + 1 + |blank|);
  }

  lemma StandardParts(lib: Lib, blank: bytes, items: seq<Item>, pairs: seq<Pair>, room: int)
    ensures Standard(lib, ArrayDoc(blank, items), room) ==>
              && room > 0 && White(blank)
              && forall i | 0 <= i < |items| ::
                   White(items[i].before) && White(items[i].after) && Standard(lib, items[i].doc, room - 1)
    ensures Standard(lib, ObjectDoc(blank, pairs), room) ==>
              && room > 0 && White(blank)
              && forall i | 0 <= i < |pairs| :: PairStandard(pairs[i]) && Standard(lib, pairs[i].doc, room - 1)
  {
    hide White, PairStandard;
  }

  lemma EmptyArrayIsParsed(lib: Lib, c: bytes, o: nat, blank: bytes, level: nat)
    requires level < NESTING_LIMIT && White(blank) && At(c, o, [OPEN_ARRAY] + blank + [CLOSE_ARRAY])
    ensures ParseValue(lib, c, o, level) == Ok(Array([]), o + |blank| + 2)
  {
    hide *;
    Wrapped(c, o, OPEN_ARRAY, blank, CLOSE_ARRAY);
    EmptyBody(c, o, OPEN_ARRAY, blank, CLOSE_ARRAY);
    ParseArrayStep(lib, c, o, level, [], o + 1 + |blank|);
  }

  lemma {:induction false} ArrayIsParsed(lib: Lib, c: bytes, o: nat, blank: bytes, items: seq<Item>, level: nat)
    requires level <= NESTING_LIMIT && Standard(lib, ArrayDoc(blank, items), NESTING_LIMIT - level)
    requires At(c, o, Written(ArrayDoc(blank, items)))
    ensures ParseValue(lib, c, o, level) == Ok(Array(ItemValues(items)), o + |Written(ArrayDoc(blank, items))|)
    decreases items, 2
  {
    hide *;
    StandardParts(lib, blank, items, [], NESTING_LIMIT - level);
    Brackets(blank, items, []);
    NoValues();
    if items == [] {
      EmptyArrayIsParsed(lib, c, o, blank, level);
    } else {
      Wrapped(c, o, OPEN_ARRAY, WrittenItems(items), CLOSE_ARRAY);
      ItemsAreParsed(lib, c, o, items, level + 1);
      ParseArrayStep(lib, c, o, level, ItemValues(items), o + 1 + |WrittenItems(items)|);
    }
  }

  lemma EmptyObjectIsParsed(lib: Lib, c: bytes, o: nat, blank: bytes, level: nat)
    requires level < NESTING_LIMIT && White(blank) && At(c, o, [OPEN_OBJECT] + blank + [CLOSE_OBJECT])
    ensures ParseValue(lib, c, o, level) == Ok(Object([]), o + |blank| + 2)
  {
    hide *;
    Wrapped(c, o, OPEN_OBJECT, blank, CLOSE_OBJECT);
    EmptyBody(c, o, OPEN_OBJECT, blank, CLOSE_OBJECT);
    ParseObjectStep(lib, c, o, level, [], o + 1 + |blank|);
  }

  lemma {:induction false} ObjectIsParsed(lib: Lib, c: bytes, o: nat, blank: bytes, pairs: seq<Pair>, level: nat)
    requires level <= NESTING_LIMIT && Standard(lib, ObjectDoc(blank, pairs), NESTING_LIMIT - level)
    requires At(c, o, Written(ObjectDoc(blank, pairs)))
    ensures ParseValue(lib, c, o, level) == Ok(Object(PairValues(pairs)), o + |Written(ObjectDoc(blank, pairs))|)
    decreases pairs, 3
  {
    hide *;
    StandardParts(lib, blank, [], pairs, NESTING_LIMIT - level);
    Brackets(blank, [], pairs);
    NoValues();
    if pairs == [] {
      EmptyObjectIsParsed(lib, c, o, blank, level);
    } else {
      Wrapped(c, o, OPEN_OBJECT, WrittenPairs(pairs), CLOSE_OBJECT);
      PairsAreParsed(lib, c, o, pairs, level + 1);
      ParseObjectStep(lib, c, o, level, PairValues(pairs), o + 1 + |WrittenPairs(pairs)|);
    }
  }

  /** Every text of the standard, at any place and with any blanks, is parsed to what it denotes, up to its end. */
  lemma {:induction false} DocIsParsed(lib: Lib, c: bytes, o: nat, d: Doc, level: nat)
    requires level <= NESTING_LIMIT && Standard(lib, d, NESTING_LIMIT - level)
    requires At(c, o, Written(d)) && NumberEnds(c, o + |Written(d)|)
    ensures ParseValue(lib, c, o, level) == Ok(Meaning(d), o + |Written(d)|)
    decreases d, 1
  {
    hide At, ParseValue, Written, Standard, ItemValues, PairValues;
    match d {
      case ArrayDoc(blank, items) => ArrayIsParsed(lib, c, o, blank, items, level);
      case ObjectDoc(blank, pairs) => ObjectIsParsed(lib, c, o, blank, pairs, level);
      case _ => LeafIsParsed(lib, c, o, d, level, NESTING_LIMIT - level);
    }
  }

  // ---------- what is parsed is such a text, loosely ----------

  /** Texts up to white space, where any byte up to 32 will do, numbers, and the insides of string literals. */
  predicate Loose(d: Doc, room: int)
    decreases d
  {
    match d
    case NumberDoc(digits, _) => NumberLike(digits) && |digits| <= 63
    case StringDoc(literal, text) => LooseString(literal, text)
    case ArrayDoc(blank, items) =>
      && room > 0 && Low(blank)
      && forall x | x in items :: Low(x.before) && Low(x.after) && Loose(x.doc, room - 1)
    case ObjectDoc(blank, pairs) =>
      && room > 0 && Low(blank)
      && forall x | x in pairs :: LoosePair(x) && Loose(x.doc, room - 1)
    case _ => true
  }

  predicate LoosePair(p: Pair) {
    Low(p.before) && LooseString(p.literal, p.name) && Low(p.between) && Low(p.space) && Low(p.after)
  }

  predicate LooseString(literal: bytes, text: bytes) {
    |literal| >= 2 && literal[0] == '\"' as byte && literal[|literal| - 1] == '\"' as byte && NulFree(text)
  }

  predicate Low(s: bytes) {
    forall i | 0 <= i < |s| :: s[i] <= ' ' as byte
  }

  /** Only behind blanks does the skipping end at a byte that is none. */
  lemma SkippedIsLow(c: bytes, o: nat, b: nat)
    requires SkipWs(c, o) == b < |c| && c[b] > 32
    ensures o <= b && Low(c[o..b])
  {
  }

  lemma SeenIsHigh(c: bytes, o: nat, x: byte)
    requires Sees(c, o, x) && x > 32
    ensures o < |c| && c[o] > 32 && c[o..o + 1] == [x]
  {
  }

  lemma ValueStartsHigh(lib: Lib, c: bytes, o: nat, level: nat)
    requires ParseValue(lib, c, o, level).Ok?
    ensures o < ParseValue(lib, c, o, level).next <= |c| && o < |c| && c[o] > 32
  {
    hide ParseItems, ParseMembers, ParseString, SkipWs, ParseNumber, ParseArray, ParseObject;
    if At(c, o, NULL_TEXT) {
      FirstOfAt(c, o, NULL_TEXT);
    } else if At(c, o, FALSE_TEXT) {
      FirstOfAt(c, o, FALSE_TEXT);
    } else if At(c, o, TRUE_TEXT) {
      FirstOfAt(c, o, TRUE_TEXT);
    }
  }

  lemma StringIsLoose(c: bytes, o: nat)
    requires ParseString(c, o).Ok?
    ensures o < ParseString(c, o).next <= |c| && LooseString(c[o..ParseString(c, o).next], CStr(ParseString(c, o).value))
  {
    hide Unescape, CStr;
    CStrIsNulFree(ParseString(c, o).value);
  }

  lemma CStrIsNulFree(s: bytes)
    ensures NulFree(CStr(s))
  {
  }

  /** Which value came from where. */
  lemma ValueKinds(lib: Lib, c: bytes, o: nat, level: nat)
    requires ParseValue(lib, c, o, level).Ok?
    ensures
      var r := ParseValue(lib, c, o, level);
      match r.value
      case Null => At(c, o, NULL_TEXT) && r.next == o + 4
      case False => At(c, o, FALSE_TEXT) && r.next == o + 5
      case True => At(c, o, TRUE_TEXT) && r.next == o + 4
      case String(text) => ParseString(c, o).Ok? && ParseString(c, o).next == r.next && text == CStr(ParseString(c, o).value)
      case Number(_) => o < |c| && (c[o] == 45 || 48 <= c[o] <= 57) && r == ParseNumber(lib, c, o)
      case Array(_) => Sees(c, o, OPEN_ARRAY) && o < |c| && r == ParseArray(lib, c, o, level)
      case Object(_) => Sees(c, o, OPEN_OBJECT) && o < |c| && r == ParseObject(lib, c, o, level)
      case Raw(_) => false
  {
    hide At, ParseItems, ParseMembers, ParseString, CStr, NumberRun, SkipWs;
  }

  lemma LeafIsLoose(lib: Lib, c: bytes, o: nat, level: nat, room: int) returns (d: Doc)
    requires ParseValue(lib, c, o, level).Ok?
    requires !ParseValue(lib, c, o, level).value.Array? && !ParseValue(lib, c, o, level).value.Object?
    ensures o < ParseValue(lib, c, o, level).next <= |c|
    ensures Loose(d, room) && Meaning(d) == ParseValue(lib, c, o, level).value
    ensures c[o..ParseValue(lib, c, o, level).next] == Written(d)
  {
    hide ParseValue, ParseString, ParseNumber, CStr, Loose, Written, Meaning;
    ValueKinds(lib, c, o, level);
    WordsAreLoose(room);
    var r := ParseValue(lib, c, o, level);
    match r.value
    case Null => d := NullDoc;
    case False => d := FalseDoc;
    case True => d := TrueDoc;
    case String(text) =>
      StringIsLoose(c, o);
      d := StringDoc(c[o..r.next], text);
      LooseLeaf(d, room);
    case Number(number) =>
      NumberTextIsLoose(lib, c, o);
      d := NumberDoc(c[o..r.next], number);
      LooseLeaf(d, room);
  }

  lemma WordsAreLoose(room: int)
    ensures Loose(NullDoc, room) && Loose(FalseDoc, room) && Loose(TrueDoc, room)
    ensures Written(NullDoc) == NULL_TEXT && Written(FalseDoc) == FALSE_TEXT && Written(TrueDoc) == TRUE_TEXT
    ensures Meaning(NullDoc) == Null && Meaning(FalseDoc) == False && Meaning(TrueDoc) == True
  {
    Words();
  }

  lemma LooseLeaf(d: Doc, room: int)
    requires d.NumberDoc? || d.StringDoc?
    ensures d.NumberDoc? && NumberLike(d.digits) && |d.digits| <= 63 ==>
              Loose(d, room) && Written(d) == d.digits && Meaning(d) == Number(d.number)
    ensures d.StringDoc? && LooseString(d.literal, d.text) ==>
              Loose(d, room) && Written(d) == d.literal && Meaning(d) == String(d.text)
  {
    hide NumberLike, LooseString;
  }

  lemma NumberTextIsLoose(lib: Lib, c: bytes, o: nat)
    requires o < |c| && (c[o] == 45 || 48 <= c[o] <= 57) && ParseNumber(lib, c, o).Ok?
    ensures
      var next := ParseNumber(lib, c, o).next;
      o < next <= |c| && NumberLike(c[o..next]) && next - o <= 63
  {
    hide NumberRun, NumberLike;
    NumberIsLoose(c, o, lib.strtod(NumberRun(c, o, NUMBER_ROOM)).1);
  }

  lemma NumberIsLoose(c: bytes, o: nat, used: nat)
    requires o < |c| && (c[o] == 45 || 48 <= c[o] <= 57) && 0 < used <= |NumberRun(c, o, NUMBER_ROOM)|
    ensures o + used <= |c| && NumberLike(c[o..o + used]) && used <= 63
  {
    hide NumberByte;
    var run, digits := NumberRun(c, o, NUMBER_ROOM), c[o..o + used];
    assert forall i | 0 <= i < used :: digits[i] == run[i];
    hide NumberRun, NumberLike;
    BytesAreNumberLike(digits);
  }

  lemma BytesAreNumberLike(s: bytes)
    requires s != [] && (s[0] == 45 || 48 <= s[0] <= 57) && forall i | 0 <= i < |s| :: NumberByte(s[i])
    ensures NumberLike(s)
  {
    forall i | 0 <= i < |s| ensures s[i] as char in "+-.0123456789Ee" {
      var digits := "+-.0123456789Ee";
      var b := s[i];
      assert b == 43 ==> digits[0] == b as char;
      assert b == 45 ==> digits[1] == b as char;
      assert b == 46 ==> digits[2] == b as char;
      assert 48 <= b <= 57 ==> digits[b - 45] == b as char;
      assert b == 69 ==> digits[13] == b as char;
      assert b == 101 ==> digits[14] == b as char;
    }
    var starts := "-0123456789";
    assert if s[0] == 45 then starts[0] == s[0] as char else starts[s[0] - 47] == s[0] as char;
  }

  /** The slices of an element and of what is behind it. */
  predicate Slices(c: bytes, a: nat, b: nat, at: nat, end: nat, more: bool, stop: nat) {
    a <= b <= at <= end < |c| && if more then Sees(c, end, COMMA) && end < stop <= |c| else stop == end
  }

  lemma SlicesJoin(c: bytes, a: nat, b: nat, at: nat, end: nat, more: bool, stop: nat)
    requires Slices(c, a, b, at, end, more, stop)
    ensures c[a..stop] == c[a..b] + c[b..at] + c[at..end] + if more then [COMMA] + c[end + 1..stop] else []
  {
  }

  lemma ItemsCases(lib: Lib, c: bytes, o: nat, level: nat)
    requires o < |c| && ParseItems(lib, c, o, level).Ok? && Sees(c, ParseItems(lib, c, o, level).next, CLOSE_ARRAY)
    ensures
      var whole, b := ParseItems(lib, c, o, level), SkipWs(c, o + 1);
      var r := ParseValue(lib, c, b, level);
      && r.Ok? && o + 1 <= b && Slices(c, o + 1, b, r.next, SkipWs(c, r.next), Sees(c, SkipWs(c, r.next), COMMA), whole.next)
      && Low(c[o + 1..b]) && Low(c[r.next..SkipWs(c, r.next)])
      && if Sees(c, SkipWs(c, r.next), COMMA)
         then var rest := ParseItems(lib, c, SkipWs(c, r.next), level);
              rest.Ok? && rest.next == whole.next && whole.value == [r.value] + rest.value
         else whole.value == [r.value]
  {
    hide SkipWs, ParseValue, Low, Sees;
    var b := SkipWs(c, o + 1);
    var r := ParseValue(lib, c, b, level);
    ValueStartsHigh(lib, c, b, level);
    SkippedIsLow(c, o + 1, b);
    var end := SkipWs(c, r.next);
    SeenIsHigh(c, end, if Sees(c, end, COMMA) then COMMA else CLOSE_ARRAY);
    SkippedIsLow(c, r.next, end);
  }

  lemma ItemsJoin(c: bytes, a: nat, b: nat, at: nat, end: nat, stop: nat, x: Item, rest: seq<Item>)
    requires Slices(c, a, b, at, end, rest != [], stop)
    requires x.before == c[a..b] && Written(x.doc) == c[b..at] && x.after == c[at..end]
    requires rest != [] ==> c[end + 1..stop] == WrittenItems(rest)
    ensures c[a..stop] == WrittenItems([x] + rest) && ItemValues([x] + rest) == [Meaning(x.doc)] + ItemValues(rest)
  {
    hide Written, WrittenItems, Meaning, ItemValues, Sees;
    SlicesJoin(c, a, b, at, end, rest != [], stop);
    FirstItem([x] + rest);
    FirstItemValue([x] + rest);
    assert ([x] + rest)[1..] == rest;
  }

  lemma {:induction false} ItemsAreLoose(lib: Lib, c: bytes, o: nat, level: nat) returns (items: seq<Item>)
    requires o < |c| && level <= NESTING_LIMIT && ParseItems(lib, c, o, level).Ok?
    requires Sees(c, ParseItems(lib, c, o, level).next, CLOSE_ARRAY)
    ensures items != [] && o + 1 <= ParseItems(lib, c, o, level).next < |c|
    ensures c[o + 1..ParseItems(lib, c, o, level).next] == WrittenItems(items)
    ensures ItemValues(items) == ParseItems(lib, c, o, level).value
    ensures forall x | x in items :: Low(x.before) && Low(x.after) && Loose(x.doc, NESTING_LIMIT - level)
    decreases |c| - o, 0
  {
    hide SkipWs, ParseValue, ParseItems, Loose, Low, Written, WrittenItems, Meaning, ItemValues, Sees;
    ItemsCases(lib, c, o, level);
    SeenIsHigh(c, ParseItems(lib, c, o, level).next, CLOSE_ARRAY);
    var b := SkipWs(c, o + 1);
    var r := ParseValue(lib, c, b, level);
    var end := SkipWs(c, r.next);
    var d := DocAccepted(lib, c, b, level);
    var x, rest := Item(c[o + 1..b], d, c[r.next..end]), [];
    if Sees(c, end, COMMA) {
      rest := ItemsAreLoose(lib, c, end, level);
    }
    NoValues();
    ItemsJoin(c, o + 1, b, r.next, end, ParseItems(lib, c, o, level).next, x, rest);
    items := [x] + rest;
  }

  lemma NameIsLoose(c: bytes, o: nat, start: nat) returns (p: Pair)
    requires o < |c| && ParseKey(c, o).Ok? && ParseKey(c, o).next == start < |c| && c[start] > 32
    ensures o + 1 <= start && c[o + 1..start] == WrittenName(p) && p.name == ParseKey(c, o).value
    ensures Low(p.before) && LooseString(p.literal, p.name) && Low(p.between) && Low(p.space)
  {
    hide SkipWs, ParseString, Low, CStr, LooseString;
    var q := SkipWs(c, o + 1);
    var k := ParseString(c, q);
    StringIsLoose(c, q);
    StringStartsHigh(c, q);
    SkippedIsLow(c, o + 1, q);
    var at := SkipWs(c, k.next);
    SkippedIsLow(c, k.next, at);
    SkippedIsLow(c, at + 1, start);
    p := Pair(c[o + 1..q], c[q..k.next], CStr(k.value), c[k.next..at], c[at + 1..start], NullDoc, []);
    assert c[o + 1..start] == c[o + 1..q] + c[q..k.next] + c[k.next..at] + [c[at]] + c[at + 1..start];
  }

  lemma StringStartsHigh(c: bytes, o: nat)
    requires ParseString(c, o).Ok?
    ensures o < |c| && c[o] > 32
  {
    hide Unescape;
  }

  lemma PairsCases(lib: Lib, c: bytes, o: nat, level: nat)
    requires o < |c| && ParseMembers(lib, c, o, level).Ok? && Sees(c, ParseMembers(lib, c, o, level).next, CLOSE_OBJECT)
    ensures
      var whole, k := ParseMembers(lib, c, o, level), ParseKey(c, o);
      && k.Ok? && k.next < |c| && c[k.next] > 32
      && var r := ParseValue(lib, c, k.next, level);
      && r.Ok? && o + 1 <= k.next
      && Slices(c, o + 1, k.next, r.next, SkipWs(c, r.next), Sees(c, SkipWs(c, r.next), COMMA), whole.next)
      && Low(c[r.next..SkipWs(c, r.next)])
      && var m := Member(k.value, r.value);
      if Sees(c, SkipWs(c, r.next), COMMA)
         then var rest := ParseMembers(lib, c, SkipWs(c, r.next), level);
              rest.Ok? && rest.next == whole.next && whole.value == [m] + rest.value
         else whole.value == [m]
  {
    hide SkipWs, ParseValue, ParseKey, Low, Sees;
    var b := ParseKey(c, o).next;
    var r := ParseValue(lib, c, b, level);
    ValueStartsHigh(lib, c, b, level);
    var end := SkipWs(c, r.next);
    SeenIsHigh(c, end, if Sees(c, end, COMMA) then COMMA else CLOSE_OBJECT);
    SkippedIsLow(c, r.next, end);
  }

  lemma PairsJoin(c: bytes, a: nat, b: nat, at: nat, end: nat, stop: nat, x: Pair, rest: seq<Pair>)
    requires Slices(c, a, b, at, end, rest != [], stop)
    requires WrittenName(x) == c[a..b] && Written(x.doc) == c[b..at] && x.after == c[at..end]
    requires rest != [] ==> c[end + 1..stop] == WrittenPairs(rest)
    ensures c[a..stop] == WrittenPairs([x] + rest)
    ensures PairValues([x] + rest) == [Member(x.name, Meaning(x.doc))] + PairValues(rest)
  {
    hide Written, WrittenPairs, WrittenName, Meaning, PairValues, Sees;
    SlicesJoin(c, a, b, at, end, rest != [], stop);
    FirstPair([x] + rest);
    FirstPairValue([x] + rest);
    assert ([x] + rest)[1..] == rest;
  }

  lemma SameName(p: Pair, x: Pair)
    requires x == p.(doc := x.doc, after := x.after)
    ensures WrittenName(x) == WrittenName(p)
  {
  }

  lemma {:induction false} PairsAreLoose(lib: Lib, c: bytes, o: nat, level: nat) returns (pairs: seq<Pair>)
    requires o < |c| && level <= NESTING_LIMIT && ParseMembers(lib, c, o, level).Ok?
    requires Sees(c, ParseMembers(lib, c, o, level).next, CLOSE_OBJECT)
    ensures pairs != [] && o + 1 <= ParseMembers(lib, c, o, level).next < |c|
    ensures c[o + 1..ParseMembers(lib, c, o, level).next] == WrittenPairs(pairs)
    ensures PairValues(pairs) == ParseMembers(lib, c, o, level).value
    ensures forall x | x in pairs :: LoosePair(x) && Loose(x.doc, NESTING_LIMIT - level)
    decreases |c| - o, 0
  {
    hide SkipWs, ParseValue, ParseKey, ParseMembers, Loose, Low, LooseString, Written, WrittenPairs, WrittenName, Meaning,
         PairValues, Sees, CStr;
    PairsCases(lib, c, o, level);
    SeenIsHigh(c, ParseMembers(lib, c, o, level).next, CLOSE_OBJECT);
    var b := ParseKey(c, o).next;
    var r := ParseValue(lib, c, b, level);
    var end := SkipWs(c, r.next);
    var d := DocAccepted(lib, c, b, level);
    var p := NameIsLoose(c, o, b);
    var x, rest := p.(doc := d, after := c[r.next..end]), [];
    SameName(p, x);
    if Sees(c, end, COMMA) {
      rest := PairsAreLoose(lib, c, end, level);
    }
    NoValues();
    PairsJoin(c, o + 1, b, r.next, end, ParseMembers(lib, c, o, level).next, x, rest);
    pairs := [x] + rest;
  }

  lemma Brackets(blank: bytes, items: seq<Item>, pairs: seq<Pair>)
    ensures Written(ArrayDoc(blank, items)) ==
            [OPEN_ARRAY] + (if items == [] then blank else WrittenItems(items)) + [CLOSE_ARRAY]
    ensures Written(ObjectDoc(blank, pairs)) ==
            [OPEN_OBJECT] + (if pairs == [] then blank else WrittenPairs(pairs)) + [CLOSE_OBJECT]
    ensures Meaning(ArrayDoc(blank, items)) == Array(ItemValues(items))
    ensures Meaning(ObjectDoc(blank, pairs)) == Object(PairValues(pairs))
  {
    hide WrittenItems, WrittenPairs, ItemValues, PairValues;
  }

  lemma BodySlice(c: bytes, o: nat, open: byte, end: nat, close: byte)
    requires Sees(c, o, open) && Sees(c, end, close) && o < end
    ensures c[o..end + 1] == [open] + c[o + 1..end] + [close]
  {
  }

  lemma ArrayCases(lib: Lib, c: bytes, o: nat, level: nat)
    requires Sees(c, o, OPEN_ARRAY) && o < |c| && level <= NESTING_LIMIT && ParseArray(lib, c, o, level).Ok?
    ensures
      var r := ParseArray(lib, c, o, level);
      && level < NESTING_LIMIT && o + 1 < r.next <= |c|
      && c[o..r.next] == [OPEN_ARRAY] + c[o + 1..r.next - 1] + [CLOSE_ARRAY]
      && if Sees(c, SkipWs(c, o + 1), CLOSE_ARRAY) then r.value == Array([]) && Low(c[o + 1..r.next - 1])
         else var rest := ParseItems(lib, c, o, level + 1);
              rest.Ok? && rest.next == r.next - 1 && Sees(c, rest.next, CLOSE_ARRAY) && r.value == Array(rest.value)
  {
    hide ParseItems, SkipWs, Low, Sees;
    var r := ParseArray(lib, c, o, level);
    SeenIsHigh(c, r.next - 1, CLOSE_ARRAY);
    BodySlice(c, o, OPEN_ARRAY, r.next - 1, CLOSE_ARRAY);
    if Sees(c, SkipWs(c, o + 1), CLOSE_ARRAY) {
      SkippedIsLow(c, o + 1, r.next - 1);
    }
  }

  lemma ObjectCases(lib: Lib, c: bytes, o: nat, level: nat)
    requires Sees(c, o, OPEN_OBJECT) && o < |c| && level <= NESTING_LIMIT && ParseObject(lib, c, o, level).Ok?
    ensures
      var r := ParseObject(lib, c, o, level);
      && level < NESTING_LIMIT && o + 1 < r.next <= |c|
      && c[o..r.next] == [OPEN_OBJECT] + c[o + 1..r.next - 1] + [CLOSE_OBJECT]
      && if Sees(c, SkipWs(c, o + 1), CLOSE_OBJECT) then r.value == Object([]) && Low(c[o + 1..r.next - 1])
         else var rest := ParseMembers(lib, c, o, level + 1);
              rest.Ok? && rest.next == r.next - 1 && Sees(c, rest.next, CLOSE_OBJECT) && r.value == Object(rest.value)
  {
    hide ParseMembers, SkipWs, Low, Sees;
    var r := ParseObject(lib, c, o, level);
    SeenIsHigh(c, r.next - 1, CLOSE_OBJECT);
    BodySlice(c, o, OPEN_OBJECT, r.next - 1, CLOSE_OBJECT);
    if Sees(c, SkipWs(c, o + 1), CLOSE_OBJECT) {
      SkippedIsLow(c, o + 1, r.next - 1);
    }
  }

  lemma LooseBrackets(blank: bytes, items: seq<Item>, pairs: seq<Pair>, room: int)
    requires room > 0 && Low(blank)
    requires forall x | x in items :: Low(x.before) && Low(x.after) && Loose(x.doc, room - 1)
    requires forall x | x in pairs :: LoosePair(x) && Loose(x.doc, room - 1)
    ensures Loose(ArrayDoc(blank, items), room) && Loose(ObjectDoc(blank, pairs), room)
  {
    hide Low, LoosePair;
  }

  lemma {:induction false} ArrayIsLoose(lib: Lib, c: bytes, o: nat, level: nat) returns (d: Doc)
    requires Sees(c, o, OPEN_ARRAY) && o < |c| && level <= NESTING_LIMIT && ParseArray(lib, c, o, level).Ok?
    ensures Loose(d, NESTING_LIMIT - level) && Meaning(d) == ParseArray(lib, c, o, level).value
    ensures c[o..ParseArray(lib, c, o, level).next] == Written(d)
    decreases |c| - o, 1
  {
    hide *;
    ArrayCases(lib, c, o, level);
    NoValues();
    NothingIsLow();
    var r := ParseArray(lib, c, o, level);
    var blank, items := c[o + 1..r.next - 1], [];
    if !Sees(c, SkipWs(c, o + 1), CLOSE_ARRAY) {
      items := ItemsAreLoose(lib, c, o, level + 1);
      blank := [];
    }
    Brackets(blank, items, []);
    LooseBrackets(blank, items, [], NESTING_LIMIT - level);
    d := ArrayDoc(blank, items);
  }

  lemma {:induction false} ObjectIsLoose(lib: Lib, c: bytes, o: nat, level: nat) returns (d: Doc)
    requires Sees(c, o, OPEN_OBJECT) && o < |c| && level <= NESTING_LIMIT && ParseObject(lib, c, o, level).Ok?
    ensures Loose(d, NESTING_LIMIT - level) && Meaning(d) == ParseObject(lib, c, o, level).value
    ensures c[o..ParseObject(lib, c, o, level).next] == Written(d)
    decreases |c| - o, 1
  {
    hide *;
    ObjectCases(lib, c, o, level);
    NoValues();
    NothingIsLow();
    var r := ParseObject(lib, c, o, level);
    var blank, pairs := c[o + 1..r.next - 1], [];
    if !Sees(c, SkipWs(c, o + 1), CLOSE_OBJECT) {
      pairs := PairsAreLoose(lib, c, o, level + 1);
      blank := [];
    }
    Brackets(blank, [], pairs);
    LooseBrackets(blank, [], pairs, NESTING_LIMIT - level);
    d := ObjectDoc(blank, pairs);
  }

  lemma NothingIsLow()
    ensures Low([])
  {
  }

  /** Whatever is parsed is a text of this kind, not too deep, and means the value that is returned. */
  lemma {:induction false} DocAccepted(lib: Lib, c: bytes, o: nat, level: nat) returns (d: Doc)
    requires level <= NESTING_LIMIT && ParseValue(lib, c, o, level).Ok?
    ensures o < ParseValue(lib, c, o, level).next <= |c|
    ensures Loose(d, NESTING_LIMIT - level) && Meaning(d) == ParseValue(lib, c, o, level).value
    ensures c[o..ParseValue(lib, c, o, level).next] == Written(d)
    decreases |c| - o, 2
  {
    hide *;
    ValueKinds(lib, c, o, level);
    match ParseValue(lib, c, o, level).value
    case Array(_) => d := ArrayIsLoose(lib, c, o, level);
    case Object(_) => d := ObjectIsLoose(lib, c, o, level);
    case _ => d := LeafIsLoose(lib, c, o, level, NESTING_LIMIT - level);
  }

  // ---------- whole texts ----------

  /** A text, with or without the byte order mark in front and blanks before it, and whatever comes behind it. The mark is
      only looked for in texts of more than four bytes. */
  lemma TextIsParsed(lib: Lib, bom: bool, before: bytes, d: Doc, tail: bytes)
    requires Standard(lib, d, 1000) && White(before) && NumberEnds(tail, 0)
    requires bom ==> |before + Written(d) + tail| > 1
    ensures
      var c := (if bom then [0xEF, 0xBB, 0xBF] else []) + (before + Written(d) + tail);
      ParseText(lib, c, false) == Ok(Meaning(d), |c| - |tail|)
  {
    hide At, ParseValue, ParseText, Written, Meaning, Standard, White, SkipWs, NumberEnds, Blank;
    var mark := if bom then BOM else [];
    var text := Written(d);
    var c := mark + (before + text + tail);
    FirstByte(lib, d, 1000);
    Placed(mark, before, text, tail);
    WhiteAt(c, |mark|, before);
    StartsAt(c, |mark|, |mark| + |before|, text);
    TailIsBehind(c, |c| - |tail|, tail);
    DocIsParsed(lib, c, |mark| + |before|, d, 0);
    MarkFound(mark, before, text, tail);
    ParseTextFrom(lib, c, |mark|, Meaning(d), |c| - |tail|);
  }

  lemma ParseTextFrom(lib: Lib, c: bytes, start: nat, v: Json, next: nat)
    requires c != [] && start == (if |c| > 4 && At(c, 0, BOM) then 3 else 0)
    requires ParseValue(lib, c, SkipWs(c, start), 0) == Ok(v, next)
    ensures ParseText(lib, c, false) == Ok(v, next)
  {
    hide At, ParseValue, SkipWs;
  }

  lemma Placed(mark: bytes, before: bytes, text: bytes, tail: bytes)
    ensures
      var c := mark + (before + text + tail);
      At(c, |mark|, before) && At(c, |mark| + |before|, text) && At(c, |c| - |tail|, tail)
  {
    hide At;
    var c := mark + (before + text + tail);
    assert before + text + tail == before + (text + tail);
    PlacedAt(mark, before + (text + tail));
    AtConcat(c, |mark|, before, text + tail);
    AtConcat(c, |mark| + |before|, text, tail);
  }

  lemma PlacedAt(a: bytes, b: bytes)
    ensures At(a + b, |a|, b) && At(a + b, 0, a)
  {
  }

  lemma TailIsBehind(c: bytes, o: nat, tail: bytes)
    requires At(c, o, tail) && o + |tail| == |c| && NumberEnds(tail, 0)
    ensures NumberEnds(c, o)
  {
  }

  lemma MarkFound(mark: bytes, before: bytes, text: bytes, tail: bytes)
    requires mark == [] || mark == BOM
    requires White(before) && text != [] && text[0] < 128
    ensures At(mark + (before + text + tail), 0, BOM) <==> mark == BOM
  {
    var c := mark + (before + text + tail);
    if mark == [] {
      assert c[0] == (before + text)[0];
      assert c[0] < 128;
      if At(c, 0, BOM) {
        FirstOfAt(c, 0, BOM);
      }
    } else {
      PlacedAt(mark, before + text + tail);
    }
  }

  /** A required terminator is found behind blanks at the very end of the buffer, and nowhere else. */
  lemma TerminatedIff(lib: Lib, c: bytes)
    ensures
      var r := ParseText(lib, c, false);
      ParseText(lib, c, true).Ok? <==>
        r.Ok? && r.next < |c| && c[|c| - 1] == 0 && Low(c[r.next..])
    ensures ParseText(lib, c, true).Ok? ==>
              ParseText(lib, c, true) == Ok(ParseText(lib, c, false).value, |c| - 1)
  {
    hide ParseValue, At;
    var r := ParseText(lib, c, false);
    if r.Ok? && r.next < |c| {
      var b := SkipBlank(c, r.next);
      assert b < |c| ==> c[b] > 32 && c[r.next..][b - r.next] == c[b];
      assert forall i | r.next <= i < b :: c[i] <= 32;
    }
  }

  /** What is accepted: a byte order mark or none, blanks, and one value as above, no deeper than a thousand levels. */
  lemma TextAccepted(lib: Lib, c: bytes) returns (start: nat, before: bytes, d: Doc)
    requires ParseText(lib, c, false).Ok?
    ensures start == 0 || (start == 3 && |c| > 4 && c[..3] == [0xEF, 0xBB, 0xBF])
    ensures Low(before) && Loose(d, 1000) && Meaning(d) == ParseText(lib, c, false).value
    ensures start <= ParseText(lib, c, false).next <= |c| && c[start..ParseText(lib, c, false).next] == before + Written(d)
  {
    hide ParseValue, SkipWs, Low, Loose, Written, Meaning;
    start := if |c| > 4 && At(c, 0, BOM) then 3 else 0;
    var o := SkipWs(c, start);
    ValueStartsHigh(lib, c, o, 0);
    SkippedIsLow(c, start, o);
    before := c[start..o];
    d := DocAccepted(lib, c, o, 0);
    var next := ParseText(lib, c, false).next;
    assert c[start..next] == c[start..o] + c[o..next];
  }

  /** Where no value starts there is an error at this very place. */
  lemma NoValueStarts(lib: Lib, c: bytes, o: nat, level: nat)
    requires o < |c| && c[o] as char !in "nft\"-0123456789[{"
    ensures ParseValue(lib, c, o, level) == Err(o)
  {
    Starts(c[o]);
    NoWord(c, o);
  }

  lemma Starts(b: byte)
    ensures b == 110 || b == 102 || b == 116 || b == QUOTE || b == 45 || 48 <= b <= 57 || b == OPEN_ARRAY || b == OPEN_OBJECT
            ==> b as char in "nft\"-0123456789[{"
  {
    var starts := "nft\"-0123456789[{";
    assert starts[0] == 110 as char && starts[1] == 102 as char && starts[2] == 116 as char && starts[3] == QUOTE as char;
    assert starts[4] == 45 as char && forall k | 5 <= k < 15 :: starts[k] == (43 + k) as char;
    assert starts[15] == OPEN_ARRAY as char && starts[16] == OPEN_OBJECT as char;
    if 48 <= b <= 57 {
      assert starts[b - 43] == b as char;
    }
  }

  lemma NoWord(c: bytes, o: nat)
    requires o < |c| && c[o] != 110 && c[o] != 102 && c[o] != 116
    ensures !At(c, o, NULL_TEXT) && !At(c, o, FALSE_TEXT) && !At(c, o, TRUE_TEXT)
  {
    NotNull(c, o);
    NotFalse(c, o);
    if At(c, o, TRUE_TEXT) {
      FirstOfAt(c, o, TRUE_TEXT);
    }
  }

  /** The position reported is where the parser stopped, or the last byte if that is behind the text. */
  lemma ErrorReported(lib: Lib, c: bytes, start: nat, at: nat)
    requires c != [] && start == (if |c| > 4 && c[..3] == [0xEF, 0xBB, 0xBF] then 3 else 0)
    requires ParseValue(lib, c, SkipWs(c, start), 0) == Err(at)
    ensures ParseText(lib, c, false) == ParseText(lib, c, true) == Err(if at < |c| then at else |c| - 1)
  {
    hide ParseValue, SkipWs;
  }
}
