/** Printing a tree and parsing the text gives the tree back, and re-printing what was parsed is stable. */
module CJsonRoundTrip {
  import opened Bytes
  import opened CJsonString
  import opened CJsonText
  import opened CJsonGrammar
  import opened CJsonStandard
  import CJsonTree
  import CJsonNodes
  import CJsonShapes
  import CJsonLinking
  import CJsonBuilt
  import CJsonParser
  import CJsonPrinter

  /** The C library reads the printed form of `d` back in full, and that form is one the parser takes for a number. */
  predicate ReadsBack(lib: Lib, d: real) {
    var text := NumberText(lib, d);
    && 1 <= |text| <= NUMBER_ROOM
    && (text[0] == 45 || 48 <= text[0] <= 57)
    && (forall i | 0 <= i < |text| :: NumberByte(text[i]))
    && lib.strtod(text) == (d, |text|)
  }

  /** What C promises of `strtod` for decimal integers in the range of an int. */
  ghost predicate ReadsIntegers(lib: Lib) {
    forall s: bytes | IntegerText(s) && INT_MIN <= IntegerValue(s) <= INT_MAX ::
      lib.strtod(s) == (IntegerValue(s) as real, |s|)
  }

  /** Every int-range integer reads back, whatever the library does with other numbers. */
  lemma IntegersReadBack(lib: Lib, n: int)
    requires INT_MIN <= n <= INT_MAX && ReadsIntegers(lib)
    ensures ReadsBack(lib, n as real)
  {
    assert ValueInt(n as real) == n by {
      assert (-(n as real)) == (-n) as real;
    }
    DecimalLength(n);
    DecimalIsRead(n);
    assert NumberText(lib, n as real) == Decimal(n);
  }

  /** An integer prints as the decimal text that denotes it, without leading zeros. */
  lemma IntegersPrinted(lib: Lib, n: int, format: bool, depth: nat)
    requires INT_MIN <= n <= INT_MAX
    ensures
      var text := Print(lib, Number(n as real), format, depth);
      IntegerText(text) && IntegerValue(text) == n
  {
    assert ValueInt(n as real) == n by {
      assert (-(n as real)) == (-n) as real;
    }
    DecimalIsRead(n);
  }

  /** Trees the round trip holds for: C strings, numbers that read back, no raw text, at most `room` levels deep. */
  predicate Printable(lib: Lib, t: Json, room: nat)
    decreases t, 1
  {
    match t
    case Number(d) => ReadsBack(lib, d)
    case String(text) => NulFree(text)
    case Raw(_) => false
    case Array(items) => room > 0 && forall i | 0 <= i < |items| :: Printable(lib, items[i], room - 1)
    case Object(members) =>
      room > 0 && forall i | 0 <= i < |members| ::
        NulFree(members[i].key) && Printable(lib, members[i].value, room - 1)
    case _ => true
  }

  // ---------- the printed text is one of the standard's ----------

  /** How the printer lays a value out. Raw text is not looked into. */
  function Layout(lib: Lib, t: Json, format: bool, depth: nat): Doc
    decreases t, 1
  {
    match t
    case Null => NullDoc
    case False => FalseDoc
    case True => TrueDoc
    case Number(d) => NumberDoc(NumberText(lib, d), d)
    case String(text) => StringDoc(Quoted(text), text)
    case Raw(text) => NumberDoc(text, 0.0)
    case Array(items) => ArrayDoc([], LayoutItems(lib, items, format, depth + 1, true))
    case Object(members) => ObjectDoc(NewLine(format, depth), LayoutPairs(lib, members, format, depth + 1))
  }

  /** Elements stay on one line, with a space behind each comma if formatted. */
  function LayoutItems(lib: Lib, items: seq<Json>, format: bool, depth: nat, first: bool): (r: seq<Item>)
    ensures |r| == |items|
    decreases items, 0
  {
    if items == [] then []
    else
      [Item(if first || !format then [] else Ascii(" "), Layout(lib, items[0], format, depth), [])] +
      LayoutItems(lib, items[1..], format, depth, false)
  }

  /** Members have a line each, indented, with a tab behind the colon, if formatted. */
  function LayoutPairs(lib: Lib, members: seq<Member>, format: bool, depth: nat): (r: seq<Pair>)
    requires depth > 0
    ensures |r| == |members|
    decreases members, 0
  {
    if members == [] then []
    else
      var m := members[0];
      [Pair(NewLine(format, depth), Quoted(m.key), m.key, [], if format then Ascii("\t") else [],
            Layout(lib, m.value, format, depth), if |members| == 1 then NewLine(format, depth - 1) else [])] +
      LayoutPairs(lib, members[1..], format, depth)
  }

  function NewLine(format: bool, depth: nat): bytes {
    if format then Ascii("\n") + seq(depth, i => '\t' as byte) else []
  }

  lemma NewLineIsWhite(format: bool, depth: nat)
    ensures White(NewLine(format, depth)) && White([]) && White(Ascii(" ")) && White(Ascii("\t"))
    ensures NewLine(format, depth) == if format then [NEWLINE] + Tabs(depth) else []
  {
    assert Ascii("\n") == [NEWLINE];
    assert Ascii(" ")[0] as char == " \t\n\r"[0];
    assert Ascii("\t")[0] as char == " \t\n\r"[1];
    assert NEWLINE as char == " \t\n\r"[2];
  }

  /** The text of the layout is the text that is printed. */
  lemma {:induction false} LayoutIsPrinted(lib: Lib, t: Json, format: bool, depth: nat)
    ensures Written(Layout(lib, t, format, depth)) == Print(lib, t, format, depth)
    decreases t, 1
  {
    hide Written, Layout, Print;
    match t
    case Array(items) =>
      ArrayIsPrinted(lib, items, format, depth);
    case Object(members) =>
      ObjectIsPrinted(lib, members, format, depth);
    case _ => LeafIsPrinted(lib, t, format, depth);
  }

  lemma LayoutBrackets(lib: Lib, items: seq<Json>, members: seq<Member>, format: bool, depth: nat)
    ensures Layout(lib, Array(items), format, depth) == ArrayDoc([], LayoutItems(lib, items, format, depth + 1, true))
    ensures Layout(lib, Object(members), format, depth) ==
            ObjectDoc(NewLine(format, depth), LayoutPairs(lib, members, format, depth + 1))
  {
    hide LayoutItems, LayoutPairs, NewLine;
  }

  lemma {:induction false} ArrayIsPrinted(lib: Lib, items: seq<Json>, format: bool, depth: nat)
    ensures Written(Layout(lib, Array(items), format, depth)) == Print(lib, Array(items), format, depth)
    decreases items, 1
  {
    hide *;
    var all, body := LayoutItems(lib, items, format, depth + 1, true), PrintItems(lib, items, format, depth + 1);
    LayoutBrackets(lib, items, [], format, depth);
    PrintArray(lib, items, format, depth);
    if items == [] {
      NothingPrinted(lib, format, depth + 1);
      Brackets([], [], []);
    } else {
      ItemsArePrinted(lib, items, format, depth + 1, true);
      NothingInFront(body);
      Brackets([], all, []);
      assert WrittenItems(all) == body;
    }
  }

  lemma NothingInFront(text: bytes)
    ensures [] + text == text
  {
  }

  lemma {:induction false} ObjectIsPrinted(lib: Lib, members: seq<Member>, format: bool, depth: nat)
    ensures Written(Layout(lib, Object(members), format, depth)) == Print(lib, Object(members), format, depth)
    decreases members, 1
  {
    hide *;
    var pairs, body := LayoutPairs(lib, members, format, depth + 1), PrintMembers(lib, members, format, depth + 1);
    LayoutBrackets(lib, [], members, format, depth);
    Brackets(NewLine(format, depth), [], pairs);
    PrintObject(lib, members, format, depth);
    FullObject(format, depth, body);
    if members == [] {
      NothingPrinted(lib, format, depth + 1);
      NewLineIs(format, depth);
    } else {
      PairsArePrinted(lib, members, format, depth + 1);
    }
  }

  lemma NewLineIs(format: bool, depth: nat)
    ensures NewLine(format, depth) == (if format then [NEWLINE] else []) + [] + (if format then Tabs(depth) else [])
  {
    NewLineIsWhite(format, depth);
  }

  lemma LeafIsPrinted(lib: Lib, t: Json, format: bool, depth: nat)
    requires !t.Array? && !t.Object?
    ensures Written(Layout(lib, t, format, depth)) == Print(lib, t, format, depth)
  {
    hide NumberText, Quoted;
    Words();
  }

  lemma NothingPrinted(lib: Lib, format: bool, depth: nat)
    requires depth > 0
    ensures PrintItems(lib, [], format, depth) == [] && PrintMembers(lib, [], format, depth) == []
    ensures LayoutItems(lib, [], format, depth, true) == [] && LayoutPairs(lib, [], format, depth) == []
  {
  }

  lemma FullObject(format: bool, depth: nat, body: bytes)
    ensures
      var line := if format then [NEWLINE] else [];
      var tabs := if format then Tabs(depth) else [];
      ObjectHead(format) + body + ObjectTail(format, depth) == [OPEN_OBJECT] + (line + body + tabs) + [CLOSE_OBJECT]
  {
    hide Tabs;
  }

  lemma {:induction false} ItemsArePrinted(lib: Lib, items: seq<Json>, format: bool, depth: nat, first: bool)
    requires items != []
    ensures
      WrittenItems(LayoutItems(lib, items, format, depth, first)) ==
      (if first || !format then [] else [SPACE]) + PrintItems(lib, items, format, depth)
    decreases items, 0
  {
    hide Written, WrittenItems, Layout, Print, PrintItems, Ascii;
    var all, rest := LayoutItems(lib, items, format, depth, first), LayoutItems(lib, items[1..], format, depth, false);
    SpaceIs();
    FirstItem(all);
    LayoutIsPrinted(lib, items[0], format, depth);
    assert all[1..] == rest;
    var lead, text := if first || !format then [] else [SPACE], Print(lib, items[0], format, depth);
    if |items| == 1 {
      assert items == [items[0]];
      OneItem(lib, items[0], format, depth);
      assert lead + text + [] + [] == lead + text;
    } else {
      PrintMoreItems(lib, items, format, depth);
      ItemsArePrinted(lib, items[1..], format, depth, false);
      JoinItems(lead, text, format, PrintItems(lib, items[1..], format, depth));
    }
  }

  lemma SpaceIs()
    ensures Ascii(" ") == [SPACE]
  {
  }

  lemma JoinItems(lead: bytes, text: bytes, format: bool, more: bytes)
    ensures lead + text + [] + ([COMMA] + ((if format then [SPACE] else []) + more)) ==
            lead + (text + Separator(format) + more)
  {
  }

  lemma OneItem(lib: Lib, item: Json, format: bool, depth: nat)
    ensures PrintItems(lib, [item], format, depth) == Print(lib, item, format, depth)
  {
  }

  lemma {:induction false} PairsArePrinted(lib: Lib, members: seq<Member>, format: bool, depth: nat)
    requires members != [] && depth > 0
    ensures
      var line := if format then [NEWLINE] else [];
      var tabs := if format then Tabs(depth - 1) else [];
      WrittenPairs(LayoutPairs(lib, members, format, depth)) == line + PrintMembers(lib, members, format, depth) + tabs
    decreases members, 0
  {
    hide Written, WrittenPairs, WrittenName, Layout, Print, PrintMembers, NewLine, MemberHead, Tabs, Quoted, Ascii;
    var all, rest := LayoutPairs(lib, members, format, depth), LayoutPairs(lib, members[1..], format, depth);
    var line := if format then [NEWLINE] else [];
    FirstPair(all);
    NameIsPrinted(lib, members, format, depth);
    LayoutIsPrinted(lib, members[0].value, format, depth);
    PrintMoreMembers(lib, members, format, depth);
    assert all[1..] == rest;
    NewLineIsWhite(format, depth - 1);
    if |members| == 1 {
      assert members[1..] == [];
      NothingPrinted(lib, format, depth);
    } else {
      PairsArePrinted(lib, members[1..], format, depth);
    }
    var head, text := MemberHead(members[0].key, format, depth), Print(lib, members[0].value, format, depth);
    JoinLines(line, head, text, |members| == 1, format, PrintMembers(lib, members[1..], format, depth),
              if format then Tabs(depth - 1) else []);
  }

  lemma JoinLines(line: bytes, head: bytes, text: bytes, last: bool, format: bool, more: bytes, tabs: bytes)
    requires line == (if format then [NEWLINE] else []) && (last ==> more == [])
    ensures
      (line + head) + text + (if last then line + tabs else []) + (if last then [] else [COMMA] + (line + more + tabs)) ==
      line + (head + text + MemberEnd(last, format) + more) + tabs
  {
  }

  lemma NameIsPrinted(lib: Lib, members: seq<Member>, format: bool, depth: nat)
    requires members != [] && depth > 0
    ensures
      WrittenName(LayoutPairs(lib, members, format, depth)[0]) ==
      (if format then [NEWLINE] else []) + MemberHead(members[0].key, format, depth)
  {
    hide Layout, NewLine, Quoted, Tabs, MemberHead;
    NewLineIsWhite(format, depth);
    assert Ascii("\t") == [TAB];
    HeadText(members[0].key, format, depth);
  }

  lemma HeadText(key: bytes, format: bool, depth: nat)
    ensures
      (if format then [NEWLINE] else []) + MemberHead(key, format, depth) ==
      (if format then [NEWLINE] + Tabs(depth) else []) + Quoted(key) + [] + [COLON] + if format then [TAB] else []
  {
    hide Quoted, Tabs;
    if !format {
      assert [] + Quoted(key) + [COLON] == [] + Quoted(key) + [] + [COLON] + [];
    }
  }

  /** The layout means the value, and conforms to the standard wherever the numbers read back. */
  lemma {:induction false} LayoutIsStandard(lib: Lib, t: Json, format: bool, depth: nat, room: nat)
    requires Printable(lib, t, room)
    ensures Standard(lib, Layout(lib, t, format, depth), room) && Meaning(Layout(lib, t, format, depth)) == t
    decreases t, 1
  {
    hide Standard, Meaning, LayoutItems, LayoutPairs, NewLine, ReadsBack;
    match t
    case Number(d) => NumberIsStandard(lib, d, room);
    case String(text) => QuotedIsStandard(lib, text, room);
    case Array(items) => ArrayIsStandard(lib, items, format, depth, room);
    case Object(members) => ObjectIsStandard(lib, members, format, depth, room);
    case _ => WordsAreStandard(lib, room);
  }

  lemma {:induction false} ArrayIsStandard(lib: Lib, items: seq<Json>, format: bool, depth: nat, room: nat)
    requires room > 0 && forall i | 0 <= i < |items| :: Printable(lib, items[i], room - 1)
    ensures
      var d := Layout(lib, Array(items), format, depth);
      Standard(lib, d, room) && Meaning(d) == Array(items)
    decreases items, 1
  {
    hide *;
    var all := LayoutItems(lib, items, format, depth + 1, true);
    LayoutBrackets(lib, items, [], format, depth);
    NewLineIsWhite(format, depth);
    ItemsAreStandard(lib, items, format, depth + 1, true, room - 1);
    Brackets([], all, []);
    StandardBrackets(lib, [], all, [], room);
  }

  lemma {:induction false} ObjectIsStandard(lib: Lib, members: seq<Member>, format: bool, depth: nat, room: nat)
    requires room > 0
    requires forall i | 0 <= i < |members| :: NulFree(members[i].key) && Printable(lib, members[i].value, room - 1)
    ensures
      var d := Layout(lib, Object(members), format, depth);
      Standard(lib, d, room) && Meaning(d) == Object(members)
    decreases members, 1
  {
    hide *;
    var all := LayoutPairs(lib, members, format, depth + 1);
    LayoutBrackets(lib, [], members, format, depth);
    NewLineIsWhite(format, depth);
    PairsAreStandard(lib, members, format, depth + 1, room - 1);
    Brackets(NewLine(format, depth), [], all);
    StandardBrackets(lib, NewLine(format, depth), [], all, room);
  }

  lemma WordsAreStandard(lib: Lib, room: nat)
    ensures Standard(lib, NullDoc, room) && Standard(lib, FalseDoc, room) && Standard(lib, TrueDoc, room)
    ensures Meaning(NullDoc) == Null && Meaning(FalseDoc) == False && Meaning(TrueDoc) == True
  {
  }

  lemma NumberIsStandard(lib: Lib, d: real, room: nat)
    requires ReadsBack(lib, d)
    ensures Standard(lib, NumberDoc(NumberText(lib, d), d), room) && Meaning(NumberDoc(NumberText(lib, d), d)) == Number(d)
  {
    hide NumberText, NumberLike, NumberByte;
    BytesAreNumberLike(NumberText(lib, d));
  }

  lemma QuotedIsStandard(lib: Lib, text: bytes, room: nat)
    requires NulFree(text)
    ensures Standard(lib, StringDoc(Quoted(text), text), room) && Meaning(StringDoc(Quoted(text), text)) == String(text)
  {
    hide Quoted, LiteralOf;
    QuotedIsLiteral(text);
  }

  lemma StandardBrackets(lib: Lib, blank: bytes, items: seq<Item>, pairs: seq<Pair>, room: nat)
    requires room > 0 && White(blank)
    requires forall i | 0 <= i < |items| ::
               White(items[i].before) && White(items[i].after) && Standard(lib, items[i].doc, room - 1)
    requires forall i | 0 <= i < |pairs| :: PairStandard(pairs[i]) && Standard(lib, pairs[i].doc, room - 1)
    ensures Standard(lib, ArrayDoc(blank, items), room) && Standard(lib, ObjectDoc(blank, pairs), room)
  {
    hide White, PairStandard;
  }

  lemma QuotedIsLiteral(text: bytes)
    requires NulFree(text)
    ensures LiteralOf(Quoted(text), text)
  {
    hide WrittenChars, DenotedChars, CharsOf, Escape, CharsOk;
    EscapedIsStandard(text);
    assert WrittenString(CharsOf(text)) == Quoted(text);
  }

  lemma {:induction false} ItemsAreStandard(lib: Lib, items: seq<Json>, format: bool, depth: nat, first: bool, room: nat)
    requires forall i | 0 <= i < |items| :: Printable(lib, items[i], room)
    ensures
      var r := LayoutItems(lib, items, format, depth, first);
      && ItemValues(r) == items
      && forall i | 0 <= i < |r| :: White(r[i].before) && White(r[i].after) && Standard(lib, r[i].doc, room)
    decreases items, 0
  {
    hide Layout, Standard, Printable, White, Meaning, Ascii, ItemValues;
    NoValues();
    if items != [] {
      var all, rest := LayoutItems(lib, items, format, depth, first), LayoutItems(lib, items[1..], format, depth, false);
      NewLineIsWhite(format, depth);
      LayoutIsStandard(lib, items[0], format, depth, room);
      ItemsAreStandard(lib, items[1..], format, depth, false, room);
      FirstItemValue(all);
      assert all[1..] == rest;
      assert items == [items[0]] + items[1..];
    }
  }

  lemma {:induction false} PairsAreStandard(lib: Lib, members: seq<Member>, format: bool, depth: nat, room: nat)
    requires depth > 0
    requires forall i | 0 <= i < |members| :: NulFree(members[i].key) && Printable(lib, members[i].value, room)
    ensures
      var r := LayoutPairs(lib, members, format, depth);
      && PairValues(r) == members
      && forall i | 0 <= i < |r| :: PairStandard(r[i]) && Standard(lib, r[i].doc, room)
    decreases members, 0
  {
    hide Layout, Standard, Printable, White, Meaning, Ascii, PairValues, NewLine, Quoted, NulFree, LiteralOf;
    NoValues();
    if members != [] {
      var all, rest := LayoutPairs(lib, members, format, depth), LayoutPairs(lib, members[1..], format, depth);
      NewLineIsWhite(format, depth);
      NewLineIsWhite(format, depth - 1);
      QuotedIsLiteral(members[0].key);
      LayoutIsStandard(lib, members[0].value, format, depth, room);
      PairsAreStandard(lib, members[1..], format, depth, room);
      FirstPairValue(all);
      assert all[1..] == rest;
      assert members == [members[0]] + members[1..];
      assert PairStandard(all[0]);
    }
  }

  /** Every printable value prints as a text of the standard that means this value. */
  lemma PrintedIsStandard(lib: Lib, t: Json, format: bool, depth: nat, room: nat) returns (d: Doc)
    requires Printable(lib, t, room)
    ensures Standard(lib, d, room) && Meaning(d) == t && Written(d) == Print(lib, t, format, depth)
  {
    hide *;
    d := Layout(lib, t, format, depth);
    LayoutIsStandard(lib, t, format, depth, room);
    LayoutIsPrinted(lib, t, format, depth);
  }

  /** Wherever the text of a printable value stands, parsing there gives the value and consumes exactly the text. */
  lemma RoundTripValue(lib: Lib, c: bytes, o: nat, t: Json, format: bool, depth: nat, level: nat)
    requires level <= NESTING_LIMIT && Printable(lib, t, NESTING_LIMIT - level)
    requires At(c, o, Print(lib, t, format, depth))
    requires NumberEnds(c, o + |Print(lib, t, format, depth)|)
    ensures ParseValue(lib, c, o, level) == Ok(t, o + |Print(lib, t, format, depth)|)
  {
    hide *;
    var d := PrintedIsStandard(lib, t, format, depth, NESTING_LIMIT - level);
    DocIsParsed(lib, c, o, d, level);
  }

  // ---------- main theorems ----------

  /** Printing is undone by parsing: formatted or not, with or without a terminating zero byte, the parser returns the
      very tree and stops exactly behind the text. */
  lemma PrintParse(lib: Lib, t: Json, format: bool, nulTerminated: bool)
    requires Printable(lib, t, NESTING_LIMIT)
    ensures
      var text := Print(lib, t, format, 0);
      && ParseText(lib, text + [0], nulTerminated) == Ok(t, |text|)
      && ParseText(lib, text, false) == Ok(t, |text|)
  {
    hide Print, ParseText, Printable, Written, Meaning, Standard;
    var d := PrintedIsStandard(lib, t, format, 0, NESTING_LIMIT);
    var text := Print(lib, t, format, 0);
    TextIsParsed(lib, false, [], d, [0]);
    TextIsParsed(lib, false, [], d, []);
    assert [] + ([] + text + [0]) == text + [0] && [] + ([] + text + []) == text;
    TerminatedIff(lib, text + [0]);
    assert (text + [0])[|text|..] == [0];
  }

  /** Trees of null, booleans, int-range integers, strings without zero bytes, arrays and objects whose keys have none
      either, at most `room` levels deep. */
  predicate IntegerTree(t: Json, room: nat)
    decreases t, 1
  {
    match t
    case Number(d) => INT_MIN as real <= d <= INT_MAX as real && d == d.Floor as real
    case String(text) => NulFree(text)
    case Raw(_) => false
    case Array(items) => room > 0 && forall i | 0 <= i < |items| :: IntegerTree(items[i], room - 1)
    case Object(members) =>
      room > 0 && forall i | 0 <= i < |members| :: NulFree(members[i].key) && IntegerTree(members[i].value, room - 1)
    case _ => true
  }

  lemma {:induction false} IntegerTreesPrintable(lib: Lib, t: Json, room: nat)
    requires ReadsIntegers(lib) && IntegerTree(t, room)
    ensures Printable(lib, t, room)
    decreases t
  {
    hide ReadsIntegers, ReadsBack;
    match t
    case Number(d) =>
      IntegersReadBack(lib, d.Floor);
    case Array(items) =>
      forall i | 0 <= i < |items| ensures Printable(lib, items[i], room - 1) {
        IntegerTreesPrintable(lib, items[i], room - 1);
      }
    case Object(members) =>
      forall i | 0 <= i < |members| ensures Printable(lib, members[i].value, room - 1) {
        IntegerTreesPrintable(lib, members[i].value, room - 1);
      }
    case _ =>
  }

  /** For integers nothing is asked of the C library but to read back what "%d" writes. */
  lemma PrintParseIntegers(lib: Lib, t: Json, format: bool, nulTerminated: bool)
    requires ReadsIntegers(lib) && IntegerTree(t, NESTING_LIMIT)
    ensures
      var text := Print(lib, t, format, 0);
      && ParseText(lib, text + [0], nulTerminated) == Ok(t, |text|)
      && ParseText(lib, text, false) == Ok(t, |text|)
  {
    hide *;
    IntegerTreesPrintable(lib, t, NESTING_LIMIT);
    PrintParse(lib, t, format, nulTerminated);
  }

  // ---------- parsing first ----------

  /** Every number of the tree reads back. */
  predicate NumbersReadBack(lib: Lib, t: Json)
    decreases t, 1
  {
    match t
    case Number(d) => ReadsBack(lib, d)
    case Array(items) => forall i | 0 <= i < |items| :: NumbersReadBack(lib, items[i])
    case Object(members) => forall i | 0 <= i < |members| :: NumbersReadBack(lib, members[i].value)
    case _ => true
  }

  lemma {:induction false} LooseIsPrintable(lib: Lib, d: Doc, room: nat)
    requires Loose(d, room) && NumbersReadBack(lib, Meaning(d))
    ensures Printable(lib, Meaning(d), room)
    decreases d
  {
    hide ReadsBack, Low, NumberLike, NulFree;
    match d
    case ArrayDoc(_, items) =>
      var values := ItemValues(items);
      forall i | 0 <= i < |items| ensures Printable(lib, values[i], room - 1) {
        assert values[i] == Meaning(items[i].doc);
        LooseIsPrintable(lib, items[i].doc, room - 1);
      }
    case ObjectDoc(_, pairs) =>
      var values := PairValues(pairs);
      forall i | 0 <= i < |pairs| ensures NulFree(values[i].key) && Printable(lib, values[i].value, room - 1) {
        assert values[i] == Member(pairs[i].name, Meaning(pairs[i].doc));
        assert LoosePair(pairs[i]);
        LooseIsPrintable(lib, pairs[i].doc, room - 1);
      }
    case _ =>
  }

  /** Whatever the parser builds is a tree of C strings no deeper than the nesting limit. */
  lemma ParsedIsPrintable(lib: Lib, c: bytes, o: nat, level: nat)
    requires level <= NESTING_LIMIT && ParseValue(lib, c, o, level).Ok?
    requires NumbersReadBack(lib, ParseValue(lib, c, o, level).value)
    ensures Printable(lib, ParseValue(lib, c, o, level).value, NESTING_LIMIT - level)
  {
    hide *;
    var d := DocAccepted(lib, c, o, level);
    LooseIsPrintable(lib, d, NESTING_LIMIT - level);
  }

  lemma ParsedTextIsPrintable(lib: Lib, c: bytes)
    requires ParseText(lib, c, false).Ok? && NumbersReadBack(lib, ParseText(lib, c, false).value)
    ensures Printable(lib, ParseText(lib, c, false).value, NESTING_LIMIT) && CStrings(ParseText(lib, c, false).value)
  {
    hide ParseValue, Printable, NumbersReadBack, SkipWs, At, CStrings;
    var start := if |c| > 4 && At(c, 0, BOM) then 3 else 0;
    ParsedIsPrintable(lib, c, SkipWs(c, start), 0);
    PrintableAreCStrings(lib, ParseText(lib, c, false).value, NESTING_LIMIT);
  }

  /** For every text the parser accepts, whatever its layout, escapes and trailing garbage: printing the tree, in either
      format, and parsing that text gives the same tree again. */
  lemma ParsePrintParse(lib: Lib, c: bytes, format: bool)
    requires ParseText(lib, c, false).Ok? && NumbersReadBack(lib, ParseText(lib, c, false).value)
    ensures
      var t := ParseText(lib, c, false).value;
      ParseText(lib, Print(lib, t, format, 0) + [0], true) == Ok(t, |Print(lib, t, format, 0)|)
  {
    hide ParseText, Printable, NumbersReadBack, Print;
    ParsedTextIsPrintable(lib, c);
    PrintParse(lib, ParseText(lib, c, false).value, format, true);
  }

  lemma {:induction false} PrintableAreCStrings(lib: Lib, t: Json, room: nat)
    requires Printable(lib, t, room)
    ensures CStrings(t)
    decreases t
  {
    match t
    case Array(items) =>
      forall i | 0 <= i < |items| ensures CStrings(items[i]) {
        PrintableAreCStrings(lib, items[i], room - 1);
      }
    case Object(members) =>
      forall i | 0 <= i < |members| ensures CStrings(members[i].value) {
        PrintableAreCStrings(lib, members[i].value, room - 1);
      }
    case _ =>
  }

  /** The printer and the parser, one after the other: whatever nodes are printed, the text in the grown buffer,
      terminator included, parses to new nodes that hold the value of the old ones. */
  method PrintThenParse(lib: Lib, source: CJsonNodes.Node, format: bool, allocations: nat, ghost sh: CJsonShapes.Shape,
    ghost t: CJsonTree.Tree, ghost space: set<CJsonNodes.Node>)
    returns (item: CJsonNodes.Node?, parseEnd: nat, ghost kids: seq<CJsonShapes.Shape>,
             ghost nodes: set<CJsonNodes.Node>)
    requires CJsonPrinter.Holds(source, sh, t, space) && CJsonBuilt.Renders(t)
    requires Printable(lib, CJsonBuilt.ValueOf(lib, t), NESTING_LIMIT)
    requires |Print(lib, CJsonBuilt.ValueOf(lib, t), format, 0)| + 2 <= INT_MAX
    ensures
      var v := CJsonBuilt.ValueOf(lib, t);
      && (item != null <==> allocations >= CJsonLinking.Cost(CJsonBuilt.TreeOf(v, None)))
      && (item != null ==>
            && parseEnd == |Print(lib, v, format, 0)| && CJsonShapes.Owned(CJsonShapes.Shape(item, kids))
            && CJsonShapes.Content(CJsonShapes.Shape(item, kids)) == CJsonBuilt.TreeOf(v, None)
            && CJsonShapes.Nodes(CJsonShapes.Shape(item, kids)) == nodes && fresh(nodes))
  {
    hide Print, Printable, ParseText, CStrings, CJsonLinking.Cost, CJsonBuilt.TreeOf, CJsonBuilt.ValueOf;
    hide CJsonBuilt.Renders, CJsonPrinter.Holds, CJsonShapes.Owned, CJsonShapes.Content, CJsonShapes.Nodes;
    PrintParse(lib, CJsonBuilt.ValueOf(lib, t), format, true);
    var always := (n: nat) => true;
    var printed := CJsonPrinter.PrintTree(lib, source, format, always, sh, t, space);
    ghost var starved;
    item, parseEnd, kids, nodes, starved := CJsonParser.ParseWithLengthOpts(lib, printed[..], true, allocations);
  }

  /** What the parser builds can be given to the printer. */
  lemma ParsedHolds(lib: Lib, v: Json, item: CJsonNodes.Node, kids: seq<CJsonShapes.Shape>)
    requires CStrings(v) && CJsonShapes.Owned(CJsonShapes.Shape(item, kids))
    requires CJsonShapes.Content(CJsonShapes.Shape(item, kids)) == CJsonBuilt.TreeOf(v, None)
    ensures
      var sh := CJsonShapes.Shape(item, kids);
      CJsonPrinter.Holds(item, sh, CJsonBuilt.TreeOf(v, None), CJsonShapes.Nodes(sh))
    ensures CJsonBuilt.Renders(CJsonBuilt.TreeOf(v, None)) && CJsonBuilt.ValueOf(lib, CJsonBuilt.TreeOf(v, None)) == v
  {
    hide CStrings, CJsonBuilt.TreeOf, CJsonBuilt.Renders, CJsonBuilt.ValueOf, CJsonBuilt.CTypes;
    hide CJsonShapes.Owned, CJsonShapes.Unfolds, CJsonShapes.Content, CJsonShapes.Nodes;
    CJsonShapes.OwnedUnfolds(CJsonShapes.Shape(item, kids));
    CJsonBuilt.ValueOfTree(lib, v, None);
    CJsonBuilt.TreeOfCTypes(v, None);
  }

  /** The parser, the printer and the parser again: nodes built from any accepted text, printed in either format and
      read back, hold the same as before, field by field. */
  method ParseThenPrintThenParse(lib: Lib, value: bytes, format: bool, allocations: nat, later: nat)
    returns (item: CJsonNodes.Node?, again: CJsonNodes.Node?, ghost kids: seq<CJsonShapes.Shape>,
             ghost kidsAgain: seq<CJsonShapes.Shape>)
    requires ParseText(lib, value, false).Ok? ==>
               && NumbersReadBack(lib, ParseText(lib, value, false).value)
               && |Print(lib, ParseText(lib, value, false).value, format, 0)| + 2 <= INT_MAX
    ensures
      var r := ParseText(lib, value, false);
      item != null <==> r.Ok? && allocations >= CJsonLinking.Cost(CJsonBuilt.TreeOf(r.value, None))
    ensures item != null ==>
      var v := ParseText(lib, value, false).value;
      && CJsonShapes.Owned(CJsonShapes.Shape(item, kids))
      && CJsonShapes.Content(CJsonShapes.Shape(item, kids)) == CJsonBuilt.TreeOf(v, None)
      && (again != null <==> later >= CJsonLinking.Cost(CJsonBuilt.TreeOf(v, None)))
    ensures item != null && again != null ==>
      var first, second := CJsonShapes.Shape(item, kids), CJsonShapes.Shape(again, kidsAgain);
      && CJsonShapes.Owned(second) && CJsonShapes.Content(second) == CJsonShapes.Content(first)
      && CJsonShapes.Nodes(first) !! CJsonShapes.Nodes(second)
  {
    hide Print, Printable, ParseText, ParseValue, CStrings, NumbersReadBack, CJsonLinking.Cost, CJsonBuilt.TreeOf;
    hide CJsonBuilt.ValueOf, CJsonBuilt.Renders, CJsonPrinter.Holds;
    hide CJsonShapes.Owned, CJsonShapes.Content, CJsonShapes.Nodes, CJsonShapes.NodesOf;
    ghost var nodes, nodesAgain, starved;
    var end, endAgain;
    again, kidsAgain := null, [];
    item, end, kids, nodes, starved := CJsonParser.ParseWithLengthOpts(lib, value, false, allocations);
    if item == null {
      return;
    }
    ghost var v := ParseText(lib, value, false).value;
    ParsedTextIsPrintable(lib, value);
    ParsedHolds(lib, v, item, kids);
    ghost var sh := CJsonShapes.Shape(item, kids);
    CJsonShapes.BelowIsInside(sh);
    again, endAgain, kidsAgain, nodesAgain :=
      PrintThenParse(lib, item, format, later, sh, CJsonBuilt.TreeOf(v, None), nodes);
  }
}
