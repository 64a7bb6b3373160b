/** JSON trees and the text cJSON prints for them (cJSON.c:545-612, 1024-1027, 1367-1438, 1539-1598, 1714-1825). */
module CJsonText {
  import opened Bytes
  import opened CJsonString

  // ---------- trees ----------

  /** A node's `valuedouble` is a real number here, NaN and the infinities left out; `valueint` follows from it. */
  datatype Json =
    | Null
    | False
    | True
    | Number(valuedouble: real)
    | String(text: bytes)
    | Raw(text: bytes)
    | Array(items: seq<Json>)
    | Object(members: seq<Member>)

  datatype Member = Member(key: bytes, value: Json)

  const INT_MAX: int := 0x7FFF_FFFF
  const INT_MIN: int := -0x8000_0000

  /** `(int) number` with saturation: truncation towards zero inside the range of a 32-bit int. */
  function ValueInt(number: real): (n: int)
    ensures INT_MIN <= n <= INT_MAX
  {
    if number >= INT_MAX as real then INT_MAX
    else if number <= INT_MIN as real then INT_MIN
    else if number >= 0.0 then number.Floor
    else -((-number).Floor)
  }

  /** It is the integer next to the number on the side of zero, as far as there is one in range. */
  lemma ValueIntTruncates(number: real)
    ensures
      var n, size := ValueInt(number) as real, if number < 0.0 then -number else number;
      if number >= 2147483647.0 then n == 2147483647.0
      else if number <= -2147483648.0 then n == -2147483648.0
      else if number >= 0.0 then n <= size < n + 1.0 && n >= 0.0
      else -n <= size < -n + 1.0 && n <= 0.0
  {
  }

  // ---------- the C library ----------

  /** `strtod` on the text of a number: the value and how many bytes it read. */
  type Strtod = f: bytes -> (real, nat) | forall s :: f(s).1 <= |s| witness ((s: bytes) => (0.0, 0))

  /** `sprintf` with "%1.15g", or "%1.17g" where fifteen digits do not read back: at most 25 bytes, none zero. */
  type FormatDouble = f: real -> bytes | forall d :: NulFree(f(d)) && |f(d)| <= 25 witness ((d: real) => [])

  datatype Lib = Lib(strtod: Strtod, formatDouble: FormatDouble)

  // ---------- decimal integers ----------

  function Digits(n: nat): (r: bytes)
    ensures |r| >= 1 && forall i | 0 <= i < |r| :: 48 <= r[i] <= 57
  {
    if n < 10 then [48 + n] else Digits(n / 10) + [48 + n % 10]
  }

  /** `sprintf` with "%d". */
  function Decimal(n: int): (r: bytes)
    ensures |r| >= 1 && NulFree(r)
  {
    if n < 0 then [45] + Digits(-n) else Digits(n)
  }

  // Decimal texts, read from the left.

  /** The number the digits denote, with `v` read already. */
  function DigitsValue(s: bytes, v: nat): nat
    requires forall i | 0 <= i < |s| :: '0' as byte <= s[i]
  {
    if s == [] then v else DigitsValue(s[1..], 10 * v + (s[0] - '0' as byte))
  }

  /** Digits, and no zero in front of others. */
  predicate Unsigned(s: bytes) {
    && s != [] && (forall i | 0 <= i < |s| :: '0' as byte <= s[i] <= '9' as byte)
    && (s[0] == '0' as byte ==> |s| == 1)
  }

  predicate IntegerText(s: bytes) {
    Unsigned(s) || (s != [] && s[0] == '-' as byte && Unsigned(s[1..]))
  }

  function IntegerValue(s: bytes): int
    requires IntegerText(s)
  {
    if s[0] == '-' as byte then 0 - DigitsValue(s[1..], 0) else DigitsValue(s, 0)
  }

  lemma {:induction false} DigitsValueAppend(s: bytes, d: byte, v: nat)
    requires forall i | 0 <= i < |s| :: '0' as byte <= s[i]
    requires '0' as byte <= d
    ensures DigitsValue(s + [d], v) == 10 * DigitsValue(s, v) + (d - '0' as byte)
    decreases s
  {
    if s == [] {
      assert [d][1..] == [] && [] + [d] == [d];
    } else {
      assert (s + [d])[1..] == s[1..] + [d];
      DigitsValueAppend(s[1..], d, 10 * v + (s[0] - '0' as byte));
    }
  }

  lemma {:induction false} DigitsAreRead(n: nat)
    ensures Unsigned(Digits(n)) && DigitsValue(Digits(n), 0) == n && (Digits(n)[0] == '0' as byte ==> n == 0)
  {
    if n < 10 {
      assert DigitsValue([48 + n], 0) == DigitsValue([], n);
    } else {
      DigitsAreRead(n / 10);
      DigitsValueAppend(Digits(n / 10), 48 + n % 10, 0);
    }
  }

  /** "%d" writes the decimal text of the number: no leading zeros, a minus only in front of what is less than zero. */
  lemma DecimalIsRead(n: int)
    ensures IntegerText(Decimal(n)) && IntegerValue(Decimal(n)) == n
    ensures Decimal(n)[0] == '-' as byte <==> n < 0
  {
    DigitsAreRead(if n < 0 then -n else n);
    if n < 0 {
      assert Decimal(n)[1..] == Digits(-n);
    }
  }

  function Pow10(k: nat): nat { if k == 0 then 1 else 10 * Pow10(k - 1) }

  lemma {:induction false} DigitsLength(n: nat, k: nat)
    requires 1 <= k && n < Pow10(k)
    ensures |Digits(n)| <= k
  {
    if n >= 10 {
      assert Pow10(k) == 10 * Pow10(k - 1);
      assert k > 1 by {
        assert Pow10(1) == 10 * Pow10(0);
      }
      DigitsLength(n / 10, k - 1);
    }
  }

  lemma DecimalLength(n: int)
    requires INT_MIN <= n <= INT_MAX
    ensures |Decimal(n)| <= 11
  {
    assert Pow10(10) == 10_000_000_000 by {
      assert Pow10(3) == 1000;
      assert Pow10(6) == 1000 * Pow10(3);
      assert Pow10(9) == 1000 * Pow10(6);
    }
    DigitsLength(if n < 0 then -n else n, 10);
  }

  function NumberText(lib: Lib, d: real): (r: bytes)
    ensures NulFree(r) && |r| <= 25
  {
    DecimalLength(ValueInt(d));
    if d == ValueInt(d) as real then Decimal(ValueInt(d)) else lib.formatDouble(d)
  }

  // ---------- printed text ----------

  const COMMA: byte := 44
  const COLON: byte := 58
  const OPEN_ARRAY: byte := 91
  const CLOSE_ARRAY: byte := 93
  const OPEN_OBJECT: byte := 123
  const CLOSE_OBJECT: byte := 125
  const SPACE: byte := 32
  const TAB: byte := 9
  const NEWLINE: byte := 10

  const NULL_TEXT: bytes := [110, 117, 108, 108]
  const FALSE_TEXT: bytes := [102, 97, 108, 115, 101]
  const TRUE_TEXT: bytes := [116, 114, 117, 101]

  function Tabs(n: nat): (r: bytes)
    ensures |r| == n && forall i | 0 <= i < n :: r[i] == TAB
  {
    seq(n, i => TAB)
  }

  /** The text of a tree, printed `depth` levels down. */
  function Print(lib: Lib, t: Json, format: bool, depth: nat): bytes
    decreases t, 1
  {
    match t
    case Null => NULL_TEXT
    case False => FALSE_TEXT
    case True => TRUE_TEXT
    case Number(d) => NumberText(lib, d)
    case String(text) => Quoted(text)
    case Raw(text) => text
    case Array(items) => [OPEN_ARRAY] + PrintItems(lib, items, format, depth + 1) + [CLOSE_ARRAY]
    case Object(members) =>
      [OPEN_OBJECT] + (if format then [NEWLINE] else []) +
      PrintMembers(lib, members, format, depth + 1) +
      (if format then Tabs(depth) else []) + [CLOSE_OBJECT]
  }

  function Separator(format: bool): bytes {
    if format then [COMMA, SPACE] else [COMMA]
  }

  function PrintItems(lib: Lib, items: seq<Json>, format: bool, depth: nat): bytes
    decreases items, 0
  {
    if items == [] then []
    else if |items| == 1 then Print(lib, items[0], format, depth)
    else Print(lib, items[0], format, depth) + Separator(format) + PrintItems(lib, items[1..], format, depth)
  }

  /** The text in front of a member's value. */
  function MemberHead(key: bytes, format: bool, depth: nat): bytes {
    (if format then Tabs(depth) else []) + Quoted(key) + (if format then [COLON, TAB] else [COLON])
  }

  /** The text behind a member's value. */
  function MemberEnd(last: bool, format: bool): bytes {
    (if last then [] else [COMMA]) + (if format then [NEWLINE] else [])
  }

  function PrintMembers(lib: Lib, members: seq<Member>, format: bool, depth: nat): bytes
    decreases members, 0
  {
    if members == [] then []
    else
      MemberHead(members[0].key, format, depth) + Print(lib, members[0].value, format, depth) +
      MemberEnd(|members| == 1, format) + PrintMembers(lib, members[1..], format, depth)
  }

  lemma PrintArray(lib: Lib, items: seq<Json>, format: bool, depth: nat)
    ensures Print(lib, Array(items), format, depth) ==
            [OPEN_ARRAY] + PrintItems(lib, items, format, depth + 1) + [CLOSE_ARRAY]
  {
    hide PrintItems;
  }

  /** The brace and the line break in front of the members, and what comes after them. */
  function ObjectHead(format: bool): bytes {
    [OPEN_OBJECT] + if format then [NEWLINE] else []
  }

  function ObjectTail(format: bool, depth: nat): bytes {
    (if format then Tabs(depth) else []) + [CLOSE_OBJECT]
  }

  lemma PrintObject(lib: Lib, members: seq<Member>, format: bool, depth: nat)
    ensures Print(lib, Object(members), format, depth) ==
            ObjectHead(format) + PrintMembers(lib, members, format, depth + 1) + ObjectTail(format, depth)
  {
    hide PrintItems, PrintMembers, Tabs;
  }

  lemma PrintMoreItems(lib: Lib, items: seq<Json>, format: bool, depth: nat)
    requires |items| > 1
    ensures PrintItems(lib, items, format, depth) ==
            Print(lib, items[0], format, depth) + Separator(format) + PrintItems(lib, items[1..], format, depth)
  {
    hide Print;
  }

  lemma PrintMoreMembers(lib: Lib, members: seq<Member>, format: bool, depth: nat)
    requires members != []
    ensures PrintMembers(lib, members, format, depth) ==
            MemberHead(members[0].key, format, depth) + Print(lib, members[0].value, format, depth) +
            MemberEnd(|members| == 1, format) + PrintMembers(lib, members[1..], format, depth)
  {
    hide Print, MemberHead, MemberEnd;
  }

  // ---------- well-formed trees ----------

  /** Strings and keys are C strings. */
  predicate CStrings(t: Json)
    decreases t, 1
  {
    match t
    case String(text) => NulFree(text)
    case Raw(text) => NulFree(text)
    case Array(items) => forall i | 0 <= i < |items| :: CStrings(items[i])
    case Object(members) => forall i | 0 <= i < |members| :: NulFree(members[i].key) && CStrings(members[i].value)
    case _ => true
  }

  lemma {:induction false} PrintNulFree(lib: Lib, t: Json, format: bool, depth: nat)
    requires CStrings(t)
    ensures NulFree(Print(lib, t, format, depth))
    decreases t, 1
  {
    hide Print, PrintItems, PrintMembers;
    match t
    case Array(items) =>
      PrintArray(lib, items, format, depth);
      PrintItemsNulFree(lib, items, format, depth + 1);
    case Object(members) =>
      PrintObject(lib, members, format, depth);
      PrintMembersNulFree(lib, members, format, depth + 1);
    case _ =>
      LeafNulFree(lib, t, format, depth);
  }

  lemma LeafNulFree(lib: Lib, t: Json, format: bool, depth: nat)
    requires CStrings(t) && !t.Array? && !t.Object?
    ensures NulFree(Print(lib, t, format, depth))
  {
    hide PrintItems, PrintMembers, Escape, Quoted, NumberText;
    if t.String? {
      EscapeNulFree(t.text);
    }
  }

  lemma {:induction false} PrintItemsNulFree(lib: Lib, items: seq<Json>, format: bool, depth: nat)
    requires forall i | 0 <= i < |items| :: CStrings(items[i])
    ensures NulFree(PrintItems(lib, items, format, depth))
    decreases items, 0
  {
    hide Print, CStrings;
    if items != [] {
      PrintNulFree(lib, items[0], format, depth);
      PrintItemsNulFree(lib, items[1..], format, depth);
    }
  }

  lemma MemberHeadNulFree(key: bytes, format: bool, depth: nat)
    requires NulFree(key)
    ensures NulFree(MemberHead(key, format, depth))
  {
    hide Escape;
    EscapeNulFree(key);
  }

  lemma {:induction false} PrintMembersNulFree(lib: Lib, members: seq<Member>, format: bool, depth: nat)
    requires forall i | 0 <= i < |members| :: NulFree(members[i].key) && CStrings(members[i].value)
    ensures NulFree(PrintMembers(lib, members, format, depth))
    decreases members, 0
  {
    hide Print, CStrings, MemberHead;
    if members != [] {
      MemberHeadNulFree(members[0].key, format, depth);
      PrintNulFree(lib, members[0].value, format, depth);
      PrintMembersNulFree(lib, members[1..], format, depth);
    }
  }
}
