/** cJSON's printer over a `printbuffer` (cJSON.c:427-535, 545-612, 902-1027, 1187-1309, 1367-1438, 1539-1598,
    1714-1825), on trees of linked nodes: every chunk first asks `ensure` for room, and the buffer either grows or is
    the caller's.

    The default hooks are modelled, where growing is `realloc`; `grants` says which sizes it can deliver. */
module CJsonPrinter {
  import opened Bytes
  import opened CJsonUtf16
  import opened CJsonString
  import opened CJsonText
  import opened CJsonBuilt
  import opened CJsonNodes
  import opened CJsonShapes

  /** The nodes from `item` on, all in `space`, unfold to `sh` and hold `t`. */
  ghost predicate Holds(item: Node, sh: Shape, t: Tree, space: set<Node>)
    reads space
  {
    Nodes(sh) <= space && sh.node == item && Unfolds(sh) && Content(sh) == t && CTypes(t)
  }

  /** So do the nodes of a list, one by one. */
  ghost predicate HoldAll(head: Node?, kids: seq<Shape>, trees: seq<Tree>, space: set<Node>)
    reads space
  {
    && NodesOf(kids) <= space && (forall i | 0 <= i < |kids| :: kids[i].node in space)
    && head == NodeAt(Roots(kids), 0) && (forall i | 0 <= i < |kids| :: kids[i].node.next == NodeAt(Roots(kids), i + 1))
    && ListHolds(kids, trees)
  }

  ghost predicate ListHolds(kids: seq<Shape>, trees: seq<Tree>)
    reads NodesOf(kids)
  {
    AllUnfold(kids) && Contents(kids) == trees && AllCTypes(trees)
  }

  lemma HoldsBelow(item: Node, sh: Shape, t: Tree, space: set<Node>)
    requires Holds(item, sh, t, space)
    ensures HoldAll(item.child, sh.kids, t.kids, space)
  {
    hide NodesOf;
  }

  lemma HoldsAt(head: Node?, kids: seq<Shape>, trees: seq<Tree>, space: set<Node>, k: nat)
    requires HoldAll(head, kids, trees, space)
    ensures |trees| == |kids| && head == NodeAt(Roots(kids), 0)
    ensures k < |kids| ==>
              && NodeAt(Roots(kids), k) == kids[k].node && Holds(kids[k].node, kids[k], trees[k], space)
              && kids[k].node.next == NodeAt(Roots(kids), k + 1)
  {
    hide NodesOf, Unfolds, Content, CTypes;
  }

  lemma HoldsName(lib: Lib, item: Node, sh: Shape, t: Tree, space: set<Node>)
    requires Holds(item, sh, t, space)
    ensures item.name == t.name && NulFree(OrEmpty(item.name)) && CStrings(ValueOf(lib, t))
  {
    hide CStrings, ValueOf, NulFree;
    NameIsCString(t);
    ValueIsCStrings(lib, t);
  }

  class PrintBuffer {
    const lib: Lib
    const format: bool
    const noalloc: bool
    const grants: nat -> bool
    var buffer: array?<byte>
    var length: nat
    var offset: nat
    var depth: nat

    constructor (lib: Lib, format: bool, noalloc: bool, grants: nat -> bool, buffer: array<byte>)
      requires buffer.Length <= INT_MAX
      ensures this.lib == lib && this.format == format && this.noalloc == noalloc && this.grants == grants
      ensures this.buffer == buffer && offset == 0 && depth == 0 && Valid()
    {
      this.lib, this.format, this.noalloc, this.grants := lib, format, noalloc, grants;
      this.buffer, length, offset, depth := buffer, buffer.Length, 0, 0;
    }

    ghost predicate Valid()
      reads this`buffer, this`length, this`offset
    {
      && buffer != null && length == buffer.Length <= INT_MAX
      && (if length == 0 then offset == 0 else offset < length)
    }

    /** What the buffer holds in front of the offset. */
    ghost function Text(): (r: bytes)
      requires Valid()
      reads this`buffer, this`length, this`offset, buffer
      ensures |r| == offset
    {
      buffer[..offset]
    }

    /** How long the buffer is, or can become. */
    ghost function Cap(): int
      reads this
    {
      if noalloc then length else INT_MAX
    }

    ghost predicate NeverRefuses() {
      noalloc || forall n :: grants(n)
    }

    /** `text` was printed behind `before`, with its terminator; the offset is somewhere inside. */
    ghost predicate Printed(before: bytes, text: bytes)
      reads this, buffer
    {
      && Valid() && |before| <= offset <= |before| + |text| < length
      && buffer[..|before| + |text| + 1] == before + text + [0]
    }

    /** `ensure`: make sure `needed` bytes and one more can be written at the offset. */
    method Ensure(needed: nat) returns (ok: bool)
      requires Valid()
      modifies this`buffer, this`length
      ensures ok ==> Valid() && offset + needed + 1 <= length && Text() == old(Text()) && Cap() == old(Cap())
      ensures buffer == old(buffer) || buffer == null || fresh(buffer)
      ensures noalloc ==> buffer == old(buffer) && length == old(length)
      ensures ok ==> offset + needed + 1 <= old(Cap())
      ensures NeverRefuses() && offset + needed + 1 <= old(Cap()) ==> ok
    {
      if length > 0 && offset >= length {
        return false;
      }
      if needed > INT_MAX {
        return false;
      }
      var total := needed + offset + 1;
      if total <= length {
        return true;
      }
      if noalloc {
        return false;
      }
      var newsize;
      if total > INT_MAX / 2 {
        if total <= INT_MAX {
          newsize := INT_MAX;
        } else {
          return false;
        }
      } else {
        newsize := total * 2;
      }
      if !grants(newsize) {
        buffer, length := null, 0;
        return false;
      }
      var newbuffer := Reallocate(buffer, newsize);
      buffer, length := newbuffer, newsize;
      return true;
    }

    /** `realloc`: a block of the new size that starts with the old bytes, as many as fit; the rest is arbitrary. */
    static method Reallocate(block: array<byte>, newsize: nat) returns (newBlock: array<byte>)
      ensures fresh(newBlock) && newBlock.Length == newsize
      ensures newsize >= block.Length ==> newBlock[..block.Length] == block[..]
      ensures newsize <= block.Length ==> newBlock[..] == block[..newsize]
    {
      newBlock := new byte[newsize];
      var kept := if newsize < block.Length then newsize else block.Length;
      for i := 0 to kept
        invariant forall k | 0 <= k < i :: newBlock[k] == block[k]
      {
        newBlock[i] := block[i];
      }
    }

    /** Stores through the output pointer: `text` from position `at` on. */
    method Store(at: nat, text: bytes)
      requires buffer != null && at + |text| <= buffer.Length
      modifies buffer
      ensures buffer[..at + |text|] == old(buffer[..at]) + text
    {
      for i := 0 to |text|
        invariant buffer[..at] == old(buffer[..at])
        invariant buffer[at..at + i] == text[..i]
      {
        buffer[at + i] := text[i];
        assert buffer[at..at + i + 1] == buffer[at..at + i] + [text[i]];
      }
      assert buffer[..at + |text|] == buffer[..at] + buffer[at..at + |text|];
    }

    /** `update_offset`: move behind what was printed, found by its terminator. */
    method UpdateOffset(ghost before: bytes, ghost text: bytes)
      requires Printed(before, text) && NulFree(text)
      modifies this`offset
      ensures Valid() && Text() == before + text
    {
      ghost var end := |before| + |text|;
      assert buffer[end] == (before + text + [0])[end] == 0;
      assert forall k | offset <= k < end :: buffer[k] == (before + text + [0])[k] == text[k - |before|];
      var strlen := 0;
      while buffer[offset + strlen] != 0
        invariant offset + strlen <= end
        decreases end - strlen
      {
        strlen := strlen + 1;
      }
      offset := offset + strlen;
      assert buffer[..end] == buffer[..end + 1][..end] == before + text;
    }

    // ---------- leaves ----------

    /** Chunks that a leaf prints with one call of `ensure` and one copy that includes the terminator. */
    method PrintChunk(text: bytes) returns (ok: bool)
      requires Valid()
      modifies this`buffer, this`length, buffer
      ensures ok ==> Printed(old(Text()), text) && Cap() == old(Cap())
      ensures buffer == old(buffer) || buffer == null || fresh(buffer)
      ensures noalloc ==> buffer == old(buffer) && length == old(length)
      ensures ok ==> offset + |text| + 2 <= old(Cap())
      ensures NeverRefuses() && offset + |text| + 2 <= old(Cap()) ==> ok
    {
      ok := Ensure(|text| + 1);
      if ok {
        Store(offset, text + [0]);
        assert buffer[..offset + |text| + 1] == old(Text()) + text + [0];
      }
    }

    /** First loop of `print_string_ptr`: how many bytes escaping adds. */
    method CountEscapes(input: bytes) returns (escapeCharacters: nat)
      ensures |input| + escapeCharacters == |Escape(input)|
    {
      hide EscapeLetter;
      escapeCharacters := 0;
      assert input[0..] == input;
      for i := 0 to |input|
        invariant i + escapeCharacters + |Escape(input[i..])| == |Escape(input)|
      {
        assert input[i..][1..] == input[i + 1..] && input[i..][0] == input[i];
        if EscapeLetter(input[i]).Some? {
          escapeCharacters := escapeCharacters + 1;
        } else if input[i] < 32 {
          escapeCharacters := escapeCharacters + 5;
        }
      }
    }

    lemma {:induction false} NothingToEscape(s: bytes)
      ensures |Escape(s)| >= |s|
      ensures |Escape(s)| == |s| ==> Escape(s) == s
    {
      if s != [] {
        NothingToEscape(s[1..]);
        assert s == [s[0]] + s[1..];
      }
    }

    /** `print_string_ptr`: quotes alone if there is no string; otherwise measure, make room once, then copy or
        escape. */
    method PrintStringPtr(input: Option<bytes>) returns (ok: bool)
      requires Valid()
      modifies this`buffer, this`length, buffer
      ensures ok ==> Printed(old(Text()), Quoted(OrEmpty(input))) && Cap() == old(Cap())
      ensures buffer == old(buffer) || buffer == null || fresh(buffer)
      ensures noalloc ==> buffer == old(buffer) && length == old(length)
      ensures ok ==> offset + |Quoted(OrEmpty(input))| + 2 <= old(Cap())
      ensures NeverRefuses() && offset + |Quoted(OrEmpty(input))| + 2 <= old(Cap()) ==> ok
    {
      hide Escape;
      if input.None? {
        NothingQuoted();
        ok := PrintChunk([QUOTE, QUOTE]);
        return;
      }
      var escapeCharacters := CountEscapes(input.value);
      ok := Ensure(|input.value| + escapeCharacters + 3);
      if ok {
        ghost var before := Text();
        StoreQuoted(offset, input.value, escapeCharacters);
        assert buffer[..offset + |Quoted(input.value)| + 1] == before + Quoted(input.value) + [0];
      }
    }

    lemma NothingQuoted()
      ensures Quoted([]) == [QUOTE, QUOTE]
    {
    }

    /** The writing half of `print_string_ptr`, once there is room. */
    method StoreQuoted(at: nat, input: bytes, escapeCharacters: nat)
      requires buffer != null && at + |Quoted(input)| + 1 <= buffer.Length
      requires |input| + escapeCharacters == |Escape(input)|
      modifies buffer
      ensures buffer[..at + |Quoted(input)| + 1] == old(buffer[..at]) + (Quoted(input) + [0])
    {
      hide Escape;
      ghost var before := buffer[..at];
      Store(at, [QUOTE]);
      if escapeCharacters == 0 {
        NothingToEscape(input);
        Store(at + 1, input);
      } else {
        StoreEscaped(at + 1, input);
      }
      assert buffer[..at + 1 + |Escape(input)|] == before + [QUOTE] + Escape(input);
      Store(at + 1 + |input| + escapeCharacters, [QUOTE, 0]);
      assert before + [QUOTE] + Escape(input) + [QUOTE, 0] == before + (Quoted(input) + [0]);
    }

    /** Second loop of `print_string_ptr`: write the escaped string from `at` on. */
    method StoreEscaped(at: nat, input: bytes)
      requires buffer != null && at + |Escape(input)| <= buffer.Length
      modifies buffer
      ensures buffer[..at + |Escape(input)|] == old(buffer[..at]) + Escape(input)
    {
      hide EscapeByte;
      ghost var before := buffer[..at];
      var output := at;
      assert input[0..] == input;
      for i := 0 to |input|
        invariant at <= output && output + |Escape(input[i..])| == at + |Escape(input)|
        invariant buffer[..output] + Escape(input[i..]) == before + Escape(input)
      {
        ghost var done, rest := buffer[..output], Escape(input[i + 1..]);
        assert input[i..][1..] == input[i + 1..];
        assert Escape(input[i..]) == EscapeByte(input[i]) + rest;
        output := StoreEscapedByte(output, input[i]);
        assert done + EscapeByte(input[i]) + rest == done + (EscapeByte(input[i]) + rest);
      }
      assert buffer[..output] + [] == buffer[..output];
    }

    method StoreEscapedByte(at: nat, b: byte) returns (output: nat)
      requires buffer != null && at + |EscapeByte(b)| <= buffer.Length
      modifies buffer
      ensures output == at + |EscapeByte(b)|
      ensures buffer[..output] == old(buffer[..at]) + EscapeByte(b)
    {
      hide EscapeLetter, EscapeUnit, EscapeByte;
      output := at;
      if b > 31 && b != QUOTE && b != BACKSLASH {
        PlainByte(b);
        Store(output, [b]);
        output := output + 1;
      } else {
        EscapedByte(b);
        Store(output, [BACKSLASH]);
        output := output + 1;
        var letter := EscapeLetter(b);
        if letter.Some? {
          Store(output, [letter.value]);
          output := output + 1;
        } else {
          Store(output, EscapeUnit(b, LOWER_CASE, 0)[1..]);
          output := output + 5;
        }
      }
    }

    lemma PlainByte(b: byte)
      requires b > 31 && b != QUOTE && b != BACKSLASH
      ensures EscapeByte(b) == [b]
    {
    }

    lemma EscapedByte(b: byte)
      requires b <= 31 || b == QUOTE || b == BACKSLASH
      ensures |EscapeUnit(b, LOWER_CASE, 0)| == 6
      ensures EscapeByte(b) == [BACKSLASH] + if EscapeLetter(b).Some? then [EscapeLetter(b).value]
                                             else EscapeUnit(b, LOWER_CASE, 0)[1..]
    {
    }

    // ---------- trees ----------

    /** Punctuation and indentation: room for `needed` bytes, `text` stored, the offset moved behind it. */
    method Append(needed: nat, text: bytes) returns (ok: bool)
      requires Valid() && |text| <= needed
      modifies this`buffer, this`length, this`offset, buffer
      ensures ok ==> Valid() && Text() == old(Text()) + text && Cap() == old(Cap())
      ensures buffer == old(buffer) || buffer == null || fresh(buffer)
      ensures noalloc ==> buffer == old(buffer) && length == old(length)
      ensures ok ==> old(offset) + needed + 1 <= old(Cap())
      ensures NeverRefuses() && old(offset) + needed + 1 <= old(Cap()) ==> ok
    {
      ok := Ensure(needed);
      if ok {
        Store(offset, text);
        offset := offset + |text|;
      }
    }

    /** `print_value`. The text is complete exactly when every node that is reached has a type to print and its length
        and two more bytes fit: one for the terminator, one that `ensure` always asks for on top. */
    method PrintValue(item: Node, ghost sh: Shape, ghost t: Tree, ghost space: set<Node>) returns (ok: bool)
      requires Valid() && Holds(item, sh, t, space)
      modifies this, buffer
      ensures ok ==> Renders(t) && Cap() == old(Cap()) && depth == old(depth)
      ensures ok ==> Printed(old(Text()), Print(lib, ValueOf(lib, t), format, old(depth)))
      ensures buffer == old(buffer) || buffer == null || fresh(buffer)
      ensures noalloc ==> buffer == old(buffer) && length == old(length)
      ensures ok ==> |old(Text())| + |Print(lib, ValueOf(lib, t), format, old(depth))| + 2 <= old(Cap())
      ensures NeverRefuses() && Renders(t) &&
              |old(Text())| + |Print(lib, ValueOf(lib, t), format, old(depth))| + 2 <= old(Cap())
              ==> ok
      decreases t, 4
    {
      hide Quoted, NumberText, PrintItems, PrintMembers, Printed, CTypes, AllCTypes, Unfolds, AllUnfold;
      hide Contents, Nodes, NodesOf, Values, MemberValues, AllRender, Chain, NumberOf;
      HoldsBelow(item, sh, t, space);
      match item.kind {
        case NULL => ok := PrintChunk(NULL_TEXT);
        case False => ok := PrintChunk(FALSE_TEXT);
        case True => ok := PrintChunk(TRUE_TEXT);
        case Number => ok := PrintNumber(item, t);
        case Raw =>
          if item.valuestring.None? {
            return false;
          }
          ok := PrintChunk(item.valuestring.value);
        case String => ok := PrintStringPtr(item.valuestring);
        case Array => ok := PrintArrayItem(item, sh, t, space);
        case Object => ok := PrintObjectItem(item, sh, t, space);
        case Invalid => return false;
      }
    }

    /** `print_number`, which also moves the offset. */
    method PrintNumber(item: Node, ghost t: Tree) returns (ok: bool)
      requires Valid() && item.valueint == t.valueint && item.valuedouble == t.valuedouble && CTypes(t)
      modifies this, buffer
      ensures ok ==> Printed(old(Text()), Print(lib, NumberOf(lib, t.valueint, t.valuedouble), format, old(depth)))
      ensures ok ==> Cap() == old(Cap()) && depth == old(depth)
      ensures buffer == old(buffer) || buffer == null || fresh(buffer)
      ensures noalloc ==> buffer == old(buffer) && length == old(length)
      ensures ok ==> |old(Text())| + |Print(lib, NumberOf(lib, t.valueint, t.valuedouble), format, old(depth))| + 2
                     <= old(Cap())
      ensures NeverRefuses() &&
              |old(Text())| + |Print(lib, NumberOf(lib, t.valueint, t.valuedouble), format, old(depth))| + 2 <= old(Cap())
              ==> ok
    {
      hide Decimal, Print, NumberOf, AllCTypes, NulFree;
      NumberOfText(lib, t.valueint, t.valuedouble, format, depth);
      var d := item.valuedouble;
      var text := if d == item.valueint as real then Decimal(item.valueint) else lib.formatDouble(d);
      ok := PrintChunk(text);
      if ok {
        offset := offset + |text|;
      }
    }

    /** `print_array`. */
    method PrintArrayItem(item: Node, ghost sh: Shape, ghost t: Tree, ghost space: set<Node>) returns (ok: bool)
      requires Valid() && HoldAll(item.child, sh.kids, t.kids, space)
      modifies this, buffer
      ensures ok ==> AllRender(t.kids) && Cap() == old(Cap()) && depth == old(depth)
      ensures ok ==> Printed(old(Text()), Print(lib, Array(Values(lib, t.kids)), format, old(depth)))
      ensures buffer == old(buffer) || buffer == null || fresh(buffer)
      ensures noalloc ==> buffer == old(buffer) && length == old(length)
      ensures ok ==> |old(Text())| + |Print(lib, Array(Values(lib, t.kids)), format, old(depth))| + 2 <= old(Cap())
      ensures NeverRefuses() && AllRender(t.kids) &&
              |old(Text())| + |Print(lib, Array(Values(lib, t.kids)), format, old(depth))| + 2 <= old(Cap())
              ==> ok
      decreases t, 3
    {
      hide Print, PrintItems, HoldAll, Printed, Values, AllRender, Text;
      ghost var before, items := Text(), Values(lib, t.kids);
      ghost var body := PrintItems(lib, items, format, depth + 1);
      PrintArray(lib, items, format, depth);
      ok := Append(1, [OPEN_ARRAY]);
      if !ok {
        return;
      }
      depth := depth + 1;
      ok := PrintElements(item.child, sh.kids, t.kids, space);
      if !ok {
        return;
      }
      assert before + [OPEN_ARRAY] + body == before + ([OPEN_ARRAY] + body);
      ok := PrintEnd([CLOSE_ARRAY], 2, before, [OPEN_ARRAY] + body, Print(lib, Array(items), format, depth - 1));
    }

    /** The loop of `print_array`. */
    method PrintElements(head: Node?, ghost kids: seq<Shape>, ghost trees: seq<Tree>, ghost space: set<Node>)
      returns (ok: bool)
      requires Valid() && HoldAll(head, kids, trees, space)
      modifies this, buffer
      ensures ok ==> AllRender(trees) && Cap() == old(Cap()) && depth == old(depth)
      ensures ok ==> Valid() && Text() == old(Text()) + PrintItems(lib, Values(lib, trees), format, old(depth))
      ensures buffer == old(buffer) || buffer == null || fresh(buffer)
      ensures noalloc ==> buffer == old(buffer) && length == old(length)
      ensures NeverRefuses() && AllRender(trees) &&
              |old(Text())| + |PrintItems(lib, Values(lib, trees), format, old(depth))| + 2 <= old(Cap())
              ==> ok
      decreases trees, 2
    {
      hide Print, PrintItems, ItemText, HoldAll, Holds, Roots, NodeAt, ValueOf, Renders, Text;
      ghost var items := Values(lib, trees);
      ghost var before, cap, body := Text(), Cap(), PrintItems(lib, items, format, depth);
      ghost var done: bytes := [];
      assert items[0..] == items;
      HoldsAt(head, kids, trees, space, 0);
      var currentElement := head;
      ghost var i := 0;
      while currentElement != null
        invariant 0 <= i <= |items| == |trees| && Valid() && Cap() == cap && depth == old(depth)
        invariant HoldAll(head, kids, trees, space) && currentElement == NodeAt(Roots(kids), i)
        invariant buffer == old(buffer) || fresh(buffer)
        invariant noalloc ==> buffer == old(buffer) && length == old(length)
        invariant forall k | 0 <= k < i :: Renders(trees[k])
        invariant Text() == before + done
        invariant done + PrintItems(lib, items[i..], format, depth) == body
        decreases |items| - i
      {
        HoldsAt(head, kids, trees, space, i);
        EndsAt(kids, i);
        ghost var text := ItemText(items[i], i + 1 == |items|);
        ghost var rest := PrintItems(lib, items[i + 1..], format, depth);
        ItemsFrom(items, i);
        LengthOf3(done, text, rest, body);
        ok := PrintElement(currentElement, kids[i], trees[i], space, i + 1 == |items|);
        if !ok {
          return;
        }
        assert Text() == before + (done + text);
        done := done + text;
        currentElement := currentElement.next;
        i := i + 1;
      }
      EndsAt(kids, i);
      EmptyTexts(lib, format, depth);
      assert done + [] == done && items[|items|..] == [];
      ok := true;
    }

    lemma EndsAt(kids: seq<Shape>, i: nat)
      ensures NodeAt(Roots(kids), i) == null <==> i >= |kids|
      ensures NodeAt(Roots(kids), i + 1) == null <==> i + 1 >= |kids|
    {
    }

    lemma LengthOf3(a: bytes, b: bytes, c: bytes, d: bytes)
      requires a + (b + c) == d
      ensures |a| + |b| + |c| == |d| && a + b + c == d
    {
    }

    /** The text of one element at the current depth. */
    ghost function ItemText(item: Json, last: bool): bytes
      reads this
    {
      Print(lib, item, format, depth) + if last then [] else Separator(format)
    }

    /** One round of the loop in `print_array`: the value, and a comma unless it is the last. */
    method PrintElement(item: Node, ghost sh: Shape, ghost t: Tree, ghost space: set<Node>, ghost last: bool)
      returns (ok: bool)
      requires Valid() && Holds(item, sh, t, space) && (last <==> item.next == null)
      modifies this, buffer
      ensures ok ==> Renders(t) && Cap() == old(Cap()) && depth == old(depth)
      ensures ok ==> Valid() && Text() == old(Text()) + old(ItemText(ValueOf(lib, t), last))
      ensures buffer == old(buffer) || buffer == null || fresh(buffer)
      ensures noalloc ==> buffer == old(buffer) && length == old(length)
      ensures NeverRefuses() && Renders(t) && |old(Text())| + |old(ItemText(ValueOf(lib, t), last))| + 2 <= old(Cap())
              ==> ok
      decreases t, 5
    {
      hide Print, CStrings, Separator, ValueOf, Renders, Text, Holds, Printed;
      ghost var before, text := Text(), Print(lib, ValueOf(lib, t), format, depth);
      SeparatorLength(format);
      ok := PrintValue(item, sh, t, space);
      if !ok {
        return;
      }
      HoldsName(lib, item, sh, t, space);
      PrintNulFree(lib, ValueOf(lib, t), format, depth);
      UpdateOffset(before, text);
      if item.next != null {
        var length := if format then 2 else 1;
        ok := Append(length + 1, Separator(format));
        assert before + text + Separator(format) == before + (text + Separator(format));
      } else {
        assert before + text == before + (text + []);
      }
    }

    lemma SeparatorLength(format: bool)
      ensures |Separator(format)| == if format then 2 else 1
    {
    }

    lemma EmptyTexts(lib: Lib, format: bool, depth: nat)
      ensures PrintItems(lib, [], format, depth) == []
      ensures PrintMembers(lib, [], format, depth) == []
    {
    }

    lemma ItemsFrom(items: seq<Json>, i: nat)
      requires i < |items|
      ensures PrintItems(lib, items[i..], format, depth) ==
              ItemText(items[i], i + 1 == |items|) + PrintItems(lib, items[i + 1..], format, depth)
    {
      hide Print, Separator;
      assert items[i..][1..] == items[i + 1..];
      if i + 1 == |items| {
        assert items[i + 1..] == [];
        var text := Print(lib, items[i], format, depth);
        assert text + [] + [] == text;
      }
    }

    /** The closing bracket or brace with its terminator, one level further out; the offset stays in front of it. */
    method PrintEnd(text: bytes, needed: nat, ghost before: bytes, ghost front: bytes, ghost whole: bytes)
      returns (ok: bool)
      requires Valid() && depth > 0 && Text() == before + front && whole == front + text
      requires 1 <= |text| && |text| + 1 <= needed
      modifies this`buffer, this`length, this`depth, buffer
      ensures ok ==> Printed(before, whole) && Cap() == old(Cap()) && depth == old(depth) - 1
      ensures buffer == old(buffer) || buffer == null || fresh(buffer)
      ensures noalloc ==> buffer == old(buffer) && length == old(length)
      ensures ok ==> offset + needed + 1 <= old(Cap())
      ensures NeverRefuses() && offset + needed + 1 <= old(Cap()) ==> ok
    {
      ok := Ensure(needed);
      if ok {
        Store(offset, text + [0]);
        assert before + front + (text + [0]) == before + whole + [0];
        depth := depth - 1;
      }
    }

    /** `print_object`. */
    method PrintObjectItem(item: Node, ghost sh: Shape, ghost t: Tree, ghost space: set<Node>) returns (ok: bool)
      requires Valid() && HoldAll(item.child, sh.kids, t.kids, space)
      modifies this, buffer
      ensures ok ==> AllRender(t.kids) && Cap() == old(Cap()) && depth == old(depth)
      ensures ok ==> Printed(old(Text()), Print(lib, Object(MemberValues(lib, t.kids)), format, old(depth)))
      ensures buffer == old(buffer) || buffer == null || fresh(buffer)
      ensures noalloc ==> buffer == old(buffer) && length == old(length)
      ensures ok ==> |old(Text())| + |Print(lib, Object(MemberValues(lib, t.kids)), format, old(depth))| + 2 <= old(Cap())
      ensures NeverRefuses() && AllRender(t.kids) &&
              |old(Text())| + |Print(lib, Object(MemberValues(lib, t.kids)), format, old(depth))| + 2 <= old(Cap())
              ==> ok
      decreases t, 3
    {
      hide Print, PrintMembers, HoldAll, ObjectHead, ObjectTail, Printed, MemberValues, AllRender, Text;
      ghost var before, members := Text(), MemberValues(lib, t.kids);
      ghost var body := PrintMembers(lib, members, format, depth + 1);
      PrintObject(lib, members, format, depth);
      ObjectLengths(format, depth);
      var length := if format then 2 else 1;
      ok := Append(length + 1, ObjectHead(format));
      if !ok {
        return;
      }
      depth := depth + 1;
      ok := PrintMemberLoop(item.child, sh.kids, t.kids, space);
      if !ok {
        return;
      }
      Associate(before, ObjectHead(format), body);
      ok := PrintEnd(ObjectTail(format, depth - 1), if format then depth + 1 else 2, before,
                     ObjectHead(format) + body, Print(lib, Object(members), format, depth - 1));
    }

    /** The loop of `print_object`. */
    method PrintMemberLoop(head: Node?, ghost kids: seq<Shape>, ghost trees: seq<Tree>, ghost space: set<Node>)
      returns (ok: bool)
      requires Valid() && HoldAll(head, kids, trees, space)
      modifies this, buffer
      ensures ok ==> AllRender(trees) && Cap() == old(Cap()) && depth == old(depth)
      ensures ok ==> Valid() && Text() == old(Text()) + PrintMembers(lib, MemberValues(lib, trees), format, old(depth))
      ensures buffer == old(buffer) || buffer == null || fresh(buffer)
      ensures noalloc ==> buffer == old(buffer) && length == old(length)
      ensures NeverRefuses() && AllRender(trees) &&
              |old(Text())| + |PrintMembers(lib, MemberValues(lib, trees), format, old(depth))| + 2 <= old(Cap())
              ==> ok
      decreases trees, 2
    {
      hide Print, PrintMembers, MemberText, HoldAll, Holds, Roots, NodeAt, ValueOf, Renders, Text;
      ghost var members := MemberValues(lib, trees);
      ghost var before, cap, body := Text(), Cap(), PrintMembers(lib, members, format, depth);
      ghost var done: bytes := [];
      assert members[0..] == members;
      HoldsAt(head, kids, trees, space, 0);
      var currentItem := head;
      ghost var i := 0;
      while currentItem != null
        invariant 0 <= i <= |members| == |trees| && Valid() && Cap() == cap && depth == old(depth)
        invariant HoldAll(head, kids, trees, space) && currentItem == NodeAt(Roots(kids), i)
        invariant buffer == old(buffer) || fresh(buffer)
        invariant noalloc ==> buffer == old(buffer) && length == old(length)
        invariant forall k | 0 <= k < i :: Renders(trees[k])
        invariant Text() == before + done
        invariant done + PrintMembers(lib, members[i..], format, depth) == body
        decreases |members| - i
      {
        HoldsAt(head, kids, trees, space, i);
        EndsAt(kids, i);
        ghost var text := MemberText(members[i], i + 1 == |members|);
        ghost var rest := PrintMembers(lib, members[i + 1..], format, depth);
        MembersFrom(members, i);
        LengthOf3(done, text, rest, body);
        ok := PrintMember(currentItem, kids[i], trees[i], space, i + 1 == |members|);
        if !ok {
          return;
        }
        assert Text() == before + (done + text);
        done := done + text;
        currentItem := currentItem.next;
        i := i + 1;
      }
      EndsAt(kids, i);
      EmptyTexts(lib, format, depth);
      assert done + [] == done && members[|members|..] == [];
      ok := true;
    }

    lemma ObjectLengths(format: bool, depth: nat)
      ensures |ObjectHead(format)| == if format then 2 else 1
      ensures |ObjectTail(format, depth)| == if format then depth + 1 else 1
    {
    }

    /** The text of one member at the current depth. */
    ghost function MemberText(member: Member, last: bool): bytes
      reads this
    {
      MemberHead(member.key, format, depth) + Print(lib, member.value, format, depth) + MemberEnd(last, format)
    }

    lemma MembersFrom(members: seq<Member>, i: nat)
      requires i < |members|
      ensures PrintMembers(lib, members[i..], format, depth) ==
              MemberText(members[i], i + 1 == |members|) + PrintMembers(lib, members[i + 1..], format, depth)
    {
      hide Print, MemberHead, MemberEnd;
      assert members[i..][1..] == members[i + 1..];
    }

    /** One round of the loop in `print_object`: name, value, comma and line break. */
    method PrintMember(item: Node, ghost sh: Shape, ghost t: Tree, ghost space: set<Node>, ghost last: bool)
      returns (ok: bool)
      requires Valid() && Holds(item, sh, t, space) && (last <==> item.next == null)
      modifies this, buffer
      ensures ok ==> Renders(t) && Cap() == old(Cap()) && depth == old(depth)
      ensures ok ==> Valid() && Text() == old(Text()) + old(MemberText(MemberOf(lib, t), last))
      ensures buffer == old(buffer) || buffer == null || fresh(buffer)
      ensures noalloc ==> buffer == old(buffer) && length == old(length)
      ensures NeverRefuses() && Renders(t) && |old(Text())| + |old(MemberText(MemberOf(lib, t), last))| + 2 <= old(Cap())
              ==> ok
      decreases t, 5
    {
      hide Print, CStrings, MemberHead, NulFree, ValueOf, Renders, OrEmpty, Text, Holds, Printed, MemberEnd;
      ghost var before, text := Text(), Print(lib, ValueOf(lib, t), format, depth);
      ghost var head := MemberHead(OrEmpty(item.name), format, depth);
      HoldsName(lib, item, sh, t, space);
      MemberParts(before, head, text, last);
      ok := PrintName(item.name);
      if !ok {
        return;
      }
      ok := PrintValue(item, sh, t, space);
      if !ok {
        return;
      }
      PrintNulFree(lib, ValueOf(lib, t), format, depth);
      UpdateOffset(before + head, text);
      var length := (if format then 1 else 0) + (if item.next == null then 0 else 1);
      ok := Append(length + 1, MemberEnd(item.next == null, format));
    }

    lemma MemberParts(before: bytes, head: bytes, text: bytes, last: bool)
      ensures before + head + text + MemberEnd(last, format) == before + (head + text + MemberEnd(last, format))
      ensures |head + text + MemberEnd(last, format)| ==
              |head| + |text| + (if format then 1 else 0) + (if last then 0 else 1)
    {
    }

    /** Indentation, the key, the colon. */
    method PrintName(name: Option<bytes>) returns (ok: bool)
      requires Valid() && NulFree(OrEmpty(name))
      modifies this`buffer, this`length, this`offset, buffer
      ensures ok ==> Valid() && Text() == old(Text()) + MemberHead(OrEmpty(name), format, depth) && Cap() == old(Cap())
      ensures ok ==> depth == old(depth)
      ensures buffer == old(buffer) || buffer == null || fresh(buffer)
      ensures noalloc ==> buffer == old(buffer) && length == old(length)
      ensures NeverRefuses() && |old(Text())| + |MemberHead(OrEmpty(name), format, depth)| + 2 <= old(Cap()) ==> ok
    {
      hide Quoted, NulFree, MemberHead, Tabs, Printed, Escape, OrEmpty;
      ghost var before, key := Text(), OrEmpty(name);
      HeadParts(key);
      if format {
        ok := Append(depth, Tabs(depth));
        if !ok {
          return;
        }
      }
      ghost var before' := Text();
      ok := PrintStringPtr(name);
      if !ok {
        return;
      }
      EscapeNulFree(key);
      UpdateOffset(before', Quoted(key));
      var length := if format then 2 else 1;
      ok := Append(length, if format then [COLON, TAB] else [COLON]);
    }

    lemma HeadParts(key: bytes)
      ensures format ==> MemberHead(key, format, depth) == Tabs(depth) + Quoted(key) + [COLON, TAB]
      ensures !format ==> MemberHead(key, format, depth) == Quoted(key) + [COLON]
      ensures |Tabs(depth)| == depth
      ensures forall b: bytes :: b + MemberHead(key, format, depth) ==
                                 if format then b + Tabs(depth) + Quoted(key) + [COLON, TAB] else b + Quoted(key) + [COLON]
    {
      hide Quoted, Tabs;
    }
  }

  const DEFAULT_BUFFER_SIZE: nat := 256

  /** A newly allocated block of any contents. */
  method Allocate(size: nat) returns (block: array<byte>)
    ensures fresh(block) && block.Length == size
  {
    block := new byte[size];
  }

  lemma WholeText(p: PrintBuffer, text: bytes)
    requires p.Printed([], text)
    ensures p.Valid() && |text| < p.length && p.buffer[..|text| + 1] == text + [0]
  {
    assert [] + text + [0] == text + [0];
  }

  lemma OffsetIsLength(p: PrintBuffer, text: bytes)
    requires p.Valid() && p.Text() == [] + text
    ensures p.offset == |text|
  {
  }

  lemma NothingYet(p: PrintBuffer)
    requires p.Valid() && p.offset == 0
    ensures p.Text() == []
  {
  }

  /** `cJSON_Print` and `cJSON_PrintUnformatted`: a fresh, exactly sized C string. Unless the allocator refuses, it fails
      only on texts too long for an int. */
  method PrintTree(lib: Lib, item: Node, format: bool, grants: nat -> bool, ghost sh: Shape, ghost t: Tree,
    ghost space: set<Node>)
    returns (printed: array?<byte>)
    requires Holds(item, sh, t, space)
    ensures printed != null ==> fresh(printed) && Renders(t) && grants(256)
    ensures printed != null ==> printed[..] == Print(lib, ValueOf(lib, t), format, 0) + [0]
    ensures printed != null ==> |Print(lib, ValueOf(lib, t), format, 0)| + 2 <= INT_MAX
    ensures (forall n :: grants(n)) && Renders(t) && |Print(lib, ValueOf(lib, t), format, 0)| + 2 <= INT_MAX
            ==> printed != null
  {
    hide Print, CStrings, PrintBuffer.Printed, PrintBuffer.Text, Holds, ValueOf, Renders;
    HoldsName(lib, item, sh, t, space);
    PrintNulFree(lib, ValueOf(lib, t), format, 0);
    if !grants(DEFAULT_BUFFER_SIZE) {
      return null;
    }
    var block := Allocate(DEFAULT_BUFFER_SIZE);
    var p := new PrintBuffer(lib, format, false, grants, block);
    NothingYet(p);
    var ok := p.PrintValue(item, sh, t, space);
    if !ok {
      return null;
    }
    ghost var text := Print(lib, ValueOf(lib, t), format, 0);
    WholeText(p, text);
    p.UpdateOffset([], text);
    OffsetIsLength(p, text);
    if !grants(p.offset + 1) {
      return null;
    }
    printed := PrintBuffer.Reallocate(p.buffer, p.offset + 1);
  }

  /** `cJSON_PrintBuffered`: a buffer grown from any initial size holds the same C string. */
  method PrintBuffered(lib: Lib, item: Node, prebuffer: int, format: bool, grants: nat -> bool, ghost sh: Shape,
    ghost t: Tree, ghost space: set<Node>)
    returns (printed: array?<byte>)
    requires Holds(item, sh, t, space) && prebuffer <= INT_MAX
    ensures prebuffer < 0 || !grants(prebuffer) ==> printed == null
    ensures printed != null ==>
              && fresh(printed) && Renders(t) && |Print(lib, ValueOf(lib, t), format, 0)| < printed.Length
              && printed[..|Print(lib, ValueOf(lib, t), format, 0)| + 1] == Print(lib, ValueOf(lib, t), format, 0) + [0]
    ensures (forall n :: grants(n)) && prebuffer >= 0 && Renders(t) &&
            |Print(lib, ValueOf(lib, t), format, 0)| + 2 <= INT_MAX
            ==> printed != null
  {
    hide Print, CStrings, PrintBuffer.Printed, PrintBuffer.Text, Holds, ValueOf, Renders;
    if prebuffer < 0 || !grants(prebuffer) {
      return null;
    }
    var block := Allocate(prebuffer);
    var p := new PrintBuffer(lib, format, false, grants, block);
    NothingYet(p);
    var ok := p.PrintValue(item, sh, t, space);
    if !ok {
      return null;
    }
    WholeText(p, Print(lib, ValueOf(lib, t), format, 0));
    printed := p.buffer;
  }

  /** `cJSON_PrintPreallocated`: it succeeds exactly when the caller's buffer has two bytes more than the text is long,
      and then leaves the same C string there. */
  method PrintPreallocated(lib: Lib, item: Node, buffer: array<byte>, format: bool, ghost sh: Shape, ghost t: Tree,
    ghost space: set<Node>)
    returns (ok: bool)
    requires Holds(item, sh, t, space) && buffer.Length <= INT_MAX
    modifies buffer
    ensures ok <==> Renders(t) && |Print(lib, ValueOf(lib, t), format, 0)| + 2 <= buffer.Length
    ensures ok ==> buffer[..|Print(lib, ValueOf(lib, t), format, 0)| + 1] == Print(lib, ValueOf(lib, t), format, 0) + [0]
  {
    hide Print, CStrings, PrintBuffer.Printed, PrintBuffer.Text, Holds, ValueOf, Renders;
    var never := (n: nat) => false;
    var p := new PrintBuffer(lib, format, true, never, buffer);
    NothingYet(p);
    ok := p.PrintValue(item, sh, t, space);
    if ok {
      WholeText(p, Print(lib, ValueOf(lib, t), format, 0));
    }
  }
}
