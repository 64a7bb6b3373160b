/** cJSON's parser over a `parse_buffer` (cJSON.c:287-294): its methods move the offset and the nesting depth, do on every
    input what CJsonGrammar says, and build the tree as linked nodes. `allocations` is how many blocks can still be had. */
module CJsonParser {
  import opened Bytes
  import opened CJsonUtf16
  import opened CJsonString
  import opened CJsonText
  import opened CJsonGrammar
  import CJsonTree
  import opened CJsonNodes
  import opened CJsonShapes
  import opened CJsonLinking
  import opened CJsonBuilt

  class ParseBuffer {
    const lib: Lib
    const content: bytes
    var offset: nat
    var depth: nat
    var allocations: nat

    constructor (lib: Lib, content: bytes, allocations: nat)
      ensures this.lib == lib && this.content == content && offset == 0 && depth == 0 && this.allocations == allocations
    {
      this.lib, this.content, offset, depth, this.allocations := lib, content, 0, 0, allocations;
    }

    /** What a method reports, read as a result of the grammar: the value and the offset, or the error offset. */
    ghost function Outcome<T>(ok: bool, value: T): Parse<T>
      reads this
    {
      if ok then Ok(value, offset) else Err(offset)
    }

    /** A method that wants `need(value)` blocks does what the grammar says, unless it `starved`: then it failed, and the
        blocks there were would not have done for the value. */
    ghost predicate Follows<T>(r: Parse<T>, ok: bool, value: T, starved: bool, had: nat, need: T -> nat)
      reads this
    {
      if starved then !ok && (r.Ok? ==> had < need(r.value))
      else r == Outcome(ok, value) && (ok ==> had == allocations + need(value))
    }

    predicate CanAccess(index: nat)
      reads this
    {
      offset + index < |content|
    }

    method SkipWhitespace()
      modifies this`offset
      ensures offset == SkipWs(content, old(offset))
    {
      if !CanAccess(0) {
        return;
      }
      while CanAccess(0) && content[offset] <= 32
        invariant old(offset) <= offset <= |content|
        invariant SkipBlank(content, offset) == SkipBlank(content, old(offset))
        decreases |content| - offset
      {
        offset := offset + 1;
      }
      if offset == |content| {
        offset := offset - 1;
      }
    }

    /** The bytes `strtod` gets to see: a bounded copy of the run of number bytes. */
    method CopyNumber() returns (text: bytes)
      requires offset <= |content|
      ensures text == NumberRun(content, offset, NUMBER_ROOM)
    {
      hide NUMBER_ROOM;
      text := [];
      var i := 0;
      while i < NUMBER_ROOM && CanAccess(i) && NumberByte(content[offset + i])
        invariant 0 <= i <= NUMBER_ROOM && offset + i <= |content|
        invariant text + NumberRun(content, offset + i, NUMBER_ROOM - i) == NumberRun(content, offset, NUMBER_ROOM)
      {
        Associate(text, [content[offset + i]], NumberRun(content, offset + i + 1, NUMBER_ROOM - i - 1));
        text := text + [content[offset + i]];
        i := i + 1;
      }
    }

    method ParseNumberItem(item: Node) returns (ok: bool, ghost value: Json)
      requires offset <= |content|
      modifies this`offset, item`kind, item`valueint, item`valuedouble
      ensures Outcome(ok, value) == ParseNumber(lib, content, old(offset))
      ensures ok ==>
                && value == Number(item.valuedouble) && item.valueint == ValueInt(item.valuedouble)
                && item.kind == CJsonTree.Kind.Number
      ensures !ok ==> unchanged(item)
    {
      hide NumberRun;
      var text := CopyNumber();
      var (number, used) := lib.strtod(text);
      if used == 0 {
        return false, Null;
      }
      item.valuedouble := number;
      if number >= INT_MAX as real {
        item.valueint := INT_MAX;
      } else if number <= INT_MIN as real {
        item.valueint := INT_MIN;
      } else {
        item.valueint := if number >= 0.0 then number.Floor else -((-number).Floor);
      }
      item.kind := CJsonTree.Kind.Number;
      offset := offset + used;
      return true, Number(number);
    }

    /** The literal at the offset (the end of the text counts as no quote), decoded into a fresh buffer whose size the
        first pass computes. Every write of the second pass is inside that buffer, for all contents. */
    method ParseStringItem(item: Node) returns (ok: bool, ghost text: bytes, ghost starved: bool)
      requires offset <= |content|
      modifies this`offset, this`allocations, item`kind, item`valuestring
      ensures Follows(ParseString(content, old(offset)), ok, text, starved, old(allocations), TextNeed)
      ensures ok ==> item.kind == CJsonTree.Kind.String && item.valuestring == Some(CStr(text))
    {
      hide Pairs;
      text, starved := [], false;
      var start := offset + 1;
      if offset == |content| || content[offset] != QUOTE {
        offset := start;
        return false, text, false;
      }
      var closed, inputEnd, skippedBytes := ScanString(start);
      if !closed {
        offset := start;
        return false, text, false;
      }
      NoPairs(start);
      Room(content, start, start, inputEnd, 0);
      var allocationLength := inputEnd - offset - skippedBytes;
      if allocations == 0 {
        offset := start;
        return false, text, true;
      }
      allocations := allocations - 1;
      var output := new byte[allocationLength + 1];
      var decoded, inputPointer, length := DecodeString(start, inputEnd, output);
      if !decoded {
        offset := inputPointer;
        return false, text, false;
      }
      output[length] := 0;
      item.kind := CJsonTree.Kind.String;
      item.valuestring := Some(CStr(output[..length]));
      offset := inputEnd + 1;
      return true, output[..length], false;
    }

    /** First pass: the closing quote, and how many bytes escapes will save at least. */
    method ScanString(start: nat) returns (closed: bool, inputEnd: nat, skippedBytes: nat)
      requires start <= |content|
      ensures CloseQuote(content, start) == if closed then Some(inputEnd) else None
      ensures closed ==> start <= inputEnd < |content| && skippedBytes == Pairs(content, start, inputEnd)
    {
      inputEnd, skippedBytes := start, 0;
      while inputEnd < |content| && content[inputEnd] != QUOTE
        invariant start <= inputEnd <= |content|
        invariant CloseQuote(content, start) == CloseQuote(content, inputEnd)
        invariant forall q | inputEnd <= q <= |content| ::
          Pairs(content, start, q) == skippedBytes + Pairs(content, inputEnd, q)
        decreases |content| - inputEnd
      {
        if content[inputEnd] == BACKSLASH {
          if inputEnd + 1 >= |content| {
            return false, inputEnd, skippedBytes;
          }
          skippedBytes := skippedBytes + 1;
          inputEnd := inputEnd + 1;
        }
        inputEnd := inputEnd + 1;
      }
      closed := inputEnd < |content|;
    }

    /** Second pass. */
    method DecodeString(start: nat, inputEnd: nat, output: array<byte>)
      returns (decoded: bool, inputPointer: nat, length: nat)
      requires start <= inputEnd < |content| && content[inputEnd] == QUOTE
      requires output.Length == inputEnd + 1 - start - Pairs(content, start, inputEnd) + 1
      modifies output
      ensures if decoded
              then length < output.Length && Unescape(content, start, inputEnd) == Ok(output[..length], inputPointer)
              else Unescape(content, start, inputEnd) == Err(inputPointer)
    {
      hide Utf8, Literal, SimpleEscape, Pairs;
      inputPointer, length := start, 0;
      NoPairs(start);
      Room(content, start, start, inputEnd, 0);
      assert output[..0] == [];
      EmptyPrefix(Unescape(content, start, inputEnd));
      while inputPointer < inputEnd
        invariant start <= inputPointer <= inputEnd + 1
        invariant length <= inputPointer - start -
                            Pairs(content, start, if inputPointer <= inputEnd then inputPointer else inputEnd)
        invariant length < output.Length
        invariant Unescape(content, start, inputEnd) ==
                  Prepend(output[..length], Unescape(content, inputPointer, inputEnd))
        decreases inputEnd + 1 - inputPointer
      {
        ghost var p, before := inputPointer, output[..length];
        StepFits(content, start, p, inputEnd);
        if content[inputPointer] != BACKSLASH {
          output[length] := content[inputPointer];
          length, inputPointer := length + 1, inputPointer + 1;
          PrependTwice(before, [content[p]], Unescape(content, inputPointer, inputEnd));
          assert output[..length] == before + [content[p]];
        } else {
          var simple := SimpleEscape(content[inputPointer + 1]);
          if simple.Some? {
            output[length] := simple.value;
            length, inputPointer := length + 1, inputPointer + 2;
            PrependTwice(before, [simple.value], Unescape(content, inputPointer, inputEnd));
            assert output[..length] == before + [simple.value];
          } else if content[inputPointer + 1] == LOWER_U {
            var sequenceLength;
            LiteralRoom(start, p, inputEnd, length);
            sequenceLength, length := Utf16LiteralToUtf8(content, inputPointer, inputEnd, output, length);
            if sequenceLength == 0 {
              return false, inputPointer, length;
            }
            inputPointer := inputPointer + sequenceLength;
            ghost var code := Utf8(Literal(content, p, inputEnd).value.0);
            PrependTwice(before, code, Unescape(content, inputPointer, inputEnd));
            assert output[..length] == before + code;
          } else {
            return false, inputPointer, length;
          }
        }
        Room(content, start, inputPointer, inputEnd, length);
      }
      assert output[..length] + [] == output[..length];
      decoded := true;
    }

    lemma NoPairs(start: nat)
      requires start <= |content|
      ensures Pairs(content, start, start) == 0
    {
    }

    /** The bytes of the scalar fit as well. */
    lemma LiteralRoom(start: nat, p: nat, end: nat, length: nat)
      requires start <= p < end < |content| && length <= p - start - Pairs(content, start, p)
      ensures Literal(content, p, end).Some? ==>
                length + |Utf8(Literal(content, p, end).value.0)| < end + 1 - start - Pairs(content, start, end) + 1
    {
      hide Literal, Utf8, Pairs;
      StepFits(content, start, p, end);
      if Literal(content, p, end).Some? {
        Room(content, start, p + Literal(content, p, end).value.1, end, length + |Utf8(Literal(content, p, end).value.0)|);
      }
    }

    lemma EmptyPrefix(r: Parse<bytes>)
      ensures Prepend([], r) == r
    {
      assert r.Ok? ==> [] + r.value == r.value;
    }

    // ---------- values ----------

    /** Whether the four or five bytes of a literal can be read here and are there. */
    method SeesText(text: bytes) returns (r: bool)
      ensures r == At(content, offset, text)
    {
      r := offset + |text| <= |content| && content[offset..offset + |text|] == text;
    }

    /** `item` is as `cJSON_New_Item` made it, but for its name. */
    ghost predicate Blank(item: Node)
      reads item
    {
      && item.child == null && item.valuestring == None && item.valueint == 0 && item.valuedouble == 0.0
      && !item.stringIsConst
    }

    /** `item` owns the fresh nodes below it and holds `value`. */
    ghost predicate Holds(item: Node, kids: seq<Shape>, value: Json)
      reads item, NodesOf(kids)
    {
      Owned(Shape(item, kids)) && Content(Shape(item, kids)) == TreeOf(value, item.name)
    }

    /** `parse_value` */
    method ParseValueItem(item: Node)
      returns (ok: bool, ghost value: Json, ghost kids: seq<Shape>, ghost below: set<Node>, ghost starved: bool)
      requires offset <= |content| && Blank(item)
      modifies this`offset, this`depth, this`allocations,
               item`kind, item`valueint, item`valuedouble, item`valuestring, item`child
      ensures Follows(ParseValue(lib, content, old(offset), old(depth)), ok, value, starved, old(allocations), Inner)
      ensures ok ==> depth == old(depth) && Holds(item, kids, value) && NodesOf(kids) == below && fresh(below)
      decreases |content| - offset, 1
    {
      hide At, CStr, Inner, TreeOf, NodesOf, ParseArray, ParseObject, ParseNumber, ParseString, Holds;
      value, kids, below, starved := Null, [], {}, false;
      InnerOfLeaves(0.0, []);
      NoNodes(item);
      var b := SeesText(NULL_TEXT);
      if b {
        item.kind := CJsonTree.Kind.NULL;
        offset := offset + 4;
        HoldsLeaf(item, Null);
        return true, Null, [], {}, false;
      }
      b := SeesText(FALSE_TEXT);
      if b {
        item.kind := CJsonTree.Kind.False;
        offset := offset + 5;
        HoldsLeaf(item, False);
        return true, False, [], {}, false;
      }
      b := SeesText(TRUE_TEXT);
      if b {
        item.kind := CJsonTree.Kind.True;
        item.valueint := 1;
        offset := offset + 4;
        HoldsLeaf(item, True);
        return true, True, [], {}, false;
      }
      if CanAccess(0) && content[offset] == QUOTE {
        ghost var text;
        ok, text, starved := ParseStringItem(item);
        value := String(CStr(text));
        InnerOfLeaves(0.0, CStr(text));
        if ok {
          HoldsLeaf(item, value);
        }
        StringNeeds(ParseString(content, old(offset)));
        return;
      }
      if CanAccess(0) && (content[offset] == 45 || 48 <= content[offset] <= 57) {
        ok, value := ParseNumberItem(item);
        if ok {
          InnerOfLeaves(item.valuedouble, []);
          HoldsLeaf(item, value);
        }
        return;
      }
      if CanAccess(0) && content[offset] == OPEN_ARRAY {
        ok, value, kids, below, starved := ParseArrayItem(item);
        return;
      }
      if CanAccess(0) && content[offset] == OPEN_OBJECT {
        ok, value, kids, below, starved := ParseObjectItem(item);
        return;
      }
      return false, value, [], {}, false;
    }

    lemma NoNodes(item: Node)
      ensures NodesOf([]) == {}
    {
    }

    lemma StringNeeds(r: Parse<bytes>)
      ensures r.Ok? ==> Inner(String(CStr(r.value))) == 1 == TextNeed(r.value)
    {
      hide Inner;
      if r.Ok? {
        InnerOfLeaves(0.0, CStr(r.value));
      }
    }

    lemma HoldsLeaf(item: Node, value: Json)
      requires item.child == null && !item.stringIsConst && IsLeaf(item, value)
      ensures Holds(item, [], value)
    {
    }

    /** The fields of a node that holds a value without children. */
    ghost predicate IsLeaf(item: Node, value: Json)
      reads item
    {
      match value
      case Null => item.kind == CJsonTree.Kind.NULL && Plain(item, 0, 0.0, None)
      case False => item.kind == CJsonTree.Kind.False && Plain(item, 0, 0.0, None)
      case True => item.kind == CJsonTree.Kind.True && Plain(item, 1, 0.0, None)
      case Number(d) => item.kind == CJsonTree.Kind.Number && Plain(item, ValueInt(d), d, None)
      case String(text) => item.kind == CJsonTree.Kind.String && Plain(item, 0, 0.0, Some(text))
      case _ => false
    }

    ghost predicate Plain(item: Node, valueint: int, valuedouble: real, valuestring: Option<bytes>)
      reads item
    {
      item.valueint == valueint && item.valuedouble == valuedouble && item.valuestring == valuestring
    }

    /** `parse_array` */
    method ParseArrayItem(item: Node)
      returns (ok: bool, ghost value: Json, ghost kids: seq<Shape>, ghost below: set<Node>, ghost starved: bool)
      requires offset < |content| && content[offset] == OPEN_ARRAY && Blank(item)
      modifies this`offset, this`depth, this`allocations, item`kind, item`child
      ensures Follows(ParseArray(lib, content, old(offset), old(depth)), ok, value, starved, old(allocations), Inner)
      ensures ok ==> depth == old(depth) && Holds(item, kids, value) && NodesOf(kids) == below && fresh(below)
      decreases |content| - offset, 0
    {
      hide SkipWs, ParseValue, ParseItems, Inner, ItemsNeed, TreeOf, ItemTrees, Holds, Growing, NodesOf, Contents, AllOwned;
      hide Apart, Chain, BackLinks, Distinct, Roots, LastRoot, Owned, Content, Nodes, ParseArray, Blank, At;
      ghost var o := offset;
      ArrayCases(o, depth);
      value, kids, below, starved := Null, [], {}, false;
      NoNodes(item);
      NoTrees();
      InnerOfLists([], []);
      if depth >= NESTING_LIMIT {
        return false, Null, [], {}, false;
      }
      var head, currentItem: Node? := null, null;
      ghost var items: seq<Json> := [];
      depth := depth + 1;
      offset := offset + 1;
      SkipWhitespace();
      if !CanAccess(0) || content[offset] != CLOSE_ARRAY {
        if !CanAccess(0) {
          offset := offset - 1;
          return false, Null, [], {}, false;
        }
        ghost var r := ParseItems(lib, content, o, depth);
        if r.Ok? {
          InnerOfLists(r.value, []);
        }
        ok, head, currentItem, items, kids, below, starved := ArrayElements(o);
        if !ok {
          return false, Null, [], {}, starved;
        }
      } else {
        EmptyGrowing();
      }
      depth := depth - 1;
      value := Array(items);
      CloseArray(item, head, currentItem, items, kids, below);
      offset := offset + 1;
      ok := true;
    }

    /** From behind the blanks to the closing bracket. */
    method ArrayElements(ghost o: nat)
      returns (ok: bool, head: Node?, currentItem: Node?, ghost items: seq<Json>, ghost kids: seq<Shape>,
               ghost below: set<Node>, ghost starved: bool)
      requires o + 1 < |content| && offset == SkipWs(content, o + 1) < |content|
      modifies this`offset, this`depth, this`allocations
      ensures Follows(ItemsClosed(ParseItems(lib, content, o, old(depth))), ok, items, starved, old(allocations), ItemsNeed)
      ensures ok ==>
                && depth == old(depth) && Growing(head, kids) && Contents(kids) == ItemTrees(items)
                && NodesOf(kids) == below && fresh(below) && currentItem == LastRoot(kids)
      decreases |content| - o - 1, 4
    {
      hide SkipWs, ParseValue, ParseItems, ItemsNeed, ItemTrees, Growing, NodesOf, Contents, LastRoot;
      SkipTwice(content, o + 1);
      offset := offset - 1;
      SameItems(o, offset, depth);
      ok, head, currentItem, items, kids, below, starved := ParseItemsLoop();
      if ok && (!CanAccess(0) || content[offset] != CLOSE_ARRAY) {
        ok := false;
      }
    }

    ghost function ItemsClosed(r: Parse<seq<Json>>): Parse<seq<Json>> {
      match r
      case Err(at) => Err(at)
      case Ok(items, at) => if Sees(content, at, CLOSE_ARRAY) then Ok(items, at) else Err(at)
    }

    lemma ArrayCases(o: nat, level: nat)
      requires o < |content|
      ensures
        var at := SkipWs(content, o + 1);
        ParseArray(lib, content, o, level) ==
          if level >= NESTING_LIMIT then Err(o)
          else if Sees(content, at, CLOSE_ARRAY) then Ok(Array([]), at + 1)
          else if o + 1 == |content| then Err(o)
          else ArrayOf(ParseItems(lib, content, o, level + 1))
    {
      hide SkipWs, ParseItems;
    }

    ghost function ArrayOf(r: Parse<seq<Json>>): Parse<Json> {
      match r
      case Err(at) => Err(at)
      case Ok(items, at) => if Sees(content, at, CLOSE_ARRAY) then Ok(Array(items), at + 1) else Err(at)
    }

    /** The list is closed and becomes the item's. */
    method CloseArray(item: Node, head: Node?, currentItem: Node?, ghost items: seq<Json>, ghost kids: seq<Shape>,
      ghost below: set<Node>)
      requires Growing(head, kids) && currentItem == LastRoot(kids) && Contents(kids) == ItemTrees(items)
      requires NodesOf(kids) == below && item !in below && Blank(item)
      modifies item`kind, item`child, below`prev
      ensures Holds(item, kids, Array(items)) && NodesOf(kids) == below
    {
      hide Growing, NodesOf, Contents, AllOwned, Apart, Chain, BackLinks, Distinct, Roots, LastRoot, Holds, ItemTrees;
      LastRootIs(kids);
      CloseList(head, currentItem, kids);
      item.kind := CJsonTree.Kind.Array;
      item.child := head;
      HoldsArray(item, kids, items);
    }

    lemma HoldsArray(item: Node, kids: seq<Shape>, items: seq<Json>)
      requires Chain(item.child, Roots(kids)) && BackLinks(Roots(kids)) && Distinct(Roots(kids))
      requires AllOwned(kids) && Apart(kids) && item !in NodesOf(kids) && Contents(kids) == ItemTrees(items)
      requires item.kind == CJsonTree.Kind.Array && Plain(item, 0, 0.0, None) && !item.stringIsConst
      ensures Holds(item, kids, Array(items))
    {
      hide Chain, BackLinks, Distinct, AllOwned, Apart, NodesOf, ItemTrees, Contents;
      OwnedParts(item, kids);
    }

    /** The elements depend on where the bracket or comma stood only through the first byte behind the blanks. */
    lemma SameItems(o: nat, o': nat, level: nat)
      requires o < |content| && o' < |content| && SkipWs(content, o + 1) == SkipWs(content, o' + 1)
      ensures ParseItems(lib, content, o, level) == ParseItems(lib, content, o', level)
      ensures ParseMembers(lib, content, o, level) == ParseMembers(lib, content, o', level)
    {
      hide SkipWs, ParseValue, ParseString;
    }

    /** The do-while loop over comma separated elements. */
    method ParseItemsLoop()
      returns (ok: bool, head: Node?, currentItem: Node?, ghost items: seq<Json>, ghost kids: seq<Shape>,
               ghost below: set<Node>, ghost starved: bool)
      requires offset < |content|
      modifies this`offset, this`depth, this`allocations
      ensures Follows(ParseItems(lib, content, old(offset), old(depth)), ok, items, starved, old(allocations), ItemsNeed)
      ensures ok ==>
                && depth == old(depth) && Growing(head, kids) && Contents(kids) == ItemTrees(items)
                && NodesOf(kids) == below && fresh(below) && currentItem == LastRoot(kids)
      decreases |content| - offset - 1, 3
    {
      hide SkipWs, ParseValue, ParseItems, Inner, ItemsNeed, TreeOf, ItemTrees, Growing, NodesOf, Contents, Roots, LastRoot;
      head, currentItem, items, kids, below, starved := null, null, [], [], {}, false;
      ghost var had, whole := allocations, ParseItems(lib, content, offset, depth);
      NoTrees();
      EmptyGrowing();
      ghost var roots: seq<Node> := [];
      var more := true;
      ConcatStep([], Null, whole);
      while more
        invariant old(offset) <= offset <= |content| && depth == old(depth)
        invariant more ==> offset < |content|
        invariant whole == if more then Concat(items, ParseItems(lib, content, offset, depth)) else Ok(items, offset)
        invariant had == allocations + ItemsNeed(items) && !starved
        invariant Growing(head, kids) && Contents(kids) == ItemTrees(items) && NodesOf(kids) == below && fresh(below)
        invariant roots == Roots(kids) && currentItem == LastRoot(kids) && NodesIn(currentItem) <= below
        decreases |content| - offset, more
      {
        ItemsStep(offset, depth);
        ghost var front, rest := items, ParseItems(lib, content, offset, depth);
        ghost var r := ParseValue(lib, content, SkipWs(content, offset + 1), depth);
        assert rest.Ok? ==> r.Ok? && rest.value[0] == r.value;
        StarvedItems(front, rest, whole);
        ghost var current;
        ok, head, currentItem, current, kids, roots, below, starved := NextItem(head, currentItem, kids, roots, below);
        if !ok {
          return false, null, null, items, kids, below, starved;
        }
        AppendItemTree(items, current);
        items := items + [current];
        SkipWhitespace();
        more := CanAccess(0) && content[offset] == COMMA;
        if more {
          ConcatStep(front, current, ParseItems(lib, content, offset, depth));
        }
      }
      ok := true;
    }

    /** What does not do for the next element does not do for the list. */
    lemma StarvedItems(front: seq<Json>, rest: Parse<seq<Json>>, whole: Parse<seq<Json>>)
      requires whole == Concat(front, rest) && (rest.Ok? ==> rest.value != [])
      ensures whole.Ok? ==> rest.Ok? && ItemsNeed(whole.value) >= ItemsNeed(front) + ItemNeed(rest.value[0])
    {
      hide ItemsNeed;
      if rest.Ok? {
        MoreItemsCost(front, rest.value);
      }
    }

    /** One round of the loop: a new node is linked behind the last, then its value is parsed. */
    method NextItem(head: Node?, currentItem: Node?, ghost kids: seq<Shape>, ghost roots: seq<Node>, ghost below: set<Node>)
      returns (ok: bool, newHead: Node?, newItem: Node?, ghost value: Json, ghost newKids: seq<Shape>,
               ghost newRoots: seq<Node>, ghost newBelow: set<Node>, ghost starved: bool)
      requires offset < |content| && Growing(head, kids) && roots == Roots(kids) && NodesOf(kids) == below
      requires currentItem == LastRoot(kids)
      modifies this`offset, this`depth, this`allocations, NodesIn(currentItem)`next
      ensures Follows(ParseValue(lib, content, SkipWs(content, old(offset) + 1), old(depth)), ok, value, starved,
                      old(allocations), ItemNeed)
      ensures ok ==>
                && depth == old(depth) && Growing(newHead, newKids) && newItem == LastRoot(newKids)
                && newRoots == Roots(newKids) && Contents(newKids) == old(Contents(kids)) + [TreeOf(value, None)]
                && NodesOf(newKids) == newBelow && fresh(newBelow - below) && newItem in newBelow
      decreases |content| - offset - 1, 2
    {
      hide SkipWs, ParseValue, Inner, TreeOf, Holds, Growing, NodesOf, Contents, Nodes, AllOwned, Apart, Chain;
      hide BackLinksOpen, Owned, Content, Roots, LastRoot, Blank, NodeAt;
      newHead, newItem, value, newKids, newRoots, newBelow, starved := head, null, Null, kids, roots, below, false;
      if allocations == 0 {
        return false, head, null, Null, kids, roots, below, true;
      }
      allocations := allocations - 1;
      ghost var before := Contents(kids);
      newHead, newItem := AttachNew(head, currentItem, kids, roots, below);
      newRoots := roots + [newItem];
      offset := offset + 1;
      SkipWhitespace();
      ghost var sub, under;
      ok, value, sub, under, starved := ParseValueItem(newItem);
      if ok {
        AppendGrown(newHead, kids, newItem, sub, value);
        newKids := kids + [Shape(newItem, sub)];
        newBelow := below + {newItem} + under;
      }
    }

    /** A new node behind the last. */
    method AttachNew(head: Node?, currentItem: Node?, ghost kids: seq<Shape>, ghost roots: seq<Node>, ghost below: set<Node>)
      returns (newHead: Node?, newItem: Node)
      requires Growing(head, kids) && roots == Roots(kids) && NodesOf(kids) == below && currentItem == LastRoot(kids)
      modifies NodesIn(currentItem)`next
      ensures fresh(newItem) && Blank(newItem) && newItem.name == None
      ensures Chain(newHead, roots + [newItem]) && BackLinksOpen(roots + [newItem]) && AllOwned(kids) && Apart(kids)
      ensures Contents(kids) == old(Contents(kids)) && roots == Roots(kids) && NodesOf(kids) == below
    {
      hide Growing, NodesOf, Contents, Nodes, AllOwned, Apart, Chain, BackLinksOpen, Owned, Content, Roots;
      newItem := new Node();
      ghost var blank := Shape(newItem, []);
      BlankTree(newItem);
      ghost var before, whole := Contents(kids), Contents(kids) + [Content(blank)];
      assert whole[..|kids|] == before;
      newHead := AttachItem(head, currentItem, newItem, kids, blank);
      GrowingParts(newHead, kids, blank);
      assert (Contents(kids) + [Content(blank)])[..|kids|] == Contents(kids);
    }

    lemma LastRootIs(kids: seq<Shape>)
      ensures LastRoot(kids) == if kids == [] then null else kids[|kids| - 1].node
    {
    }

    ghost function LastRoot(kids: seq<Shape>): Node? {
      if kids == [] then null else kids[|kids| - 1].node
    }

    lemma EmptyGrowing()
      ensures Growing(null, []) && Contents([]) == [] && NodesOf([]) == {} && Roots([]) == [] && LastRoot([]) == null
    {
    }

    lemma BlankTree(n: Node)
      requires n.child == null
      ensures Owned(Shape(n, [])) && Nodes(Shape(n, [])) == {n}
    {
    }

    lemma GrowingParts(head: Node?, kids: seq<Shape>, blank: Shape)
      requires Growing(head, kids + [blank]) && blank == Shape(blank.node, []) && blank.node.child == null
      ensures Chain(head, Roots(kids) + [blank.node]) && BackLinksOpen(Roots(kids) + [blank.node])
      ensures AllOwned(kids) && Apart(kids) && Contents(kids + [blank]) == Contents(kids) + [Content(blank)]
    {
      hide Chain, BackLinksOpen, Owned, Nodes, NodesOf, Content;
      var all := kids + [blank];
      assert forall i | 0 <= i < |kids| :: all[i] == kids[i];
      assert Roots(all) == Roots(kids) + [blank.node];
      AppendContents(kids, blank);
    }

    lemma AppendGrown(head: Node?, kids: seq<Shape>, item: Node, sub: seq<Shape>, value: Json)
      requires Chain(head, Roots(kids) + [item]) && BackLinksOpen(Roots(kids) + [item]) && AllOwned(kids) && Apart(kids)
      requires NodesOf(kids) !! NodesOf(sub) && item !in NodesOf(kids) && Holds(item, sub, value)
      ensures var all := kids + [Shape(item, sub)];
              && Growing(head, all) && NodesOf(all) == NodesOf(kids) + {item} + NodesOf(sub)
              && Roots(all) == Roots(kids) + [item] && LastRoot(all) == item
              && Contents(all) == Contents(kids) + [TreeOf(value, item.name)]
    {
      hide Chain, BackLinksOpen, Owned, Nodes, NodesOf, Content, Contents, AllOwned, Apart, TreeOf, Roots;
      var kid := Shape(item, sub);
      WholeTree(item, sub);
      AppendNodes(kids, kid);
      AppendApart(kids, kid);
      AppendOwned(kids, kid);
      AppendContents(kids, kid);
    }

    lemma ItemsStep(o: nat, level: nat)
      requires o < |content|
      ensures
        var r := ParseValue(lib, content, SkipWs(content, o + 1), level);
        ParseItems(lib, content, o, level) ==
          if r.Err? then Err(r.at)
          else if Sees(content, SkipWs(content, r.next), COMMA) then
            Concat([r.value], ParseItems(lib, content, SkipWs(content, r.next), level))
          else Ok([r.value], SkipWs(content, r.next))
    {
      hide SkipWs, ParseValue;
    }

    /** `parse_object` */
    method ParseObjectItem(item: Node)
      returns (ok: bool, ghost value: Json, ghost kids: seq<Shape>, ghost below: set<Node>, ghost starved: bool)
      requires offset < |content| && content[offset] == OPEN_OBJECT && Blank(item)
      modifies this`offset, this`depth, this`allocations, item`kind, item`child
      ensures Follows(ParseObject(lib, content, old(offset), old(depth)), ok, value, starved, old(allocations), Inner)
      ensures ok ==> depth == old(depth) && Holds(item, kids, value) && NodesOf(kids) == below && fresh(below)
      decreases |content| - offset, 0
    {
      hide SkipWs, ParseValue, ParseMembers, Inner, MembersNeed, TreeOf, MemberTrees, Holds, Growing, NodesOf, Contents;
      hide Apart, AllOwned, Chain, BackLinks, Distinct, Roots, LastRoot, Owned, Content, Nodes, ParseObject, Blank, At;
      ghost var o := offset;
      ObjectCases(o, depth);
      value, kids, below, starved := Null, [], {}, false;
      NoNodes(item);
      NoTrees();
      InnerOfLists([], []);
      if depth >= NESTING_LIMIT {
        return false, Null, [], {}, false;
      }
      var head, currentItem: Node? := null, null;
      ghost var members: seq<Member> := [];
      depth := depth + 1;
      offset := offset + 1;
      SkipWhitespace();
      if !CanAccess(0) || content[offset] != CLOSE_OBJECT {
        if !CanAccess(0) {
          offset := offset - 1;
          return false, Null, [], {}, false;
        }
        ghost var r := ParseMembers(lib, content, o, depth);
        if r.Ok? {
          InnerOfLists([], r.value);
        }
        ok, head, currentItem, members, kids, below, starved := ObjectElements(o);
        if !ok {
          return false, Null, [], {}, starved;
        }
      } else {
        EmptyGrowing();
      }
      depth := depth - 1;
      value := Object(members);
      CloseObject(item, head, currentItem, members, kids, below);
      offset := offset + 1;
      ok := true;
    }

    /** From behind the blanks to the closing bracket. */
    method ObjectElements(ghost o: nat)
      returns (ok: bool, head: Node?, currentItem: Node?, ghost members: seq<Member>, ghost kids: seq<Shape>,
               ghost below: set<Node>, ghost starved: bool)
      requires o + 1 < |content| && offset == SkipWs(content, o + 1) < |content|
      modifies this`offset, this`depth, this`allocations
      ensures Follows(MembersClosed(ParseMembers(lib, content, o, old(depth))), ok, members, starved, old(allocations),
                      MembersNeed)
      ensures ok ==>
                && depth == old(depth) && Growing(head, kids) && Contents(kids) == MemberTrees(members)
                && NodesOf(kids) == below && fresh(below) && currentItem == LastRoot(kids)
      decreases |content| - o - 1, 4
    {
      hide SkipWs, ParseValue, ParseMembers, MembersNeed, MemberTrees, Growing, NodesOf, Contents, LastRoot;
      SkipTwice(content, o + 1);
      offset := offset - 1;
      SameItems(o, offset, depth);
      ok, head, currentItem, members, kids, below, starved := ParseMembersLoop();
      if ok && (!CanAccess(0) || content[offset] != CLOSE_OBJECT) {
        ok := false;
      }
    }

    ghost function MembersClosed(r: Parse<seq<Member>>): Parse<seq<Member>> {
      match r
      case Err(at) => Err(at)
      case Ok(members, at) => if Sees(content, at, CLOSE_OBJECT) then Ok(members, at) else Err(at)
    }

    lemma ObjectCases(o: nat, level: nat)
      requires o < |content|
      ensures
        var at := SkipWs(content, o + 1);
        ParseObject(lib, content, o, level) ==
          if level >= NESTING_LIMIT then Err(o)
          else if Sees(content, at, CLOSE_OBJECT) then Ok(Object([]), at + 1)
          else if o + 1 == |content| then Err(o)
          else ObjectOf(ParseMembers(lib, content, o, level + 1))
    {
      hide SkipWs, ParseMembers;
    }

    ghost function ObjectOf(r: Parse<seq<Member>>): Parse<Json> {
      match r
      case Err(at) => Err(at)
      case Ok(members, at) => if Sees(content, at, CLOSE_OBJECT) then Ok(Object(members), at + 1) else Err(at)
    }

    method CloseObject(item: Node, head: Node?, currentItem: Node?, ghost members: seq<Member>, ghost kids: seq<Shape>,
      ghost below: set<Node>)
      requires Growing(head, kids) && currentItem == LastRoot(kids) && Contents(kids) == MemberTrees(members)
      requires NodesOf(kids) == below && item !in below && Blank(item)
      modifies item`kind, item`child, below`prev
      ensures Holds(item, kids, Object(members)) && NodesOf(kids) == below
    {
      hide Growing, NodesOf, Contents, AllOwned, Apart, Chain, BackLinks, Distinct, Roots, LastRoot, Holds, MemberTrees;
      LastRootIs(kids);
      CloseList(head, currentItem, kids);
      item.kind := CJsonTree.Kind.Object;
      item.child := head;
      HoldsObject(item, kids, members);
    }

    lemma HoldsObject(item: Node, kids: seq<Shape>, members: seq<Member>)
      requires Chain(item.child, Roots(kids)) && BackLinks(Roots(kids)) && Distinct(Roots(kids))
      requires AllOwned(kids) && Apart(kids) && item !in NodesOf(kids) && Contents(kids) == MemberTrees(members)
      requires item.kind == CJsonTree.Kind.Object && Plain(item, 0, 0.0, None) && !item.stringIsConst
      ensures Holds(item, kids, Object(members))
    {
      hide Chain, BackLinks, Distinct, AllOwned, Apart, NodesOf, MemberTrees, Contents;
      OwnedParts(item, kids);
    }

    /** The name and the colon in front of a member's value: the name is parsed as a string value and then moved. */
    method ParseKeyItem(item: Node) returns (ok: bool, ghost key: bytes, ghost starved: bool)
      requires offset < |content| && Blank(item)
      modifies this`offset, this`allocations, item`kind, item`valuestring, item`name
      ensures Follows(ParseKey(content, old(offset)), ok, key, starved, old(allocations), TextNeed)
      ensures ok ==> Blank(item) && item.name == Some(key)
    {
      hide SkipWs, ParseString;
      offset := offset + 1;
      SkipWhitespace();
      ghost var text;
      ok, text, starved := ParseStringItem(item);
      key := CStr(text);
      if !ok {
        return;
      }
      SkipWhitespace();
      item.name := item.valuestring;
      item.valuestring := None;
      if !CanAccess(0) || content[offset] != COLON {
        return false, [], false;
      }
      offset := offset + 1;
      SkipWhitespace();
    }

    /** The do-while loop over comma separated members. */
    method ParseMembersLoop()
      returns (ok: bool, head: Node?, currentItem: Node?, ghost members: seq<Member>, ghost kids: seq<Shape>,
               ghost below: set<Node>, ghost starved: bool)
      requires offset < |content|
      modifies this`offset, this`depth, this`allocations
      ensures Follows(ParseMembers(lib, content, old(offset), old(depth)), ok, members, starved, old(allocations),
                      MembersNeed)
      ensures ok ==>
                && depth == old(depth) && Growing(head, kids) && Contents(kids) == MemberTrees(members)
                && NodesOf(kids) == below && fresh(below) && currentItem == LastRoot(kids)
      decreases |content| - offset - 1, 3
    {
      hide SkipWs, ParseValue, ParseKey, ParseMembers, Inner, MembersNeed, TreeOf, MemberTrees, Growing, NodesOf, Contents;
      hide Roots, LastRoot;
      head, currentItem, members, kids, below, starved := null, null, [], [], {}, false;
      ghost var had, whole := allocations, ParseMembers(lib, content, offset, depth);
      NoTrees();
      EmptyGrowing();
      ghost var roots: seq<Node> := [];
      var more := true;
      ConcatStep([], Member([], Null), whole);
      while more
        invariant old(offset) <= offset <= |content| && depth == old(depth)
        invariant more ==> offset < |content|
        invariant whole == if more then Concat(members, ParseMembers(lib, content, offset, depth)) else Ok(members, offset)
        invariant had == allocations + MembersNeed(members) && !starved
        invariant Growing(head, kids) && Contents(kids) == MemberTrees(members) && NodesOf(kids) == below && fresh(below)
        invariant roots == Roots(kids) && currentItem == LastRoot(kids) && NodesIn(currentItem) <= below
        decreases |content| - offset, more
      {
        MembersStep(offset, depth);
        ghost var front, rest := members, ParseMembers(lib, content, offset, depth);
        StarvedMembers(front, rest, whole);
        ghost var r := MemberAt(offset, depth);
        assert rest.Ok? ==> r.Ok? && rest.value[0] == r.value;
        ghost var member;
        ok, head, currentItem, member, kids, roots, below, starved := NextMember(head, currentItem, kids, roots, below);
        if !ok {
          return false, null, null, members, kids, below, starved;
        }
        AppendMemberTree(members, member);
        members := members + [member];
        SkipWhitespace();
        more := CanAccess(0) && content[offset] == COMMA;
        if more {
          ConcatStep(front, member, ParseMembers(lib, content, offset, depth));
        }
      }
      ok := true;
    }

    lemma StarvedMembers(front: seq<Member>, rest: Parse<seq<Member>>, whole: Parse<seq<Member>>)
      requires whole == Concat(front, rest) && (rest.Ok? ==> rest.value != [])
      ensures whole.Ok? ==> rest.Ok? && MembersNeed(whole.value) >= MembersNeed(front) + MemberNeed(rest.value[0])
    {
      hide MembersNeed;
      if rest.Ok? {
        MoreMembersCost(front, rest.value);
      }
    }

    /** One member: name, colon, value. */
    ghost function MemberAt(o: nat, level: nat): (r: Parse<Member>)
      requires o < |content|
      ensures r.Ok? ==> o < r.next <= |content|
    {
      match ParseKey(content, o)
      case Err(at) => Err(at)
      case Ok(key, start) =>
        match ParseValue(lib, content, start, level)
        case Err(at) => Err(at)
        case Ok(value, next) => Ok(Member(key, value), next)
    }

    lemma MembersStep(o: nat, level: nat)
      requires o < |content|
      ensures
        var r := MemberAt(o, level);
        ParseMembers(lib, content, o, level) ==
          if r.Err? then Err(r.at)
          else if Sees(content, SkipWs(content, r.next), COMMA) then
            Concat([r.value], ParseMembers(lib, content, SkipWs(content, r.next), level))
          else Ok([r.value], SkipWs(content, r.next))
    {
      hide SkipWs, ParseValue, ParseKey;
    }

    /** One round of the loop. */
    method NextMember(head: Node?, currentItem: Node?, ghost kids: seq<Shape>, ghost roots: seq<Node>,
      ghost below: set<Node>)
      returns (ok: bool, newHead: Node?, newItem: Node?, ghost member: Member, ghost newKids: seq<Shape>,
               ghost newRoots: seq<Node>, ghost newBelow: set<Node>, ghost starved: bool)
      requires offset < |content| && Growing(head, kids) && roots == Roots(kids) && NodesOf(kids) == below
      requires currentItem == LastRoot(kids)
      modifies this`offset, this`depth, this`allocations, NodesIn(currentItem)`next
      ensures Follows(MemberAt(old(offset), old(depth)), ok, member, starved, old(allocations), MemberNeed)
      ensures ok ==>
                && depth == old(depth) && Growing(newHead, newKids) && newItem == LastRoot(newKids)
                && newRoots == Roots(newKids)
                && Contents(newKids) == old(Contents(kids)) + [TreeOf(member.value, Some(member.key))]
                && NodesOf(newKids) == newBelow && fresh(newBelow - below) && newItem in newBelow
      decreases |content| - offset - 1, 2
    {
      hide SkipWs, ParseValue, ParseKey, Inner, TreeOf, Holds, Growing, NodesOf, Contents, Nodes, AllOwned, Apart, Chain;
      hide BackLinksOpen, Owned, Content, Roots, LastRoot, CStr, Blank, NodeAt;
      newHead, newItem, member, starved := head, null, Member([], Null), false;
      newKids, newRoots, newBelow := kids, roots, below;
      if allocations == 0 {
        return false, head, null, member, kids, roots, below, true;
      }
      allocations := allocations - 1;
      newHead, newItem := AttachNew(head, currentItem, kids, roots, below);
      newRoots := roots + [newItem];
      ghost var key, value, sub, under;
      ok, key, starved := ParseKeyItem(newItem);
      if !ok {
        return;
      }
      ok, value, sub, under, starved := ParseValueItem(newItem);
      if ok {
        member := Member(key, value);
        AppendGrown(newHead, kids, newItem, sub, value);
        newKids := kids + [Shape(newItem, sub)];
        newBelow := below + {newItem} + under;
      }
    }
  }

  /** `cJSON_ParseWithLengthOpts`: the tree, and where the JSON text ended or the error was found. The tree is made of new
      nodes, each at one place and properly linked, and holds the value of the grammar; that a text is refused although
      it is in order happens exactly if it takes more blocks than there are. */
  method ParseWithLengthOpts(lib: Lib, value: bytes, requireNullTerminated: bool, allocations: nat)
    returns (item: Node?, parseEnd: nat, ghost kids: seq<Shape>, ghost nodes: set<Node>, ghost starved: bool)
    ensures
      var r := ParseText(lib, value, requireNullTerminated);
      && (item != null <==> r.Ok? && allocations >= Cost(TreeOf(r.value, None)))
      && (item != null ==>
            && parseEnd == r.next && fresh(nodes) && Nodes(Shape(item, kids)) == nodes && Owned(Shape(item, kids))
            && Content(Shape(item, kids)) == TreeOf(r.value, None) && item.next == null && item.prev == null)
      && (item == null && !starved ==> r == Err(parseEnd))
      && (starved ==> item == null && (r.Ok? ==> allocations < Cost(TreeOf(r.value, None))))
  {
    hide ParseValue, SkipWs, Inner, TreeOf, Owned, Content, NodesOf, Nodes, Cost, At, ParseText;
    TextCases(lib, value, requireNullTerminated);
    item, parseEnd, kids, nodes, starved := null, 0, [], {}, false;
    if |value| == 0 {
      return;
    }
    if allocations == 0 {
      return null, ErrorPosition(value, 0), [], {}, true;
    }
    var root := new Node();
    var buffer := new ParseBuffer(lib, value, allocations - 1);
    ghost var tree;
    var ok;
    ghost var below;
    ok, tree, kids, below, starved := ParseRoot(buffer, root);
    RootNeeds(ParseText(lib, value, requireNullTerminated));
    if !ok {
      return null, ErrorPosition(value, buffer.offset), [], {}, starved;
    }
    if requireNullTerminated {
      buffer.SkipWhitespace();
      if !buffer.CanAccess(0) || value[buffer.offset] != 0 {
        return null, ErrorPosition(value, buffer.offset), [], {}, false;
      }
    }
    WholeTree(root, kids);
    return root, buffer.offset, kids, {root} + below, false;
  }

  /** The byte order mark, white space and the value. */
  method ParseRoot(buffer: ParseBuffer, root: Node)
    returns (ok: bool, ghost tree: Json, ghost kids: seq<Shape>, ghost below: set<Node>, ghost starved: bool)
    requires buffer.content != [] && buffer.offset == 0 && buffer.depth == 0 && buffer.Blank(root) && root.name == None
    modifies buffer, root`kind, root`valueint, root`valuedouble, root`valuestring, root`child
    ensures var c := buffer.content;
            buffer.Follows(ParseValue(buffer.lib, c, SkipWs(c, if |c| > 4 && c[..3] == BOM then 3 else 0), 0), ok, tree,
                           starved, old(buffer.allocations), Inner)
    ensures ok ==>
              && Owned(Shape(root, kids)) && Content(Shape(root, kids)) == TreeOf(tree, None)
              && NodesOf(kids) == below && fresh(below)
  {
    hide ParseValue, SkipWs, Inner, TreeOf, Owned, Content, NodesOf, Nodes, ParseBuffer.Follows;
    if buffer.CanAccess(4) && buffer.content[..3] == BOM {
      buffer.offset := 3;
    }
    buffer.SkipWhitespace();
    ok, tree, kids, below, starved := buffer.ParseValueItem(root);
  }

  lemma TextCases(lib: Lib, c: bytes, nulTerminated: bool)
    ensures
      c != [] ==>
        var start := if |c| > 4 && c[..3] == BOM then 3 else 0;
        var r := ParseValue(lib, c, SkipWs(c, start), 0);
        ParseText(lib, c, nulTerminated) ==
          if r.Err? then Err(ErrorPosition(c, r.at))
          else if !nulTerminated then Ok(r.value, r.next)
          else if Sees(c, SkipWs(c, r.next), 0) then Ok(r.value, SkipWs(c, r.next))
          else Err(ErrorPosition(c, SkipWs(c, r.next)))
    ensures c == [] ==> ParseText(lib, c, nulTerminated) == Err(0)
  {
    hide ParseValue, SkipWs;
  }

  lemma RootNeeds(r: Parse<Json>)
    ensures r.Ok? ==> Cost(TreeOf(r.value, None)) == 1 + Inner(r.value)
  {
  }
}
