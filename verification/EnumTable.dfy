/** A table of small values packed into 32-bit words (compressed_enum_table.hpp). */
module EnumTable {

  /** The item widths for which the masks are defined: the divisors of 32 except 32 itself. */
  predicate Width(n: bv6) {
    n == 1 || n == 2 || n == 4 || n == 8 || n == 16
  }

  /** `o` is the bit at which an item starts. */
  predicate Offset(n: bv6, o: bv6) {
    o < 32 && o & (n - 1) == 0
  }

  function Mask(n: bv6): bv32
    requires Width(n)
  {
    (1 << n) - 1
  }

  function GetItem(n: bv6, word: bv32, o: bv6): bv32
    requires Width(n) && Offset(n, o)
  {
    (word >> o) & Mask(n)
  }

  function SetItem(n: bv6, word: bv32, o: bv6, val: bv32): bv32
    requires Width(n) && Offset(n, o)
  {
    (word & !(Mask(n) << o)) | (val << o)
  }

  /** Nothing of `val << o` lies outside the item at `o`. */
  predicate StaysInside(n: bv6, o: bv6, val: bv32)
    requires Width(n) && Offset(n, o)
  {
    val << o == (val & Mask(n)) << o
  }

  lemma GetAfterSet(n: bv6, word: bv32, o: bv6, val: bv32)
    requires Width(n) && Offset(n, o)
    ensures GetItem(n, SetItem(n, word, o, val), o) == val & Mask(n)
  {
    Cleared(n, word, o);
    Shifted(n, o, val);
    OrOfItems(word & !(Mask(n) << o), val << o, o, Mask(n));
  }

  lemma OrOfItems(a: bv32, b: bv32, o: bv6, mask: bv32)
    requires o < 32
    ensures ((a | b) >> o) & mask == ((a >> o) & mask) | ((b >> o) & mask)
  {
    OrShift(a, b, o);
    OrMask(a >> o, b >> o, mask);
  }

  lemma OrShift(a: bv32, b: bv32, o: bv6)
    requires o < 32
    ensures (a | b) >> o == (a >> o) | (b >> o)
  {
  }

  lemma OrMask(a: bv32, b: bv32, mask: bv32)
    ensures (a | b) & mask == (a & mask) | (b & mask)
  {
  }

  lemma Cleared(n: bv6, word: bv32, o: bv6)
    requires Width(n) && Offset(n, o)
    ensures ((word & !(Mask(n) << o)) >> o) & Mask(n) == 0
  {
    if n == 1 {
    } else if n == 2 {
    } else if n == 4 {
    } else if n == 8 {
    }
  }

  function Back(val: bv32, o: bv6): bv32
    requires o < 32
  {
    (val << o) >> o
  }

  lemma Shifted(n: bv6, o: bv6, val: bv32)
    requires Width(n) && Offset(n, o)
    ensures Back(val, o) & Mask(n) == val & Mask(n)
  {
    hide Back;
    if n == 1 {
      ShiftBack1(val, o);
    } else if n == 2 {
      ShiftBack2(val, o);
    } else if n == 4 {
      ShiftBack4(val, o);
    } else if n == 8 {
      ShiftBack8(val, o);
    } else {
      ShiftBack16(val, o);
    }
  }

  lemma ShiftBack1(val: bv32, o: bv6)
    requires o < 32 && o & 0 == 0
    ensures Back(val, o) & 1 == val & 1
  {
  }

  lemma ShiftBack2(val: bv32, o: bv6)
    requires o < 32 && o & 1 == 0
    ensures Back(val, o) & 3 == val & 3
  {
  }

  lemma ShiftBack4(val: bv32, o: bv6)
    requires o < 32 && o & 3 == 0
    ensures Back(val, o) & 0xF == val & 0xF
  {
  }

  lemma ShiftBack8(val: bv32, o: bv6)
    requires o < 32 && o & 7 == 0
    ensures Back(val, o) & 0xFF == val & 0xFF
  {
  }

  lemma ShiftBack16(val: bv32, o: bv6)
    requires o < 32 && o & 0xF == 0
    ensures Back(val, o) & 0xFFFF == val & 0xFFFF
  {
  }

  lemma SpilledBits(n: bv6, o: bv6, val: bv32)
    requires Width(n) && Offset(n, o) && !StaysInside(n, o, val)
    ensures (val << o) & !(Mask(n) << o) != 0
  {
    if n == 1 {
    } else if n == 2 {
    } else if n == 4 {
    } else if n == 8 {
    }
  }

  predicate AtMost(val: bv32, max: bv32) {
    val <= max
  }

  lemma SmallStaysInside(n: bv6, o: bv6, val: bv32)
    requires Width(n) && Offset(n, o) && AtMost(val, Mask(n))
    ensures val & Mask(n) == val && StaysInside(n, o, val)
  {
  }

  lemma GetAfterOtherSet(n: bv6, word: bv32, o: bv6, val: bv32, p: bv6)
    requires Width(n) && Offset(n, o) && Offset(n, p) && p != o && StaysInside(n, o, val)
    ensures GetItem(n, SetItem(n, word, o, val), p) == GetItem(n, word, p)
  {
    if n == 1 {
    } else if n == 2 {
    } else if n == 4 {
    } else if n == 8 {
    }
  }

  lemma ItemOffset(n: nat, o: nat)
    requires n in {1, 2, 4, 8, 16} && o % n == 0 && o < 32
    ensures (o as bv6) as nat == o && Width(n as bv6) && Offset(n as bv6, o as bv6)
  {
    assert o == 0 || o == 1 || o == 2 || o == 3 || o == 4 || o == 5 || o == 6 || o == 7 || o == 8 || o == 9 || o == 10
      || o == 11 || o == 12 || o == 13 || o == 14 || o == 15 || o >= 16;
    if n == 1 {
    } else if n == 2 {
    } else if n == 4 {
    } else if n == 8 {
    }
  }

  /** A set disturbs no other item, whatever the word held, exactly when the value stays inside its own. */
  lemma UndisturbedIff(n: bv6, o: bv6, val: bv32)
    requires Width(n) && Offset(n, o)
    ensures (forall word, p | Offset(n, p) && p != o :: GetItem(n, SetItem(n, word, o, val), p) == GetItem(n, word, p))
            <==> StaysInside(n, o, val)
  {
    if StaysInside(n, o, val) {
      forall word, p | Offset(n, p) && p != o ensures GetItem(n, SetItem(n, word, o, val), p) == GetItem(n, word, p) {
        GetAfterOtherSet(n, word, o, val, p);
      }
    } else {
      var p := Disturbed(n, o, val);
      assert GetItem(n, SetItem(n, 0, o, val), p) != GetItem(n, 0, p);
    }
  }

  /** A bit that is set in `x`. */
  function SetBit(x: bv32): (q: bv6)
    requires x != 0
    ensures q < 32 && (x >> q) & 1 == 1
  {
    var a: bv6 := if x & 0xFFFF == 0 then 16 else 0;
    var b: bv6 := if (x >> a) & 0xFF == 0 then a + 8 else a;
    var c: bv6 := if (x >> b) & 0xF == 0 then b + 4 else b;
    var d: bv6 := if (x >> c) & 0x3 == 0 then c + 2 else c;
    if (x >> d) & 1 == 0 then d + 1 else d
  }

  /** An item that a value too large for its own spills into. */
  lemma Disturbed(n: bv6, o: bv6, val: bv32) returns (p: bv6)
    requires Width(n) && Offset(n, o) && !StaysInside(n, o, val)
    ensures Offset(n, p) && p != o && GetItem(n, SetItem(n, 0, o, val), p) != GetItem(n, 0, p)
  {
    hide *;
    SpilledBits(n, o, val);
    var x := (val << o) & !(Mask(n) << o);
    p := SetBit(x) & !(n - 1);
    BitInItem(n, o, val, SetBit(x));
  }

  lemma BitInItem(n: bv6, o: bv6, val: bv32, q: bv6)
    requires Width(n) && Offset(n, o) && q < 32 && (((val << o) & !(Mask(n) << o)) >> q) & 1 == 1
    ensures var p := q & !(n - 1); Offset(n, p) && p != o && GetItem(n, SetItem(n, 0, o, val), p) != GetItem(n, 0, p)
  {
  }

  function ItemsPerWord(n: nat): nat
    requires n in {1, 2, 4, 8, 16}
  {
    32 / n
  }

  function WordIndex(n: nat, index: nat): nat
    requires n in {1, 2, 4, 8, 16}
  {
    index / ItemsPerWord(n)
  }

  function BitOffset(n: nat, index: nat): (o: bv6)
    requires n in {1, 2, 4, 8, 16}
    ensures Width(n as bv6) && Offset(n as bv6, o)
  {
    var o := index % ItemsPerWord(n) * n;
    OffsetInWord(n, index);
    ItemOffset(n, o);
    o as bv6
  }

  lemma OffsetInWord(n: nat, index: nat)
    requires n in {1, 2, 4, 8, 16}
    ensures var o := index % ItemsPerWord(n) * n; 0 <= o < 32 && o % n == 0
  {
    if n == 1 {
    } else if n == 2 {
    } else if n == 4 {
    } else if n == 8 {
    } else {
      assert n == 16;
    }
  }

  function WordCount(n: nat, items: nat): nat {
    (n * items + 31) / 32
  }

  /** Every item lies inside the words. */
  lemma PlaceOf(n: nat, items: nat, index: nat)
    requires n in {1, 2, 4, 8, 16} && index < items
    ensures WordIndex(n, index) < WordCount(n, items)
  {
  }

  /** The last item is in the last word. */
  lemma NoWordToSpare(n: nat, items: nat)
    requires n in {1, 2, 4, 8, 16} && items > 0
    ensures WordIndex(n, items - 1) + 1 == WordCount(n, items)
  {
    if n == 1 {
    } else if n == 2 {
    } else if n == 4 {
    } else if n == 8 {
    } else {
      assert ItemsPerWord(n) == 2;
    }
  }

  /** And no two at the same place. */
  lemma PlacesDiffer(n: nat, i: nat, j: nat)
    requires n in {1, 2, 4, 8, 16} && i != j && WordIndex(n, i) == WordIndex(n, j)
    ensures BitOffset(n, i) != BitOffset(n, j)
  {
    OffsetInWord(n, i);
    OffsetInWord(n, j);
    var k := ItemsPerWord(n);
    ItemOffset(n, i % k * n);
    ItemOffset(n, j % k * n);
    assert i == i / k * k + i % k && j == j / k * k + j % k;
  }

  function Item(n: nat, words: seq<bv32>, index: nat): bv32
    requires n in {1, 2, 4, 8, 16} && WordIndex(n, index) < |words|
  {
    GetItem(n as bv6, words[WordIndex(n, index)], BitOffset(n, index))
  }

  /** The bits of an item: its width, counted from the low end. */
  lemma MaskIs(n: nat)
    requires n in {1, 2, 4, 8, 16}
    ensures Mask(n as bv6) ==
            if n == 1 then 1 else if n == 2 then 3 else if n == 4 then 15 else if n == 8 then 255 else 65535
  {
  }

  /** The first item is in the low bits of the first word; the next ones follow when the word is shifted down, and with the
      next word when the word is used up. */
  lemma ItemsFromTheLowEnd(n: nat, words: seq<bv32>, index: nat)
    requires n in {1, 2, 4, 8, 16} && WordIndex(n, index) < |words|
    ensures index == 0 ==> Item(n, words, index) == words[0] & Mask(n as bv6)
    ensures 0 < index < 32 / n ==> Item(n, words, index) == Item(n, [Down(n, words[0])], index - 1)
    ensures index >= 32 / n ==>
              WordIndex(n, index - 32 / n) < |words[1..]| && Item(n, words, index) == Item(n, words[1..], index - 32 / n)
  {
    hide Item, BitOffset, Mask;
    if index == 0 {
      ItemAtZero(n, words);
    } else if index < 32 / n {
      ItemShiftedDown(n, words[0], index);
      FirstWord(n, words, index);
    } else {
      ItemInNextWord(n, words, index);
    }
  }

  lemma FirstWord(n: nat, words: seq<bv32>, index: nat)
    requires n in {1, 2, 4, 8, 16} && index < 32 / n && words != []
    ensures WordIndex(n, index) == 0 && Item(n, words, index) == Item(n, [words[0]], index)
  {
    hide GetItem, BitOffset;
  }

  lemma OneWord(n: nat, word: bv32, index: nat)
    requires n in {1, 2, 4, 8, 16} && index < 32 / n
    ensures WordIndex(n, index) == 0 && Item(n, [word], index) == GetItem(n as bv6, word, BitOffset(n, index))
  {
    hide GetItem, BitOffset;
  }

  lemma ItemShiftedDown(n: nat, word: bv32, index: nat)
    requires n in {1, 2, 4, 8, 16} && 0 < index < 32 / n
    ensures WordIndex(n, index) == 0 && WordIndex(n, index - 1) == 0
    ensures Item(n, [word], index) == Item(n, [Down(n, word)], index - 1)
  {
    hide *;
    OneWord(n, word, index);
    OneWord(n, Down(n, word), index - 1);
    DownOneItem(n, word, index);
  }

  /** The word shifted down by one item. */
  function Down(n: nat, word: bv32): bv32
    requires n in {1, 2, 4, 8, 16}
  {
    word >> n
  }

  lemma DownOneItem(n: nat, word: bv32, index: nat)
    requires n in {1, 2, 4, 8, 16} && 0 < index < 32 / n
    ensures GetItem(n as bv6, word, BitOffset(n, index)) == GetItem(n as bv6, Down(n, word), BitOffset(n, index - 1))
  {
    hide GetItem, BitOffset, Offset, Mask;
    NextOffset(n, index);
    ItemShifted(n as bv6, word, BitOffset(n, index - 1));
    if n == 1 {
    } else if n == 2 {
    } else if n == 4 {
    } else if n == 8 {
    }
  }

  lemma ItemInNextWord(n: nat, words: seq<bv32>, index: nat)
    requires n in {1, 2, 4, 8, 16} && index >= 32 / n && WordIndex(n, index) < |words|
    ensures WordIndex(n, index - 32 / n) < |words[1..]| && Item(n, words, index) == Item(n, words[1..], index - 32 / n)
  {
    hide GetItem, BitOffset, WordIndex, Offset;
    NextWord(n, index);
  }

  lemma ItemAtZero(n: nat, words: seq<bv32>)
    requires n in {1, 2, 4, 8, 16} && words != []
    ensures WordIndex(n, 0) == 0 && Item(n, words, 0) == words[0] & Mask(n as bv6)
  {
    hide Mask;
    OffsetIs(n, 0);
  }

  lemma OffsetIs(n: nat, index: nat)
    requires n in {1, 2, 4, 8, 16} && index < 32 / n
    ensures BitOffset(n, index) == (index * n) as bv6 && WordIndex(n, index) == 0 && index * n < 32 && index * n % n == 0
  {
    assert index % ItemsPerWord(n) == index;
    OffsetInWord(n, index);
  }

  lemma NextOffset(n: nat, index: nat)
    requires n in {1, 2, 4, 8, 16} && 0 < index < 32 / n
    ensures BitOffset(n, index - 1) < 32 - n as bv6 && BitOffset(n, index) == BitOffset(n, index - 1) + n as bv6
    ensures WordIndex(n, index) == 0 && WordIndex(n, index - 1) == 0
  {
    hide BitOffset, WordIndex;
    OffsetIs(n, index);
    OffsetIs(n, index - 1);
    assert index * n == (index - 1) * n + n;
    OffsetPlus(n, (index - 1) * n);
  }

  lemma OffsetPlus(n: nat, o: nat)
    requires n in {1, 2, 4, 8, 16} && o % n == 0 && o + n < 32
    ensures o as bv6 < 32 - n as bv6 && (o + n) as bv6 == o as bv6 + n as bv6
  {
    assert o == 0 || o == 1 || o == 2 || o == 3 || o == 4 || o == 5 || o == 6 || o == 7 || o == 8 || o == 9 || o == 10
      || o == 11 || o == 12 || o == 13 || o == 14 || o == 15 || o >= 16;
    if n == 1 {
    } else if n == 2 {
    } else if n == 4 {
    } else if n == 8 {
    }
  }

  lemma ItemShifted(n: bv6, word: bv32, o: bv6)
    requires Width(n) && Offset(n, o) && o < 32 - n
    ensures Offset(n, o + n) && GetItem(n, word, o + n) == GetItem(n, word >> n, o)
  {
    hide Mask;
  }

  lemma NextWord(n: nat, index: nat)
    requires n in {1, 2, 4, 8, 16} && index >= 32 / n
    ensures WordIndex(n, index) == WordIndex(n, index - 32 / n) + 1 && BitOffset(n, index) == BitOffset(n, index - 32 / n)
  {
    hide BitOffset;
    var k := ItemsPerWord(n);
    assert index / k == (index - k) / k + 1 && index % k == (index - k) % k by {
      if n == 1 {
      } else if n == 2 {
      } else if n == 4 {
      } else if n == 8 {
      } else {
        assert k == 2;
      }
    }
    SameOffset(n, index, index - k);
  }

  lemma SameOffset(n: nat, i: nat, j: nat)
    requires n in {1, 2, 4, 8, 16} && i % ItemsPerWord(n) == j % ItemsPerWord(n)
    ensures BitOffset(n, i) == BitOffset(n, j)
  {
    hide ItemsPerWord, Offset;
  }

  /** The words after `val` is set at `index`. */
  function SetWords(n: nat, words: seq<bv32>, index: nat, val: bv32): seq<bv32>
    requires n in {1, 2, 4, 8, 16} && WordIndex(n, index) < |words|
  {
    var w := WordIndex(n, index);
    words[w := SetItem(n as bv6, words[w], BitOffset(n, index), val)]
  }

  /** The part of `val` that fits an item. */
  function Fitted(n: nat, val: bv32): bv32
    requires n in {1, 2, 4, 8, 16}
  {
    val & Mask(n as bv6)
  }

  /** `val` is at most VALUE_MASK. */
  predicate Small(n: nat, val: bv32)
    requires n in {1, 2, 4, 8, 16}
  {
    AtMost(val, Mask(n as bv6))
  }

  predicate Contained(n: nat, index: nat, val: bv32)
    requires n in {1, 2, 4, 8, 16}
  {
    StaysInside(n as bv6, BitOffset(n, index), val)
  }

  /** Rewriting one item leaves every other alone, in the same word and in the others. */
  lemma OtherItems(n: nat, words: seq<bv32>, index: nat, val: bv32, j: nat)
    requires n in {1, 2, 4, 8, 16} && WordIndex(n, index) < |words| && WordIndex(n, j) < |words| && j != index
    requires Contained(n, index, val)
    ensures Item(n, SetWords(n, words, index, val), j) == Item(n, words, j)
  {
    hide Mask, WordIndex, BitOffset, GetItem, SetItem, StaysInside, Offset;
    if WordIndex(n, j) == WordIndex(n, index) {
      PlacesDiffer(n, index, j);
      GetAfterOtherSet(n as bv6, words[WordIndex(n, index)], BitOffset(n, index), val, BitOffset(n, j));
    }
  }

  lemma SameItem(n: nat, words: seq<bv32>, index: nat, val: bv32)
    requires n in {1, 2, 4, 8, 16} && WordIndex(n, index) < |words|
    ensures Item(n, SetWords(n, words, index, val), index) == Fitted(n, val)
  {
    hide Mask, WordIndex, BitOffset, GetItem, SetItem, StaysInside, Offset;
    GetAfterSet(n as bv6, words[WordIndex(n, index)], BitOffset(n, index), val);
  }

  lemma SmallFits(n: nat, index: nat, val: bv32)
    requires n in {1, 2, 4, 8, 16} && Small(n, val)
    ensures Fitted(n, val) == val && Contained(n, index, val)
  {
    hide Mask, BitOffset, StaysInside, Offset, AtMost, Width;
    SmallStaysInside(n as bv6, BitOffset(n, index), val);
  }

  /** The table as the sequence of its values. */
  function Values(n: nat, items: nat, words: seq<bv32>): (s: seq<bv32>)
    requires n in {1, 2, 4, 8, 16} && |words| == WordCount(n, items)
    ensures |s| == items
    ensures forall i | 0 <= i < items :: WordIndex(n, i) < |words| && s[i] == Item(n, words, i)
  {
    forall i | 0 <= i < items ensures WordIndex(n, i) < |words| {
      PlaceOf(n, items, i);
    }
    seq(items, i requires 0 <= i < items => Item(n, words, i))
  }

  /** Setting an item updates the sequence at one index; the value read back is what fits the item. */
  lemma SetUpdates(n: nat, items: nat, words: seq<bv32>, index: nat, val: bv32)
    requires n in {1, 2, 4, 8, 16} && |words| == WordCount(n, items) && index < items && WordIndex(n, index) < |words|
    ensures Values(n, items, SetWords(n, words, index, val))[index] == Fitted(n, val)
    ensures Contained(n, index, val) ==>
              Values(n, items, SetWords(n, words, index, val)) == Values(n, items, words)[index := Fitted(n, val)]
    ensures Small(n, val) ==> Contained(n, index, val) && Fitted(n, val) == val
  {
    hide Mask, WordIndex, BitOffset, StaysInside, Item, Contained, Fitted, Small, WordCount, Values;
    SameItem(n, words, index, val);
    if Small(n, val) {
      SmallFits(n, index, val);
    }
    var s, t := Values(n, items, words), Values(n, items, SetWords(n, words, index, val));
    if Contained(n, index, val) {
      forall j | 0 <= j < items ensures t[j] == s[index := Fitted(n, val)][j] {
        if j != index {
          OtherItems(n, words, index, val, j);
        }
      }
    }
  }

  /** `Nitems` values of `Nbits` bits each, in words of 32 bits. */
  class CompressedEnumTable {
    const Nbits: nat
    const Nitems: nat
    const mData: array<bv32>

    ghost predicate Valid() reads this {
      Nbits in {1, 2, 4, 8, 16} && mData.Length == WordCount(Nbits, Nitems)
    }

    constructor (Nbits: nat, Nitems: nat)
      requires Nbits in {1, 2, 4, 8, 16}
      ensures Valid() && fresh(mData) && this.Nbits == Nbits && this.Nitems == Nitems
    {
      this.Nbits, this.Nitems := Nbits, Nitems;
      mData := new bv32[WordCount(Nbits, Nitems)];
    }

    ghost function Contents(): (s: seq<bv32>)
      requires Valid()
      reads this, mData
      ensures |s| == Nitems
    {
      Values(Nbits, Nitems, mData[..])
    }

    method Get(index: nat) returns (val: bv32)
      requires Valid() && index < Nitems
      ensures val == Contents()[index]
    {
      hide Mask, WordIndex, BitOffset, GetItem, WordCount;
      PlaceOf(Nbits, Nitems, index);
      val := GetItem(Nbits as bv6, mData[WordIndex(Nbits, index)], BitOffset(Nbits, index));
    }

    /** A value too large for its item is cut when read back, and spills into others unless it is `Contained`. */
    method Set(index: nat, val: bv32)
      requires Valid() && index < Nitems
      modifies mData
      ensures Contents()[index] == Fitted(Nbits, val)
      ensures Small(Nbits, val) ==> Contents() == old(Contents())[index := val]
      ensures Contained(Nbits, index, val) ==> Contents() == old(Contents())[index := Fitted(Nbits, val)]
    {
      hide Mask, WordIndex, BitOffset, GetItem, SetItem, StaysInside, WordCount, Values, Fitted, Small, Contained;
      PlaceOf(Nbits, Nitems, index);
      ghost var words := mData[..];
      var w := WordIndex(Nbits, index);
      mData[w] := SetItem(Nbits as bv6, mData[w], BitOffset(Nbits, index), val);
      assert mData[..] == SetWords(Nbits, words, index, val);
      SetUpdates(Nbits, Nitems, words, index, val);
    }
  }
}
