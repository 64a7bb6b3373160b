/** The \uXXXX escapes of cJSON (cJSON.c:615-770): hexadecimal quadruples, UTF-16 surrogate pairs, UTF-8 output.

    Section 7 of RFC 8259 gives the escape syntax, section 3 of RFC 3629 the byte sequences. */
module CJsonUtf16 {
  import opened Bytes
  import opened Bits

  const BACKSLASH: byte := 92
  const LOWER_U: byte := 117

  predicate IsHexDigit(b: byte) {
    48 <= b <= 57 || 65 <= b <= 70 || 97 <= b <= 102
  }

  function HexValue(b: byte): (v: nat)
    requires IsHexDigit(b)
    ensures v < 16
  {
    if b <= 57 then b - 48 else if b <= 70 then b - 55 else b - 87
  }

  /** The code unit four bytes denote. A byte that is not a hexadecimal digit makes the whole quadruple zero:
      the caller cannot tell "\uZZZZ" from "\u0000". */
  function Hex4(s: bytes, p: nat): (code: nat)
    requires p + 4 <= |s|
    ensures code < 0x1_0000
  {
    if forall i | p <= i < p + 4 :: IsHexDigit(s[i]) then
      4096 * HexValue(s[p]) + 256 * HexValue(s[p + 1]) + 16 * HexValue(s[p + 2]) + HexValue(s[p + 3])
    else 0
  }

  /** `parse_hex4`: accumulate a digit, then shift to make room for the next one. */
  method ParseHex4(s: bytes, p: nat) returns (h: nat)
    requires p + 4 <= |s|
    ensures h == Hex4(s, p)
  {
    h := 0;
    for i := 0 to 4
      invariant forall k | p <= k < p + i :: IsHexDigit(s[k])
      invariant i == 0 ==> h == 0
      invariant i == 1 ==> h == 16 * HexValue(s[p])
      invariant i == 2 ==> h == 256 * HexValue(s[p]) + 16 * HexValue(s[p + 1])
      invariant i == 3 ==> h == 4096 * HexValue(s[p]) + 256 * HexValue(s[p + 1]) + 16 * HexValue(s[p + 2])
      invariant i == 4 ==> h == Hex4(s, p)
    {
      var b := s[p + i];
      if 48 <= b <= 57 {
        h := h + (b - 48);
      } else if 65 <= b <= 70 {
        h := h + 10 + (b - 65);
      } else if 97 <= b <= 102 {
        h := h + 10 + (b - 97);
      } else {
        return 0;
      }
      if i < 3 {
        FewBits(h);
        h := ShiftLeft(h, 4);
      }
    }
  }

  // ---------- UTF-8 ----------

  predicate IsScalar(cp: int) {
    0 <= cp < 0xD800 || 0xE000 <= cp <= 0x10FFFF
  }

  /** The encoding table of section 3 of RFC 3629. */
  function Utf8(cp: nat): (r: bytes)
    requires cp <= 0x10FFFF
    ensures 1 <= |r| <= 4
    ensures |r| == 1 <==> cp < 0x80
  {
    if cp < 0x80 then [cp]
    else if cp < 0x800 then [0xC0 + cp / 64, 0x80 + cp % 64]
    else if cp < 0x1_0000 then [0xE0 + cp / 64 / 64, 0x80 + cp / 64 % 64, 0x80 + cp % 64]
    else [0xF0 + cp / 64 / 64 / 64, 0x80 + cp / 64 / 64 % 64, 0x80 + cp / 64 % 64, 0x80 + cp % 64]
  }

  predicate Tail(b: byte) { 0x80 <= b <= 0xBF }

  /** The number whose six-bit groups, most significant first, are `a`, `b`, `c` and `d`. */
  function Join(a: nat, b: nat, c: nat, d: nat): nat {
    ((a * 64 + b) * 64 + c) * 64 + d
  }

  /** A strict decoder that follows the grammar of section 4 of RFC 3629, production by production: the scalar value
      at the front of `s` and the number of bytes it takes. Overlong forms and surrogates have no production. */
  function DecodeUtf8(s: bytes): Option<(nat, nat)> {
    if |s| >= 1 && s[0] <= 0x7F then Some((s[0] as nat, 1))
    else if |s| >= 2 && 0xC2 <= s[0] <= 0xDF && Tail(s[1]) then
      Some((Join(0, 0, s[0] - 0xC0, s[1] - 0x80), 2))
    else if |s| >= 3 && Tail(s[2]) &&
            ((s[0] == 0xE0 && 0xA0 <= s[1] <= 0xBF) || (0xE1 <= s[0] <= 0xEC && Tail(s[1])) ||
             (s[0] == 0xED && 0x80 <= s[1] <= 0x9F) || (0xEE <= s[0] <= 0xEF && Tail(s[1]))) then
      Some((Join(0, s[0] - 0xE0, s[1] - 0x80, s[2] - 0x80), 3))
    else if |s| >= 4 && Tail(s[2]) && Tail(s[3]) &&
            ((s[0] == 0xF0 && 0x90 <= s[1] <= 0xBF) || (0xF1 <= s[0] <= 0xF3 && Tail(s[1])) ||
             (s[0] == 0xF4 && 0x80 <= s[1] <= 0x8F)) then
      Some((Join(s[0] - 0xF0, s[1] - 0x80, s[2] - 0x80, s[3] - 0x80), 4))
    else None
  }

  /** The strict decoder inverts the encoder on every scalar value, whatever follows, and finds nothing in the
      three bytes the encoder would give for a surrogate. */
  lemma Utf8RoundTrip(cp: nat, rest: bytes)
    requires cp <= 0x10FFFF
    ensures IsScalar(cp) ==> DecodeUtf8(Utf8(cp) + rest) == Some((cp, |Utf8(cp)|))
    ensures !IsScalar(cp) ==> DecodeUtf8(Utf8(cp) + rest) == None
  {
    var u, s := Utf8(cp), Utf8(cp) + rest;
    assert |s| >= |u|;
    if cp < 0x80 {
      assert s[0] == u[0];
    } else if cp < 0x800 {
      assert s[0] == u[0] && s[1] == u[1];
    } else if cp < 0x1_0000 {
      assert s[0] == u[0] && s[1] == u[1] && s[2] == u[2];
    } else {
      assert s[0] == u[0] && s[1] == u[1] && s[2] == u[2] && s[3] == u[3];
    }
  }

  // ---------- one escape ----------

  predicate IsHigh(code: nat) { 0xD800 <= code <= 0xDBFF }

  predicate IsLow(code: nat) { 0xDC00 <= code <= 0xDFFF }

  function Combine(high: nat, low: nat): (cp: nat)
    requires IsHigh(high) && IsLow(low)
    ensures 0x1_0000 <= cp <= 0x10FFFF
  {
    0x1_0000 + (high - 0xD800) * 1024 + (low - 0xDC00)
  }

  /** What the escape at `p` denotes when the string literal ends at `end`: the code point and the escape's length. */
  function Literal(s: bytes, p: nat, end: nat): (r: Option<(nat, nat)>)
    requires p <= end <= |s|
    ensures r.Some? ==> IsScalar(r.value.0) && (r.value.1 == 6 || r.value.1 == 12) && p + r.value.1 <= end
    ensures r.Some? && r.value.1 == 6 ==> r.value.0 < 0x1_0000
  {
    if end - p < 6 then None
    else
      var first := Hex4(s, p + 2);
      if IsLow(first) then None
      else if !IsHigh(first) then Some((first, 6))
      else if end - p < 12 || s[p + 6] != BACKSLASH || s[p + 7] != LOWER_U then None
      else
        var second := Hex4(s, p + 8);
        if IsLow(second) then Some((Combine(first, second), 12)) else None
  }

  /** A surrogate pair combines to the code point of RFC 2781, section 2.2: ten bits of each, side by side. */
  lemma SurrogateBits(high: nat, low: nat)
    requires IsHigh(high) && IsLow(low)
    ensures 0x1_0000 + BitOr(ShiftLeft(BitAnd(high, 0x3FF), 10), BitAnd(low, 0x3FF)) == Combine(high, low)
  {
    hide BitAnd, BitOr, ShiftLeft, ShiftRight, LowBits, Mask;
    AndMask(high, 10);
    AndMask(low, 10);
    TenBits(high);
    TenBits(low);
    var h, l := high - 0xD800, low - 0xDC00;
    assert high % 1024 == h && low % 1024 == l;
    TenBits(h);
    TenBits(l);
    OrIsSum(h, l, 10);
  }

  /** The reading half of `utf16_literal_to_utf8`: the escape's length, zero for an escape it rejects, and the
      code point. */
  method ReadLiteral(s: bytes, p: nat, end: nat) returns (sequenceLength: nat, codepoint: nat)
    requires p <= end <= |s|
    ensures Literal(s, p, end) == if sequenceLength == 0 then None else Some((codepoint, sequenceLength))
  {
    hide Hex4;
    if end - p < 6 {
      return 0, 0;
    }
    var firstCode := ParseHex4(s, p + 2);
    if 0xDC00 <= firstCode <= 0xDFFF {
      return 0, 0;
    }
    if 0xD800 <= firstCode <= 0xDBFF {
      if end - (p + 6) < 6 {
        return 0, 0;
      }
      if s[p + 6] != BACKSLASH || s[p + 7] != LOWER_U {
        return 0, 0;
      }
      var secondCode := ParseHex4(s, p + 8);
      if secondCode < 0xDC00 || secondCode > 0xDFFF {
        return 0, 0;
      }
      SurrogateBits(firstCode, secondCode);
      return 12, 0x1_0000 + BitOr(ShiftLeft(BitAnd(firstCode, 0x3FF), 10), BitAnd(secondCode, 0x3FF));
    }
    return 6, firstCode;
  }

  /** `utf16_literal_to_utf8`: writes the UTF-8 form at `o` and reports the escape's length. */
  method Utf16LiteralToUtf8(s: bytes, p: nat, end: nat, output: array<byte>, o: nat)
    returns (sequenceLength: nat, o': nat)
    requires p <= end <= |s|
    requires Literal(s, p, end).Some? ==> o + |Utf8(Literal(s, p, end).value.0)| <= output.Length
    modifies output
    ensures Literal(s, p, end).None? ==> sequenceLength == 0 && o' == o && output[..] == old(output[..])
    ensures Literal(s, p, end).Some? ==>
              var (cp, n) := Literal(s, p, end).value;
              && sequenceLength == n && o' == o + |Utf8(cp)|
              && output[..] == old(output[..o]) + Utf8(cp) + old(output[o'..])
  {
    var codepoint;
    o' := o;
    sequenceLength, codepoint := ReadLiteral(s, p, end);
    if sequenceLength != 0 {
      o' := WriteUtf8(codepoint, output, o);
    }
  }

  /** `n` continuation bytes behind a first byte marked with `mark`, split off from the right as the C loop does. */
  function Encode(cp: nat, mark: nat, n: nat): seq<nat> {
    if n == 0 then [mark + cp] else Encode(cp / 64, mark, n - 1) + [0x80 + cp % 64]
  }

  /** The marks and lengths the code picks give the bytes of the RFC's table. */
  lemma EncodeIsUtf8(cp: nat)
    requires cp <= 0x10FFFF
    ensures Utf8(cp) == if cp < 0x80 then Encode(cp, 0, 0) else if cp < 0x800 then Encode(cp, 0xC0, 1)
                        else if cp < 0x1_0000 then Encode(cp, 0xE0, 2) else Encode(cp, 0xF0, 3)
  {
    if cp >= 0x80 {
      var q := cp / 64;
      assert Encode(q / 64, 0xE0, 0) == [0xE0 + q / 64];
      assert Encode(q, 0xE0, 1) == [0xE0 + q / 64, 0x80 + q % 64];
      assert Encode(q / 64, 0xF0, 1) == [0xF0 + q / 64 / 64, 0x80 + q / 64 % 64];
      assert Encode(q, 0xF0, 2) == [0xF0 + q / 64 / 64, 0x80 + q / 64 % 64, 0x80 + q % 64];
    }
  }

  /** How many bytes the code point takes, and the mark of the first. */
  method Utf8Shape(codepoint: nat) returns (utf8Length: nat, firstByteMark: nat)
    requires codepoint <= 0x10FFFF
    ensures utf8Length == |Utf8(codepoint)| >= 1
    ensures Encode(codepoint, firstByteMark, utf8Length - 1) == Utf8(codepoint)
    ensures
      var left := Utf8(codepoint)[0] - firstByteMark;
      if utf8Length == 1 then firstByteMark == 0 && left < 0x80
      else (firstByteMark == 0xC0 && left < 0x20) || (firstByteMark == 0xE0 && left < 0x10) ||
           (firstByteMark == 0xF0 && left < 0x08)
  {
    EncodeIsUtf8(codepoint);
    if codepoint < 0x80 {
      return 1, 0;
    } else if codepoint < 0x800 {
      return 2, 0xC0;
    } else if codepoint < 0x1_0000 {
      return 3, 0xE0;
    } else {
      return 4, 0xF0;
    }
  }

  /** A continuation byte takes the low six bits, and the shift leaves the rest. */
  lemma ContinuationBits(cp: nat)
    ensures BitAnd(BitOr(cp, 0x80), 0xBF) == 0x80 + cp % 64 && ShiftRight(cp, 6) == cp / 64
  {
    hide BitAnd, BitOr, ShiftLeft, ShiftRight, LowBits, Mask;
    var q, r := cp / 64, cp % 64;
    SixBits(cp);
    SixBits(q);
    SixBits(r);
    SixBits(2);
    OrSplits(q, 2, r, 6);
    var marked := BitOr(q, 2);
    SixBits(marked);
    AndSplits(marked, 2, r, 6);
    SecondBit(q);
    SixBits(BitAnd(marked, 2));
  }

  lemma SecondBit(q: nat)
    ensures BitAnd(BitOr(q, 2), 2) == 2
  {
    hide BitAnd, BitOr;
    var marked := BitOr(q, 2);
    OrBit(q, 2);
    OrBit(q / 2, 1);
    AndBit(marked, 2);
    AndBit(marked / 2, 1);
    AndMask(marked / 2 / 2, 0);
  }

  /** The first byte holds what is left of the code point beside its mark. */
  lemma LeadBits(cp: nat)
    ensures cp < 0x80 ==> BitAnd(cp, 0x7F) == cp
    ensures cp < 0x20 ==> BitAnd(BitOr(cp, 0xC0), 0xFF) == 0xC0 + cp
    ensures cp < 0x10 ==> BitAnd(BitOr(cp, 0xE0), 0xFF) == 0xE0 + cp
    ensures cp < 0x08 ==> BitAnd(BitOr(cp, 0xF0), 0xFF) == 0xF0 + cp
  {
    hide BitAnd, BitOr, ShiftLeft, ShiftRight, LowBits, Mask;
    AndMask(cp, 7);
    SevenBits(cp);
    FewBits(cp);
    FewBits(6);
    FewBits(14);
    FewBits(30);
    if cp < 0x20 {
      MarkedBits(cp, 6, 5);
    }
    if cp < 0x10 {
      MarkedBits(cp, 14, 4);
    }
    if cp < 0x08 {
      MarkedBits(cp, 30, 3);
    }
  }

  lemma MarkedBits(cp: nat, mark: nat, k: nat)
    requires ShiftRight(cp, k) == 0 && ShiftLeft(mark, k) + cp < 0x100
    ensures BitAnd(BitOr(cp, ShiftLeft(mark, k)), 0xFF) == ShiftLeft(mark, k) + cp
  {
    hide *;
    OrIsSum(mark, cp, k);
    var sum := ShiftLeft(mark, k) + cp;
    AndMask(sum, 8);
    EightBits(sum);
  }

  /** The last byte and what comes before it. */
  lemma LastSplit(cp: nat, mark: nat, n: nat, code: seq<nat>)
    requires n < |code| && Encode(cp, mark, n) == code[..n + 1]
    ensures n > 0 ==> code[n] == 0x80 + cp % 64 && Encode(cp / 64, mark, n - 1) == code[..n]
    ensures n == 0 ==> code[0] == mark + cp
  {
    assert code[n] == code[..n + 1][n] && code[..n] == code[..n + 1][..n];
  }

  /** The encoding half of `utf16_literal_to_utf8`: continuation bytes from the last to the second, then the first. */
  method WriteUtf8(cp: nat, output: array<byte>, o: nat) returns (o': nat)
    requires cp <= 0x10FFFF && o + |Utf8(cp)| <= output.Length
    modifies output
    ensures o' == o + |Utf8(cp)|
    ensures output[..] == old(output[..o]) + Utf8(cp) + old(output[o'..])
  {
    hide Utf8, Encode, BitAnd, BitOr, ShiftRight;
    ghost var before := output[..];
    var codepoint: nat := cp;
    var utf8Length, firstByteMark := Utf8Shape(codepoint);
    ghost var code: seq<nat> := Utf8(cp);
    var position := utf8Length - 1;
    while position > 0
      invariant 0 <= position < utf8Length && 0 <= codepoint
      invariant Encode(codepoint, firstByteMark, position) == code[..position + 1]
      invariant forall k | position < k < utf8Length :: output[o + k] == code[k]
      invariant forall k | 0 <= k < output.Length && !(o <= k < o + utf8Length) :: output[k] == before[k]
    {
      ContinuationBits(codepoint);
      LastSplit(codepoint, firstByteMark, position, code);
      output[o + position] := BitAnd(BitOr(codepoint, 0x80), 0xBF);
      codepoint := ShiftRight(codepoint, 6);
      position := position - 1;
    }
    LastSplit(codepoint, firstByteMark, 0, code);
    LeadBits(codepoint);
    if utf8Length > 1 {
      output[o] := BitAnd(BitOr(codepoint, firstByteMark), 0xFF);
    } else {
      output[o] := BitAnd(codepoint, 0x7F);
    }
    o' := o + utf8Length;
    Spliced(before, o, code, output[..]);
  }

  lemma Spliced(before: bytes, o: nat, code: bytes, after: bytes)
    requires o + |code| <= |before| == |after|
    requires forall k | 0 <= k < |code| :: after[o + k] == code[k]
    requires forall k | 0 <= k < |before| && !(o <= k < o + |code|) :: after[k] == before[k]
    ensures after == before[..o] + code + before[o + |code|..]
  {
    assert after[o..o + |code|] == code;
  }

  // ---------- what the escapes mean ----------

  /** Which digits of an escape are upper case, by their place. */
  type Case = nat -> bool

  const LOWER_CASE: Case := (k: nat) => false

  function HexDigit(v: nat, upper: bool): byte
    requires v < 16
  {
    if v < 10 then 48 + v else if upper then 55 + v else 87 + v
  }

  /** An escape of `code` in four hexadecimal digits, the first of which is the one at place `k`. */
  function EscapeUnit(code: nat, upper: Case, k: nat): (r: bytes)
    requires code < 0x1_0000
    ensures |r| == 6
  {
    [BACKSLASH, LOWER_U, HexDigit(code / 4096, upper(k)), HexDigit(code / 256 % 16, upper(k + 1)),
     HexDigit(code / 16 % 16, upper(k + 2)), HexDigit(code % 16, upper(k + 3))]
  }

  /** The escape section 7 of RFC 8259 prescribes for a scalar value, with any mix of cases: one unit, or a surrogate
      pair above U+FFFF. */
  function EscapeScalar(cp: nat, upper: Case): bytes
    requires IsScalar(cp)
  {
    if cp < 0x1_0000 then EscapeUnit(cp, upper, 0)
    else EscapeUnit(0xD800 + (cp - 0x1_0000) / 1024, upper, 0) + EscapeUnit(0xDC00 + (cp - 0x1_0000) % 1024, upper, 4)
  }

  lemma Hex4OfUnit(s: bytes, p: nat, code: nat, upper: Case, k: nat)
    requires code < 0x1_0000 && At(s, p, EscapeUnit(code, upper, k))
    ensures Hex4(s, p + 2) == code
    ensures s[p] == BACKSLASH && s[p + 1] == LOWER_U
  {
    var e := EscapeUnit(code, upper, k);
    assert forall i | 0 <= i < 6 :: s[p + i] == s[p..p + 6][i] == e[i];
    assert s[p + 2] == e[2] && s[p + 3] == e[3] && s[p + 4] == e[4] && s[p + 5] == e[5];
    HexDigitValue(code / 4096, upper(k));
    HexDigitValue(code / 256 % 16, upper(k + 1));
    HexDigitValue(code / 16 % 16, upper(k + 2));
    HexDigitValue(code % 16, upper(k + 3));
    Nibbles(code);
  }

  lemma Nibbles(code: nat)
    ensures code == 4096 * (code / 4096) + 256 * (code / 256 % 16) + 16 * (code / 16 % 16) + code % 16
  {
    assert code / 256 == code / 16 / 16 && code / 4096 == code / 256 / 16;
  }

  lemma HexDigitValue(v: nat, upper: bool)
    requires v < 16
    ensures IsHexDigit(HexDigit(v, upper)) && HexValue(HexDigit(v, upper)) == v
  {
  }

  lemma SurrogatesOf(cp: nat)
    requires 0x1_0000 <= cp <= 0x10FFFF
    ensures IsHigh(0xD800 + (cp - 0x1_0000) / 1024) && IsLow(0xDC00 + (cp - 0x1_0000) % 1024)
    ensures Combine(0xD800 + (cp - 0x1_0000) / 1024, 0xDC00 + (cp - 0x1_0000) % 1024) == cp
  {
  }

  /** Every scalar value, escaped as RFC 8259 says in any mix of upper and lower case, is read back as itself: the whole
      escape is consumed, and the bytes written decode to the scalar value under the strict grammar of RFC 3629. */
  lemma EscapeDecodesToScalar(s: bytes, p: nat, end: nat, cp: nat, upper: Case, rest: bytes)
    requires IsScalar(cp) && p <= end <= |s|
    requires At(s, p, EscapeScalar(cp, upper)) && p + |EscapeScalar(cp, upper)| <= end
    ensures Literal(s, p, end) == Some((cp, |EscapeScalar(cp, upper)|))
    ensures DecodeUtf8(Utf8(cp) + rest) == Some((cp, |Utf8(cp)|))
  {
    hide Literal, Utf8, DecodeUtf8;
    Utf8RoundTrip(cp, rest);
    if cp < 0x1_0000 {
      UnitDecodes(s, p, end, cp, upper);
    } else {
      var high, low := 0xD800 + (cp - 0x1_0000) / 1024, 0xDC00 + (cp - 0x1_0000) % 1024;
      SurrogatesOf(cp);
      PairDecodes(s, p, end, high, low, upper);
    }
  }

  lemma UnitDecodes(s: bytes, p: nat, end: nat, u: nat, upper: Case)
    requires u < 0x1_0000 && !IsHigh(u) && !IsLow(u) && p + 6 <= end <= |s| && At(s, p, EscapeUnit(u, upper, 0))
    ensures Literal(s, p, end) == Some((u, 6))
  {
    Hex4OfUnit(s, p, u, upper, 0);
  }

  lemma PairDecodes(s: bytes, p: nat, end: nat, high: nat, low: nat, upper: Case)
    requires IsHigh(high) && IsLow(low) && p + 12 <= end <= |s|
    requires At(s, p, EscapeUnit(high, upper, 0) + EscapeUnit(low, upper, 4))
    ensures Literal(s, p, end) == Some((Combine(high, low), 12))
  {
    AtConcat(s, p, EscapeUnit(high, upper, 0), EscapeUnit(low, upper, 4));
    Hex4OfUnit(s, p, high, upper, 0);
    Hex4OfUnit(s, p + 6, low, upper, 4);
  }

  /** Any four bytes that are hexadecimal digits are the digits of some code in some mix of cases, so the escapes above
      are all there are. */
  lemma AnyUnit(s: bytes, p: nat, k: nat) returns (upper: Case)
    requires p + 6 <= |s| && s[p] == BACKSLASH && s[p + 1] == LOWER_U
    requires IsHexDigit(s[p + 2]) && IsHexDigit(s[p + 3]) && IsHexDigit(s[p + 4]) && IsHexDigit(s[p + 5])
    ensures At(s, p, EscapeUnit(Hex4(s, p + 2), upper, k))
  {
    DigitsOfHex(HexValue(s[p + 2]), HexValue(s[p + 3]), HexValue(s[p + 4]), HexValue(s[p + 5]));
    upper := (i: nat) => k <= i <= k + 3 && s[p + 2 + (i - k)] < 97;
    assert s[p..p + 6] == EscapeUnit(Hex4(s, p + 2), upper, k);
  }

  lemma DigitsOfHex(a: nat, b: nat, c: nat, d: nat)
    requires a < 16 && b < 16 && c < 16 && d < 16
    ensures var code := 4096 * a + 256 * b + 16 * c + d;
            && code < 0x1_0000 && code / 4096 == a && code / 256 % 16 == b && code / 16 % 16 == c && code % 16 == d
  {
    var code := 4096 * a + 256 * b + 16 * c + d;
    LowDigit(256 * a + 16 * b + c, d);
    LowDigit(16 * a + b, c);
    LowDigit(a, b);
    assert code / 256 == code / 16 / 16 && code / 4096 == code / 256 / 16;
  }

  lemma LowDigit(high: nat, low: nat)
    requires low < 16
    ensures (16 * high + low) / 16 == high && (16 * high + low) % 16 == low
  {
  }

  /** Exactly which escapes are accepted, over all inputs: a code unit that is no surrogate, or a high surrogate
      directly followed by the escape of a low one. A lone surrogate of either kind is rejected, and nothing that
      is accepted decodes to a surrogate. */
  lemma AcceptedEscapes(s: bytes, p: nat, end: nat, rest: bytes)
    requires p + 6 <= end <= |s|
    ensures
      var first := Hex4(s, p + 2);
      var paired := p + 12 <= end && s[p + 6] == BACKSLASH && s[p + 7] == LOWER_U && IsLow(Hex4(s, p + 8));
      Literal(s, p, end).Some? <==> (!IsHigh(first) && !IsLow(first)) || (IsHigh(first) && paired)
    ensures Literal(s, p, end).Some? ==>
              var cp := Literal(s, p, end).value.0;
              IsScalar(cp) && DecodeUtf8(Utf8(cp) + rest) == Some((cp, |Utf8(cp)|))
  {
    if Literal(s, p, end).Some? {
      Utf8RoundTrip(Literal(s, p, end).value.0, rest);
    }
  }
}
