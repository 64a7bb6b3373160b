/** JSON string literals in cJSON: the two passes of parse_string (cJSON.c:773-899) and the escaping that
    print_string_ptr applies (cJSON.c:902-1021). */
module CJsonString {
  import opened Bytes
  import opened CJsonUtf16

  const QUOTE: byte := 34

  /** What a parser function leaves behind: a value and the offset after it, or the offset of the error. */
  datatype Parse<+T> = Ok(value: T, next: nat) | Err(at: nat)

  // ---------- first pass: find the closing quote ----------

  /** The closing quote of the literal whose contents start at `i`: a backslash hides the byte after it. */
  function CloseQuote(s: bytes, i: nat): (r: Option<nat>)
    ensures r.Some? ==> i <= r.value < |s| && s[r.value] == QUOTE
    decreases |s| - i
  {
    if i >= |s| then None
    else if s[i] == QUOTE then Some(i)
    else if s[i] != BACKSLASH then CloseQuote(s, i + 1)
    else if i + 1 >= |s| then None
    else CloseQuote(s, i + 2)
  }

  /** Whether the scan that starts at `i` takes position `k` for the backslash of a pair. */
  predicate PairAt(s: bytes, i: nat, k: nat)
    decreases k - i
  {
    i <= k < |s| &&
    if s[i] == BACKSLASH then k == i || PairAt(s, i + 2, k) else PairAt(s, i + 1, k)
  }

  /** The number of pairs the scan from `i` starts before `q`: `skipped_bytes` once `q` is the closing quote. */
  function Pairs(s: bytes, i: nat, q: nat): nat
    requires q <= |s|
    decreases q - i
  {
    if i >= q then 0
    else if s[i] == BACKSLASH then 1 + Pairs(s, i + 2, q)
    else Pairs(s, i + 1, q)
  }

  lemma {:induction false} PairsStep(s: bytes, i: nat, q: nat)
    requires i <= q < |s|
    ensures Pairs(s, i, q + 1) == Pairs(s, i, q) + if PairAt(s, i, q) then 1 else 0
    decreases q - i
  {
    if i < q && s[i] == BACKSLASH {
      if i + 2 <= q {
        PairsStep(s, i + 2, q);
      }
    } else if i < q {
      PairsStep(s, i + 1, q);
    }
  }

  /** Pairs start at backslashes only, and never at two neighbouring positions. */
  lemma {:induction false} PairsApart(s: bytes, i: nat, k: nat)
    requires i <= k < |s| && PairAt(s, i, k)
    ensures s[k] == BACKSLASH && !PairAt(s, i, k + 1)
    decreases k - i
  {
    if s[i] != BACKSLASH {
      PairsApart(s, i + 1, k);
    } else if k != i {
      PairsApart(s, i + 2, k);
    }
  }

  /** However the two passes are aligned, a window of `n` bytes starts at most half its pairs, rounded up. */
  lemma {:induction false} PairsInWindow(s: bytes, i: nat, p: nat, n: nat)
    requires i <= p && p + n <= |s|
    ensures 2 * (Pairs(s, i, p + n) - Pairs(s, i, p)) <= n + 1
    ensures n >= 1 && !PairAt(s, i, p + n - 1) ==> 2 * (Pairs(s, i, p + n) - Pairs(s, i, p)) <= n
  {
    if n > 0 {
      PairsInWindow(s, i, p, n - 1);
      PairsStep(s, i, p + n - 1);
      if n > 1 && PairAt(s, i, p + n - 2) {
        PairsApart(s, i, p + n - 2);
      }
    }
  }

  // ---------- second pass: decode ----------

  function SimpleEscape(b: byte): Option<byte> {
    match b
    case 98 => Some(8)
    case 102 => Some(12)
    case 110 => Some(10)
    case 114 => Some(13)
    case 116 => Some(9)
    case 34 => Some(34)
    case 92 => Some(92)
    case 47 => Some(47)
    case _ => None
  }

  function Prepend(front: bytes, r: Parse<bytes>): Parse<bytes> {
    match r
    case Ok(out, next) => Ok(front + out, next)
    case Err(at) => Err(at)
  }

  /** Decode from `p` to the closing quote at `end`. After a \u escape `p` may stand inside a pair of the first pass,
      so the last escape can swallow the closing quote; `next` is then `end + 1`. */
  function Unescape(s: bytes, p: nat, end: nat): Parse<bytes>
    requires end < |s| && p <= end + 1
    decreases end + 1 - p
  {
    if p >= end then Ok([], p)
    else if s[p] != BACKSLASH then Prepend([s[p]], Unescape(s, p + 1, end))
    else if SimpleEscape(s[p + 1]).Some? then
      Prepend([SimpleEscape(s[p + 1]).value], Unescape(s, p + 2, end))
    else if s[p + 1] == LOWER_U && Literal(s, p, end).Some? then
      var (cp, n) := Literal(s, p, end).value;
      Prepend(Utf8(cp), Unescape(s, p + n, end))
    else Err(p)
  }

  /** One step of the second pass never outgrows what the first pass reserved for the bytes it consumes. */
  lemma StepFits(s: bytes, start: nat, p: nat, end: nat)
    requires start <= p < end < |s|
    ensures s[p] != BACKSLASH ==> 1 <= 1 - (Pairs(s, start, p + 1) - Pairs(s, start, p))
    ensures s[p] == BACKSLASH ==> 1 <= 2 - (Pairs(s, start, if p + 2 <= end then p + 2 else end) - Pairs(s, start, p))
    ensures Literal(s, p, end).Some? ==>
              var (cp, n) := Literal(s, p, end).value;
              |Utf8(cp)| <= n - (Pairs(s, start, p + n) - Pairs(s, start, p))
  {
    PairsStep(s, start, p);
    if PairAt(s, start, p) {
      PairsApart(s, start, p);
    }
    if s[p] == BACKSLASH {
      PairsInWindow(s, start, p, if p + 2 <= end then 2 else 1);
    }
    if Literal(s, p, end).Some? {
      PairsInWindow(s, start, p, Literal(s, p, end).value.1);
    }
  }

  /** As long as the output keeps below what was reserved for the input read so far, there is room for one more byte,
      and for the terminator once the input is used up. */
  lemma Room(s: bytes, start: nat, p: nat, end: nat, length: nat)
    requires start <= p <= end + 1 && end < |s|
    requires length <= p - start - Pairs(s, start, if p <= end then p else end)
    ensures length < end + 1 - start - Pairs(s, start, end) + 1
  {
    if p <= end {
      PairsInWindow(s, start, p, end - p);
    }
  }

  lemma PrependTwice(a: bytes, b: bytes, r: Parse<bytes>)
    ensures Prepend(a, Prepend(b, r)) == Prepend(a + b, r)
  {
    if r.Ok? {
      assert a + (b + r.value) == a + b + r.value;
    }
  }

  /** For every input, in step or not, the decoded bytes from `p` on fit in what the first pass set aside for the
      rest of the literal: its length, plus one for the quote, less one per pair. */
  lemma {:induction false} UnescapeFits(s: bytes, start: nat, p: nat, end: nat)
    requires start <= p <= end < |s| && Unescape(s, p, end).Ok?
    ensures |Unescape(s, p, end).value| <= end + 1 - p - (Pairs(s, start, end) - Pairs(s, start, p))
    decreases end - p
  {
    if p < end {
      StepFits(s, start, p, end);
      if s[p] != BACKSLASH {
        UnescapeFits(s, start, p + 1, end);
      } else if SimpleEscape(s[p + 1]).Some? {
        if p + 2 <= end {
          UnescapeFits(s, start, p + 2, end);
        }
      } else {
        UnescapeFits(s, start, p + Literal(s, p, end).value.1, end);
      }
    }
  }

  /** `parse_string` as a function of the text: the bytes of the literal that opens at `o`. */
  function ParseString(c: bytes, o: nat): Parse<bytes> {
    if o >= |c| || c[o] != QUOTE then Err(o + 1)
    else
      match CloseQuote(c, o + 1)
      case None => Err(o + 1)
      case Some(end) =>
        match Unescape(c, o + 1, end)
        case Err(at) => Err(at)
        case Ok(out, _) => Ok(out, end + 1)
  }

  // ---------- escaping ----------

  /** The letter of a one-character escape, if the byte has one. */
  function EscapeLetter(b: byte): Option<byte> {
    match b
    case 34 => Some(34)
    case 92 => Some(92)
    case 8 => Some(98)
    case 12 => Some(102)
    case 10 => Some(110)
    case 13 => Some(114)
    case 9 => Some(116)
    case _ => None
  }

  function EscapeByte(b: byte): (r: bytes)
    ensures |r| == 1 || |r| == 2 || |r| == 6
    ensures NulFree(r) || b == 0
  {
    if EscapeLetter(b).Some? then [BACKSLASH, EscapeLetter(b).value]
    else if b < 32 then EscapeUnit(b, LOWER_CASE, 0)
    else [b]
  }

  function Escape(s: bytes): (r: bytes) {
    if s == [] then [] else EscapeByte(s[0]) + Escape(s[1..])
  }

  /** A string literal as `print_string_ptr` writes it. */
  function Quoted(s: bytes): bytes {
    [QUOTE] + Escape(s) + [QUOTE]
  }

  lemma {:induction false} EscapeNulFree(s: bytes)
    requires NulFree(s)
    ensures NulFree(Escape(s)) && NulFree(Quoted(s))
  {
    if s != [] {
      EscapeNulFree(s[1..]);
    }
  }
}
