/** Bytes, C strings and the result types shared by the modules. */
module Bytes {

  type byte = b: int | 0 <= b < 256
  type bytes = seq<byte>

  datatype Option<+T> = None | Some(value: T)

  predicate NulFree(s: bytes) {
    0 !in s
  }

  /** The C string stored in `s`: everything before the first zero byte. */
  function CStr(s: bytes): (r: bytes)
    ensures NulFree(r) && r <= s
    ensures |r| < |s| ==> s[|r|] == 0
    ensures NulFree(s) ==> r == s
  {
    if s == [] || s[0] == 0 then [] else [s[0]] + CStr(s[1..])
  }

  /** `text` stands in `c` at offset `o`. */
  predicate At(c: bytes, o: nat, text: bytes) {
    o + |text| <= |c| && c[o..o + |text|] == text
  }

  /** The text at `o` splits: a concatenation stands where its two halves stand one after the other. */
  lemma AtConcat(c: bytes, o: nat, a: bytes, b: bytes)
    ensures At(c, o, a + b) <==> At(c, o, a) && At(c, o + |a|, b)
  {
    if o + |a| + |b| <= |c| {
      assert c[o..o + |a| + |b|] == c[o..o + |a|] + c[o + |a|..o + |a| + |b|];
      if At(c, o, a + b) {
        assert c[o..o + |a|] == c[o..o + |a| + |b|][..|a|];
        assert c[o + |a|..o + |a| + |b|] == c[o..o + |a| + |b|][|a|..];
      }
    }
  }

  lemma Associate(a: bytes, b: bytes, c: bytes)
    ensures (a + b) + c == a + (b + c)
  {
  }

  lemma FirstOfAt(c: bytes, o: nat, text: bytes)
    requires At(c, o, text) && text != []
    ensures o < |c| && c[o] == text[0]
  {
    assert c[o] == c[o..o + |text|][0];
  }
}
