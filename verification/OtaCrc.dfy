/** The checksum of a sequence number (otatool.py:107-110, 181): CRC-32 over its four bytes, started with 0xFFFFFFFF. */
module OtaCrc {
  import opened Bytes
  import opened OtaSelect
  import opened OtaData

  const POLYNOMIAL: bv32 := 0xEDB88320

  /** The register takes one bit. */
  function Step(r: bv32): bv32 {
    if r & 1 == 1 then (r >> 1) ^ POLYNOMIAL else r >> 1
  }

  function Step2(r: bv32): bv32 { Step(Step(r)) }

  function Step4(r: bv32): bv32 { Step2(Step2(r)) }

  /** The register takes the eight bits of a byte. */
  function Step8(r: bv32): bv32 { Step4(Step4(r)) }

  /** A byte as the low bits of a word. */
  function Low(b: nat, bits: nat): bv32 {
    if bits == 0 then 0 else (Low(b / 2, bits - 1) << 1) | (if b % 2 == 1 then 1 else 0)
  }

  function Xor(a: bv32, b: bv32): bv32 { a ^ b }

  function Up(r: bv32): bv32 { r << 8 }

  predicate FitsByte(r: bv32) { r & 0xFFFF_FF00 == 0 }

  predicate FitsThree(r: bv32) { r & 0xFF00_0000 == 0 }

  function Register(r: bv32, data: bytes): bv32
    decreases |data|
  {
    if data == [] then r else Register(Step8(Xor(r, Low(data[0], 8))), data[1..])
  }

  function Complement(r: bv32): bv32 { r ^ 0xFFFF_FFFF }

  /** `binascii.crc32(struct.pack('I', w), 0xFFFFFFFF)`; register and checksum are complements. */
  function SeqCrc(w: nat): (crc: nat)
    ensures crc < WORD_LIMIT
  {
    Complement(Register(Complement(0xFFFF_FFFF), WordBytes(w % WORD_LIMIT))) as nat
  }

  // The standard checksum.

  /** x^32 + x^26 + x^23 + x^22 + x^16 + x^12 + x^11 + x^10 + x^8 + x^7 + x^5 + x^4 + x^2 + x + 1, with the bit of x^31 the
      lowest. */
  lemma PolynomialIs(e: bv6)
    requires e < 32
    ensures (POLYNOMIAL >> (31 - e)) & 1 == 1 <==>
            e == 26 || e == 23 || e == 22 || e == 16 || e == 12 || e == 11 || e == 10 || e == 8 || e == 7 || e == 5 ||
            e == 4 || e == 2 || e == 1 || e == 0
  {
  }

  lemma LowOfOne()
    ensures Low(1, 8) == 1 && Low(0, 8) == 0
  {
    LowStep(1, 8);
    assert forall k | 0 <= k < 8 :: Low(0, k) == 0 by {
      LowStep(0, 0);
      LowStep(0, 1);
      LowStep(0, 2);
      LowStep(0, 3);
      LowStep(0, 4);
      LowStep(0, 5);
      LowStep(0, 6);
      LowStep(0, 7);
    }
    LowStep(0, 8);
  }

  lemma Byte1OfOne()
    ensures Step8(0x0000_0001) == 0x7707_3096
  {
    assert Step(0x0000_0001) == 0xEDB8_8320;
    assert Step(0xEDB8_8320) == 0x76DC_4190;
    assert Step(0x76DC_4190) == 0x3B6E_20C8;
    assert Step(0x3B6E_20C8) == 0x1DB7_1064;
    assert Step(0x1DB7_1064) == 0x0EDB_8832;
    assert Step(0x0EDB_8832) == 0x076D_C419;
    assert Step(0x076D_C419) == 0xEE0E_612C;
    assert Step(0xEE0E_612C) == 0x7707_3096;
    hide Step;
    assert Step2(0x0000_0001) == 0x76DC_4190 && Step2(0x76DC_4190) == 0x1DB7_1064;
    assert Step2(0x1DB7_1064) == 0x076D_C419 && Step2(0x076D_C419) == 0x7707_3096;
  }

  lemma Byte2OfOne()
    ensures Step8(0x7707_3096) == 0x191B_3141
  {
    assert Step(0x7707_3096) == 0x3B83_984B;
    assert Step(0x3B83_984B) == 0xF079_4F05;
    assert Step(0xF079_4F05) == 0x9584_24A2;
    assert Step(0x9584_24A2) == 0x4AC2_1251;
    assert Step(0x4AC2_1251) == 0xC8D9_8A08;
    assert Step(0xC8D9_8A08) == 0x646C_C504;
    assert Step(0x646C_C504) == 0x3236_6282;
    assert Step(0x3236_6282) == 0x191B_3141;
    hide Step;
    assert Step2(0x7707_3096) == 0xF079_4F05 && Step2(0xF079_4F05) == 0x4AC2_1251;
    assert Step2(0x4AC2_1251) == 0x646C_C504 && Step2(0x646C_C504) == 0x191B_3141;
  }

  lemma Byte3OfOne()
    ensures Step8(0x191B_3141) == 0x01C2_6A37
  {
    assert Step(0x191B_3141) == 0xE135_1B80;
    assert Step(0xE135_1B80) == 0x709A_8DC0;
    assert Step(0x709A_8DC0) == 0x384D_46E0;
    assert Step(0x384D_46E0) == 0x1C26_A370;
    assert Step(0x1C26_A370) == 0x0E13_51B8;
    assert Step(0x0E13_51B8) == 0x0709_A8DC;
    assert Step(0x0709_A8DC) == 0x0384_D46E;
    assert Step(0x0384_D46E) == 0x01C2_6A37;
    hide Step;
    assert Step2(0x191B_3141) == 0x709A_8DC0 && Step2(0x709A_8DC0) == 0x1C26_A370;
    assert Step2(0x1C26_A370) == 0x0709_A8DC && Step2(0x0709_A8DC) == 0x01C2_6A37;
  }

  lemma Byte4OfOne()
    ensures Step8(0x01C2_6A37) == 0xB8BC_6765
  {
    assert Step(0x01C2_6A37) == 0xED59_B63B;
    assert Step(0xED59_B63B) == 0x9B14_583D;
    assert Step(0x9B14_583D) == 0xA032_AF3E;
    assert Step(0xA032_AF3E) == 0x5019_579F;
    assert Step(0x5019_579F) == 0xC5B4_28EF;
    assert Step(0xC5B4_28EF) == 0x8F62_9757;
    assert Step(0x8F62_9757) == 0xAA09_C88B;
    assert Step(0xAA09_C88B) == 0xB8BC_6765;
    hide Step;
    assert Step2(0x01C2_6A37) == 0x9B14_583D && Step2(0x9B14_583D) == 0x5019_579F;
    assert Step2(0x5019_579F) == 0x8F62_9757 && Step2(0x8F62_9757) == 0xB8BC_6765;
  }

  // Running the register backwards.

  /** A step that leaves the top bit clear only shifted. */
  lemma StepBack(x: bv32)
    requires Step(x) & 0x8000_0000 == 0
    ensures x == Step(x) << 1
  {
  }

  lemma Step2Back(x: bv32)
    requires Step2(x) & 0xC000_0000 == 0
    ensures x == Step2(x) << 2
  {
    hide Step;
    StepBack(Step(x));
    StepBack(x);
  }

  lemma Step4Back(x: bv32)
    requires Step4(x) & 0xF000_0000 == 0
    ensures x == Step4(x) << 4
  {
    hide Step2;
    Step2Back(Step2(x));
    Step2Back(x);
  }

  lemma Step8Back(x: bv32)
    requires FitsThree(Step8(x))
    ensures x == Up(Step8(x))
  {
    hide Step4;
    Step4Back(Step4(x));
    Step4Back(x);
  }

  // Bytes.

  lemma LowStep(b: nat, bits: nat)
    ensures bits > 0 ==> Low(b, bits) == (Low(b / 2, bits - 1) << 1) | (if b % 2 == 1 then 1 else 0)
    ensures Low(b, 0) == 0
  {
  }

  /** A byte takes eight bits, and they are not all zero unless the byte is. */
  lemma LowOfByte(b: nat)
    requires b < 256
    ensures FitsByte(Low(b, 8))
    ensures Low(b, 8) == 0 ==> b == 0
  {
    hide Low;
    var b1 := b / 2;
    var b2 := b1 / 2;
    var b3 := b2 / 2;
    var b4 := b3 / 2;
    var b5 := b4 / 2;
    var b6 := b5 / 2;
    var b7 := b6 / 2;
    LowStep(b, 8);
    LowStep(b1, 7);
    LowStep(b2, 6);
    LowStep(b3, 5);
    LowStep(b4, 4);
    LowStep(b5, 3);
    LowStep(b6, 2);
    LowStep(b7, 1);
    LowStep(b7 / 2, 0);
  }

  /** What the register held before it took a byte and got small. */
  lemma ByteBack(r: bv32, b: bv32)
    requires FitsThree(Step8(Xor(r, b)))
    ensures r == Xor(Up(Step8(Xor(r, b))), b)
  {
    hide *;
    Step8Back(Xor(r, b));
    XorTwice(r, b);
  }

  lemma XorTwice(r: bv32, b: bv32)
    ensures Xor(Xor(r, b), b) == r
  {
  }

  lemma Unwound(a: bv32, b: bv32, c: bv32, d: bv32, r1: bv32, r2: bv32, r3: bv32)
    requires FitsByte(a) && FitsByte(b) && FitsByte(c) && FitsByte(d) && r3 == Xor(Up(0), d)
    ensures FitsThree(0) && FitsThree(r3)
    ensures r2 == Xor(Up(r3), c) ==> FitsThree(r2)
    ensures r2 == Xor(Up(r3), c) && r1 == Xor(Up(r2), b) ==> FitsThree(r1)
    ensures r2 == Xor(Up(r3), c) && r1 == Xor(Up(r2), b) && a == Up(r1) ==> a == 0 && b == 0 && c == 0 && d == 0
  {
  }

  lemma ZeroFits()
    ensures FitsThree(0)
  {
  }

  /** Four bytes that leave the register at zero, from zero on, are zero. */
  lemma ZeroRegister(a: bv32, b: bv32, c: bv32, d: bv32)
    requires FitsByte(a) && FitsByte(b) && FitsByte(c) && FitsByte(d)
    requires Step8(Xor(Step8(Xor(Step8(Xor(Step8(a), b)), c)), d)) == 0
    ensures a == 0 && b == 0 && c == 0 && d == 0
  {
    hide *;
    var r1 := Step8(a);
    var r2 := Step8(Xor(r1, b));
    var r3 := Step8(Xor(r2, c));
    ZeroFits();
    ByteBack(r3, d);
    Unwound(a, b, c, d, r1, r2, r3);
    ByteBack(r2, c);
    ByteBack(r1, b);
    Step8Back(a);
  }

  lemma RegisterOfFour(s: bytes)
    requires |s| == 4
    ensures Register(0, s) ==
            Step8(Xor(Step8(Xor(Step8(Xor(Step8(Low(s[0], 8)), Low(s[1], 8))), Low(s[2], 8))), Low(s[3], 8)))
  {
    hide *;
    var r1 := Step8(Low(s[0], 8));
    var r2 := Step8(Xor(r1, Low(s[1], 8)));
    var r3 := Step8(Xor(r2, Low(s[2], 8)));
    assert s[1..][1..] == s[2..] && s[2..][1..] == s[3..];
    StartZero(Low(s[0], 8));
    RegisterStep(0, s);
    RegisterStep(r1, s[1..]);
    RegisterStep(r2, s[2..]);
    RegisterStep(r3, s[3..]);
    RegisterEnd(Step8(Xor(r3, Low(s[3], 8))), s[3..][1..]);
  }

  lemma RegisterStep(r: bv32, data: bytes)
    requires data != []
    ensures Register(r, data) == Register(Step8(Xor(r, Low(data[0], 8))), data[1..])
  {
    hide Step8, Xor, Low;
  }

  lemma RegisterEnd(r: bv32, data: bytes)
    requires data == []
    ensures Register(r, data) == r
  {
  }

  lemma StartZero(a: bv32)
    ensures Xor(0, a) == a && Complement(0xFFFF_FFFF) == 0
  {
  }

  lemma CrcIsBlank(r: bv32)
    ensures Complement(r) as nat == BLANK_WORD <==> r == 0
  {
  }

  /** Only the number zero has the checksum of erased memory. */
  lemma BlankCrcIff(w: Word)
    ensures SeqCrc(w) == BLANK_WORD <==> w == 0
  {
    hide Step8, Low, Register, WordBytes, Xor, FitsByte, Complement;
    var s := WordBytes(w);
    StartZero(Low(s[0], 8));
    CrcIsBlank(Register(0, s));
    RegisterOfFour(s);
    LowOfByte(s[0]);
    LowOfByte(s[1]);
    LowOfByte(s[2]);
    LowOfByte(s[3]);
    if SeqCrc(w) == BLANK_WORD {
      ZeroRegister(Low(s[0], 8), Low(s[1], 8), Low(s[2], 8), Low(s[3], 8));
      ZeroWord(w);
    }
    if w == 0 {
      assert s == [0, 0, 0, 0] by {
        ZeroBytes();
      }
      ZeroSteps();
    }
  }

  lemma ZeroBytes()
    ensures WordBytes(0) == [0, 0, 0, 0]
  {
  }

  lemma ZeroSteps()
    ensures Low(0, 8) == 0 && Xor(0, 0) == 0 && Step8(0) == 0
  {
  }

  lemma ZeroWord(w: Word)
    requires WordBytes(w) == [0, 0, 0, 0]
    ensures w == 0
  {
    WordRoundTrip(WordBytes(w), 0, w);
  }

  /** So the checksum rejects every number cut off inside its four bytes. */
  lemma SeqCrcRejectsTornWords(next: Word)
    ensures TornWordsRejected(SeqCrc, next)
  {
    hide SeqCrc;
    forall k | 1 <= k <= 3 ensures SeqCrc(WordAt(Torn(WordBytes(next), k), 0)) != BLANK_WORD {
      var w := WordAt(Torn(WordBytes(next), k), 0);
      assert Torn(WordBytes(next), k)[3] == 0xFF;
      BlankCrcIff(w);
    }
  }

  lemma XorWith(r: bv32)
    ensures Xor(r, 0) == r
  {
  }

  /** The checksum of the number one, as it stands in flash after the first update. */
  lemma CrcOfOne()
    ensures SeqCrc(1) == 0x4743_989A
  {
    hide Step8, Xor, Low, Register;
    LowOfOne();
    assert WordBytes(1) == [1, 0, 0, 0];
    assert Complement(0xFFFF_FFFF) == 0;
    RegisterOfFour([1, 0, 0, 0]);
    Byte1OfOne();
    Byte2OfOne();
    Byte3OfOne();
    Byte4OfOne();
    XorWith(0x7707_3096);
    XorWith(0x191B_3141);
    XorWith(0x01C2_6A37);
    assert Complement(0xB8BC_6765) == 0x4743_989A;
  }
}
