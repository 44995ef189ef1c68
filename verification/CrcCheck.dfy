// The check value of CRC32C, reached by stepping the register through "123456789".
module CrcCheck {
  import opened Bytes
  import opened Gf2
  import opened CrcRing
  import opened CrcConstants
  import opened Crc32c
  import opened AffineSpan

  /** The octets of the text "123456789". */
  const TEXT: Bytes := [0x31, 0x32, 0x33, 0x34, 0x35, 0x36, 0x37, 0x38, 0x39]

  /** One octet on machine words is one octet on the register. */
  lemma ByteWord(c: word, b: word, v: Byte, e: word)
    requires Val(b) == v && e == Step8(c ^ b)
    ensures ByteStep(Val(c), v) == Val(e)
  {
    hide Step8, Val, BitSteps;
    ValXor(c, b);
    ByteRun(c ^ b, e);
  }

  lemma Digits()
    ensures Val(0x31) == 0x31 && Val(0x32) == 0x32 && Val(0x33) == 0x33 && Val(0x34) == 0x34 && Val(0x35) == 0x35
    ensures Val(0x36) == 0x36 && Val(0x37) == 0x37 && Val(0x38) == 0x38 && Val(0x39) == 0x39
  {
    ValNibble(0x3, 0x3 >> 1, 0x3 >> 2, 0x3 >> 3, 0x0);
    ValNibble(0x31, 0x31 >> 1, 0x31 >> 2, 0x31 >> 3, 0x3);
    ValNibble(0x32, 0x32 >> 1, 0x32 >> 2, 0x32 >> 3, 0x3);
    ValNibble(0x33, 0x33 >> 1, 0x33 >> 2, 0x33 >> 3, 0x3);
    ValNibble(0x34, 0x34 >> 1, 0x34 >> 2, 0x34 >> 3, 0x3);
    ValNibble(0x35, 0x35 >> 1, 0x35 >> 2, 0x35 >> 3, 0x3);
    ValNibble(0x36, 0x36 >> 1, 0x36 >> 2, 0x36 >> 3, 0x3);
    ValNibble(0x37, 0x37 >> 1, 0x37 >> 2, 0x37 >> 3, 0x3);
    ValNibble(0x38, 0x38 >> 1, 0x38 >> 2, 0x38 >> 3, 0x3);
    ValNibble(0x39, 0x39 >> 1, 0x39 >> 2, 0x39 >> 3, 0x3);
  }

  lemma RawTrail()
    ensures Step8(0x0 ^ 0x31) == 0xC288CAB2
    ensures Step8(0xC288CAB2 ^ 0x32) == 0x8234B3B2
    ensures Step8(0x8234B3B2 ^ 0x33) == 0x701F8CC8
    ensures Step8(0x701F8CC8 ^ 0x34) == 0xBE5DBF29
    ensures Step8(0xBE5DBF29 ^ 0x35) == 0x5DA35500
    ensures Step8(0x5DA35500 ^ 0x36) == 0x161F0D0C
    ensures Step8(0x161F0D0C ^ 0x37) == 0xA97CFD87
    ensures Step8(0xA97CFD87 ^ 0x38) == 0xECAF3210
    ensures Step8(0xECAF3210 ^ 0x39) == 0x58E3FA20
  {
  }

  lemma FullTrail()
    ensures Step8(0xFFFFFFFF ^ 0x31) == 0x6F0A661C
    ensures Step8(0x6F0A661C ^ 0x32) == 0x8CAA3B9F
    ensures Step8(0x8CAA3B9F ^ 0x33) == 0xEF84D04D
    ensures Step8(0xEF84D04D ^ 0x34) == 0x9C50B11
    ensures Step8(0x9C50B11 ^ 0x35) == 0xE72EDCCA
    ensures Step8(0xE72EDCCA ^ 0x36) == 0xBECA8E79
    ensures Step8(0xBECA8E79 ^ 0x37) == 0xEDBD6815
    ensures Step8(0xEDBD6815 ^ 0x38) == 0x9F787F65
    ensures Step8(0x9F787F65 ^ 0x39) == 0x1CF96D7C
  {
  }

  lemma NoneLiteral()
    ensures Val(0) == 0
  {
  }

  lemma RawLiteral()
    ensures Val(0x58E3FA20) == 0x58E3FA20
  {
    ValNibble(0x5, 0x5 >> 1, 0x5 >> 2, 0x5 >> 3, 0x0);
    ValNibble(0x58, 0x58 >> 1, 0x58 >> 2, 0x58 >> 3, 0x5);
    ValNibble(0x58E, 0x58E >> 1, 0x58E >> 2, 0x58E >> 3, 0x58);
    ValNibble(0x58E3, 0x58E3 >> 1, 0x58E3 >> 2, 0x58E3 >> 3, 0x58E);
    ValNibble(0x58E3F, 0x58E3F >> 1, 0x58E3F >> 2, 0x58E3F >> 3, 0x58E3);
    ValNibble(0x58E3FA, 0x58E3FA >> 1, 0x58E3FA >> 2, 0x58E3FA >> 3, 0x58E3F);
    ValNibble(0x58E3FA2, 0x58E3FA2 >> 1, 0x58E3FA2 >> 2, 0x58E3FA2 >> 3, 0x58E3FA);
    ValNibble(0x58E3FA20, 0x58E3FA20 >> 1, 0x58E3FA20 >> 2, 0x58E3FA20 >> 3, 0x58E3FA2);
  }

  lemma OnesLiteral()
    ensures Val(0xFFFFFFFF) == 0xFFFFFFFF
  {
    ValNibble(0xF, 0xF >> 1, 0xF >> 2, 0xF >> 3, 0x0);
    ValNibble(0xFF, 0xFF >> 1, 0xFF >> 2, 0xFF >> 3, 0xF);
    ValNibble(0xFFF, 0xFFF >> 1, 0xFFF >> 2, 0xFFF >> 3, 0xFF);
    ValNibble(0xFFFF, 0xFFFF >> 1, 0xFFFF >> 2, 0xFFFF >> 3, 0xFFF);
    ValNibble(0xFFFFF, 0xFFFFF >> 1, 0xFFFFF >> 2, 0xFFFFF >> 3, 0xFFFF);
    ValNibble(0xFFFFFF, 0xFFFFFF >> 1, 0xFFFFFF >> 2, 0xFFFFFF >> 3, 0xFFFFF);
    ValNibble(0xFFFFFFF, 0xFFFFFFF >> 1, 0xFFFFFFF >> 2, 0xFFFFFFF >> 3, 0xFFFFFF);
    ValNibble(0xFFFFFFFF, 0xFFFFFFFF >> 1, 0xFFFFFFFF >> 2, 0xFFFFFFFF >> 3, 0xFFFFFFF);
  }

  lemma FullLiteral()
    ensures Val(0xE3069283) == 0xE3069283
  {
    ValNibble(0xE, 0xE >> 1, 0xE >> 2, 0xE >> 3, 0x0);
    ValNibble(0xE3, 0xE3 >> 1, 0xE3 >> 2, 0xE3 >> 3, 0xE);
    ValNibble(0xE30, 0xE30 >> 1, 0xE30 >> 2, 0xE30 >> 3, 0xE3);
    ValNibble(0xE306, 0xE306 >> 1, 0xE306 >> 2, 0xE306 >> 3, 0xE30);
    ValNibble(0xE3069, 0xE3069 >> 1, 0xE3069 >> 2, 0xE3069 >> 3, 0xE306);
    ValNibble(0xE30692, 0xE30692 >> 1, 0xE30692 >> 2, 0xE30692 >> 3, 0xE3069);
    ValNibble(0xE306928, 0xE306928 >> 1, 0xE306928 >> 2, 0xE306928 >> 3, 0xE30692);
    ValNibble(0xE3069283, 0xE3069283 >> 1, 0xE3069283 >> 2, 0xE3069283 >> 3, 0xE306928);
  }

  /** Nine steps from a start word. */
  lemma Scan(ws: seq<word>, bs: Bytes)
    requires |ws| == 10 && bs == TEXT
    requires forall i :: 0 <= i < 9 ==> ByteStep(Val(ws[i]), bs[i]) == Val(ws[i + 1])
    ensures Run(Val(ws[0]), bs) == Val(ws[9])
  {
    hide ByteStep, Val;
    ScanFrom(ws, bs, 0);
  }

  lemma {:induction false} ScanFrom(ws: seq<word>, bs: Bytes, k: nat)
    requires |ws| == |bs| + 1 && k <= |bs|
    requires forall i :: 0 <= i < |bs| ==> ByteStep(Val(ws[i]), bs[i]) == Val(ws[i + 1])
    ensures Run(Val(ws[k]), bs[k..]) == Val(ws[|bs|])
    decreases |bs| - k
  {
    hide ByteStep, Val;
    if k < |bs| {
      assert bs[k..][0] == bs[k] && bs[k..][1..] == bs[k + 1..];
      ScanFrom(ws, bs, k + 1);
    }
  }

  /** The raw scan from zero. */
  lemma RawCheck(bs: Bytes)
    requires bs == TEXT
    ensures Run(0, bs) == 0x58E3_FA20
  {
    hide Step8, ByteStep, Val, Run, Xor;
    Digits();
    RawTrail();
    ByteWord(0x0, 0x31, 0x31, 0xC288CAB2);
    ByteWord(0xC288CAB2, 0x32, 0x32, 0x8234B3B2);
    ByteWord(0x8234B3B2, 0x33, 0x33, 0x701F8CC8);
    ByteWord(0x701F8CC8, 0x34, 0x34, 0xBE5DBF29);
    ByteWord(0xBE5DBF29, 0x35, 0x35, 0x5DA35500);
    ByteWord(0x5DA35500, 0x36, 0x36, 0x161F0D0C);
    ByteWord(0x161F0D0C, 0x37, 0x37, 0xA97CFD87);
    ByteWord(0xA97CFD87, 0x38, 0x38, 0xECAF3210);
    ByteWord(0xECAF3210, 0x39, 0x39, 0x58E3FA20);
    Scan([0x0, 0xC288CAB2, 0x8234B3B2, 0x701F8CC8, 0xBE5DBF29, 0x5DA35500, 0x161F0D0C, 0xA97CFD87, 0xECAF3210, 0x58E3FA20], bs);
    RawLiteral();
    NoneLiteral();
  }

  /** The finalised value, as published. */
  lemma FullCheck(bs: Bytes)
    requires bs == TEXT
    ensures Full(bs) == 0xE306_9283
  {
    hide Step8, ByteStep, Val, Run, Xor;
    Digits();
    FullTrail();
    ByteWord(0xFFFFFFFF, 0x31, 0x31, 0x6F0A661C);
    ByteWord(0x6F0A661C, 0x32, 0x32, 0x8CAA3B9F);
    ByteWord(0x8CAA3B9F, 0x33, 0x33, 0xEF84D04D);
    ByteWord(0xEF84D04D, 0x34, 0x34, 0x9C50B11);
    ByteWord(0x9C50B11, 0x35, 0x35, 0xE72EDCCA);
    ByteWord(0xE72EDCCA, 0x36, 0x36, 0xBECA8E79);
    ByteWord(0xBECA8E79, 0x37, 0x37, 0xEDBD6815);
    ByteWord(0xEDBD6815, 0x38, 0x38, 0x9F787F65);
    ByteWord(0x9F787F65, 0x39, 0x39, 0x1CF96D7C);
    Scan([0xFFFFFFFF, 0x6F0A661C, 0x8CAA3B9F, 0xEF84D04D, 0x9C50B11, 0xE72EDCCA, 0xBECA8E79, 0xEDBD6815, 0x9F787F65, 0x1CF96D7C], bs);
    OnesLiteral();
    FullLiteral();
    ValXor(0x1CF96D7C, 0xFFFFFFFF);
  }
}
