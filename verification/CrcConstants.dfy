// The numeric anchors of the kernels: every literal used by the folds, the vector
// ending and the Barrett reduction is the power of y its documentation claims.
//
// A literal is reached by stepping the register as a 32-bit machine word; Val
// connects a word with the polynomial it denotes.
module CrcConstants {
  import opened Gf2
  import opened CrcRing

  // Literals are passed as parameters throughout, for the reason given in module CrcRing.

  type word = bv32

  function Bit0(b: word): nat {
    if b & 1 == 1 then 1 else 0
  }

  /** The polynomial (number) a machine word denotes. */
  function Val(b: word): nat {
    if b == 0 then 0 else Bit0(b) + 2 * Val(b >> 1)
  }

  lemma ValStep(b: word, i: nat, v: nat)
    requires i == Bit0(b) && v == Val(b >> 1)
    ensures Val(b) == i + 2 * v
  {
    assert b == 0 ==> b >> 1 == 0;
  }

  lemma HalfXor(x: word, y: word)
    ensures (x ^ y) >> 1 == (x >> 1) ^ (y >> 1)
    ensures Bit0(x ^ y) == (Bit0(x) + Bit0(y)) % 2
  {
  }

  lemma XorJoin(a: nat, b: nat, i: nat, j: nat, p: nat, q: nat)
    requires a == i + 2 * p && b == j + 2 * q && i < 2 && j < 2
    ensures Xor(a, b) == (i + j) % 2 + 2 * Xor(p, q)
  {
    assert a % 2 == i && a / 2 == p && b % 2 == j && b / 2 == q;
    XorStep(a, b);
  }

  lemma Parity(x: word, y: word, i: nat, j: nat, k: nat)
    requires i == Bit0(x) && j == Bit0(y) && k == Bit0(x ^ y)
    ensures i < 2 && j < 2 && k == (i + j) % 2
  {
    HalfXor(x, y);
  }

  lemma ValXorStep(x: word, y: word, i: nat, j: nat, p: nat, q: nat)
    requires i == Bit0(x) && j == Bit0(y) && p == Val(x >> 1) && q == Val(y >> 1)
    requires Xor(p, q) == Val((x ^ y) >> 1)
    ensures Xor(Val(x), Val(y)) == Val(x ^ y)
  {
    hide Xor, Val, Bit0;
    ValStep(x, i, p);
    ValStep(y, j, q);
    var z := x ^ y;
    var k := Bit0(z);
    ValStep(z, k, Xor(p, q));
    Parity(x, y, i, j, k);
    XorJoin(Val(x), Val(y), i, j, p, q);
  }

  lemma HalfSmaller(x: word, y: word)
    requires x != 0 || y != 0
    ensures (x >> 1) | (y >> 1) < x | y
  {
  }

  /** Exclusive or of machine words is addition of the polynomials they denote. */
  lemma {:induction false} ValXor(x: word, y: word)
    ensures Xor(Val(x), Val(y)) == Val(x ^ y)
    decreases x | y
  {
    if x != 0 || y != 0 {
      HalfSmaller(x, y);
      ValXor(x >> 1, y >> 1);
      HalfXor(x, y);
      ValXorStep(x, y, Bit0(x), Bit0(y), Val(x >> 1), Val(y >> 1));
    }
  }

  // ---- literals ---------------------------------------------------------------

  lemma ValNibble(b: word, b1: word, b2: word, b3: word, b4: word)
    requires b1 == b >> 1 && b2 == b1 >> 1 && b3 == b2 >> 1 && b4 == b3 >> 1
    ensures Val(b) == Bit0(b) + 2 * Bit0(b1) + 4 * Bit0(b2) + 8 * Bit0(b3) + 16 * Val(b4)
  {
    ValStep(b3, Bit0(b3), Val(b4));
    ValStep(b2, Bit0(b2), Val(b3));
    ValStep(b1, Bit0(b1), Val(b2));
    ValStep(b, Bit0(b), Val(b1));
  }

  lemma PolyLiteral()
    ensures Val(0x82F6_3B78) == POLY
  {
    ValNibble(0x8, 0x4, 0x2, 0x1, 0);
    ValNibble(0x82, 0x82 >> 1, 0x82 >> 2, 0x82 >> 3, 0x8);
    ValNibble(0x82F, 0x82F >> 1, 0x82F >> 2, 0x82F >> 3, 0x82);
    ValNibble(0x82F6, 0x82F6 >> 1, 0x82F6 >> 2, 0x82F6 >> 3, 0x82F);
    ValNibble(0x82F63, 0x82F63 >> 1, 0x82F63 >> 2, 0x82F63 >> 3, 0x82F6);
    ValNibble(0x82F63B, 0x82F63B >> 1, 0x82F63B >> 2, 0x82F63B >> 3, 0x82F63);
    ValNibble(0x82F63B7, 0x82F63B7 >> 1, 0x82F63B7 >> 2, 0x82F63B7 >> 3, 0x82F63B);
    ValNibble(0x82F63B78, 0x82F63B78 >> 1, 0x82F63B78 >> 2, 0x82F63B78 >> 3, 0x82F63B7);
  }

  /** VQ, the part of VM below y^32. */
  lemma VqLiteral()
    ensures Val(0x05EC_76F1) == 0x05EC_76F1
  {
    ValNibble(0x5, 0x5 >> 1, 0x5 >> 2, 0x5 >> 3, 0x0);
    ValNibble(0x5E, 0x5E >> 1, 0x5E >> 2, 0x5E >> 3, 0x5);
    ValNibble(0x5EC, 0x5EC >> 1, 0x5EC >> 2, 0x5EC >> 3, 0x5E);
    ValNibble(0x5EC7, 0x5EC7 >> 1, 0x5EC7 >> 2, 0x5EC7 >> 3, 0x5EC);
    ValNibble(0x5EC76, 0x5EC76 >> 1, 0x5EC76 >> 2, 0x5EC76 >> 3, 0x5EC7);
    ValNibble(0x5EC76F, 0x5EC76F >> 1, 0x5EC76F >> 2, 0x5EC76F >> 3, 0x5EC76);
    ValNibble(0x5EC76F1, 0x5EC76F1 >> 1, 0x5EC76F1 >> 2, 0x5EC76F1 >> 3, 0x5EC76F);
  }

  /** y^88 modulo VM. */
  lemma RhoLiteral()
    ensures Val(0xA9A3_F760) == 0xA9A3_F760
  {
    ValNibble(0xA, 0xA >> 1, 0xA >> 2, 0xA >> 3, 0x0);
    ValNibble(0xA9, 0xA9 >> 1, 0xA9 >> 2, 0xA9 >> 3, 0xA);
    ValNibble(0xA9A, 0xA9A >> 1, 0xA9A >> 2, 0xA9A >> 3, 0xA9);
    ValNibble(0xA9A3, 0xA9A3 >> 1, 0xA9A3 >> 2, 0xA9A3 >> 3, 0xA9A);
    ValNibble(0xA9A3F, 0xA9A3F >> 1, 0xA9A3F >> 2, 0xA9A3F >> 3, 0xA9A3);
    ValNibble(0xA9A3F7, 0xA9A3F7 >> 1, 0xA9A3F7 >> 2, 0xA9A3F7 >> 3, 0xA9A3F);
    ValNibble(0xA9A3F76, 0xA9A3F76 >> 1, 0xA9A3F76 >> 2, 0xA9A3F76 >> 3, 0xA9A3F7);
    ValNibble(0xA9A3F760, 0xA9A3F760 >> 1, 0xA9A3F760 >> 2, 0xA9A3F760 >> 3, 0xA9A3F76);
  }

  /** VH64 and RKHI. */
  lemma Vh64Literal()
    ensures Val(0x493C_7D27) == 0x493C_7D27
  {
    ValNibble(0x4, 0x4 >> 1, 0x4 >> 2, 0x4 >> 3, 0x0);
    ValNibble(0x49, 0x49 >> 1, 0x49 >> 2, 0x49 >> 3, 0x4);
    ValNibble(0x493, 0x493 >> 1, 0x493 >> 2, 0x493 >> 3, 0x49);
    ValNibble(0x493C, 0x493C >> 1, 0x493C >> 2, 0x493C >> 3, 0x493);
    ValNibble(0x493C7, 0x493C7 >> 1, 0x493C7 >> 2, 0x493C7 >> 3, 0x493C);
    ValNibble(0x493C7D, 0x493C7D >> 1, 0x493C7D >> 2, 0x493C7D >> 3, 0x493C7);
    ValNibble(0x493C7D2, 0x493C7D2 >> 1, 0x493C7D2 >> 2, 0x493C7D2 >> 3, 0x493C7D);
    ValNibble(0x493C7D27, 0x493C7D27 >> 1, 0x493C7D27 >> 2, 0x493C7D27 >> 3, 0x493C7D2);
  }

  /** VR0. */
  lemma Vr0Literal()
    ensures Val(0xF20C_0DFE) == 0xF20C_0DFE
  {
    ValNibble(0xF, 0xF >> 1, 0xF >> 2, 0xF >> 3, 0x0);
    ValNibble(0xF2, 0xF2 >> 1, 0xF2 >> 2, 0xF2 >> 3, 0xF);
    ValNibble(0xF20, 0xF20 >> 1, 0xF20 >> 2, 0xF20 >> 3, 0xF2);
    ValNibble(0xF20C, 0xF20C >> 1, 0xF20C >> 2, 0xF20C >> 3, 0xF20);
    ValNibble(0xF20C0, 0xF20C0 >> 1, 0xF20C0 >> 2, 0xF20C0 >> 3, 0xF20C);
    ValNibble(0xF20C0D, 0xF20C0D >> 1, 0xF20C0D >> 2, 0xF20C0D >> 3, 0xF20C0);
    ValNibble(0xF20C0DF, 0xF20C0DF >> 1, 0xF20C0DF >> 2, 0xF20C0DF >> 3, 0xF20C0D);
    ValNibble(0xF20C0DFE, 0xF20C0DFE >> 1, 0xF20C0DFE >> 2, 0xF20C0DFE >> 3, 0xF20C0DF);
  }

  /** RKLO without its four trailing zero bits. */
  lemma RkloLiteral()
    ensures Val(0xEC10_68C5) == 0xEC10_68C5
  {
    ValNibble(0xE, 0xE >> 1, 0xE >> 2, 0xE >> 3, 0x0);
    ValNibble(0xEC, 0xEC >> 1, 0xEC >> 2, 0xEC >> 3, 0xE);
    ValNibble(0xEC1, 0xEC1 >> 1, 0xEC1 >> 2, 0xEC1 >> 3, 0xEC);
    ValNibble(0xEC10, 0xEC10 >> 1, 0xEC10 >> 2, 0xEC10 >> 3, 0xEC1);
    ValNibble(0xEC106, 0xEC106 >> 1, 0xEC106 >> 2, 0xEC106 >> 3, 0xEC10);
    ValNibble(0xEC1068, 0xEC1068 >> 1, 0xEC1068 >> 2, 0xEC1068 >> 3, 0xEC106);
    ValNibble(0xEC1068C, 0xEC1068C >> 1, 0xEC1068C >> 2, 0xEC1068C >> 3, 0xEC1068);
    ValNibble(0xEC1068C5, 0xEC1068C5 >> 1, 0xEC1068C5 >> 2, 0xEC1068C5 >> 3, 0xEC1068C);
  }

  // ---- the register on words ----------------------------------------------------

  function StepW(c: word): word {
    if c & 1 == 1 then (c >> 1) ^ 0x82F6_3B78 else c >> 1
  }

  lemma StepVal(c: word, t: word)
    requires t == StepW(c)
    ensures BitStep(Val(c)) == Val(t)
  {
    var h := c >> 1;
    ValStep(c, Bit0(c), Val(h));
    HalfOf(Val(c), Bit0(c), Val(h));
    if c & 1 == 1 {
      PolyLiteral();
      ValXor(h, 0x82F6_3B78);
    }
  }

  lemma HalfOf(a: nat, i: nat, h: nat)
    requires a == i + 2 * h && i < 2
    ensures BitStep(a) == if i == 1 then Xor(h, POLY) else h
  {
    assert a % 2 == i && a / 2 == h;
  }

  function Step4(c: word): word {
    StepW(StepW(StepW(StepW(c))))
  }

  lemma Step4Val(c: word, c1: word, c2: word, c3: word, c4: word)
    requires c1 == StepW(c) && c2 == StepW(c1) && c3 == StepW(c2) && c4 == StepW(c3)
    ensures BitSteps(Val(c), 4) == Val(c4)
  {
    StepVal(c, c1); StepVal(c1, c2); StepVal(c2, c3); StepVal(c3, c4);
  }
  
  lemma Run4(c: word, d: word)
    requires d == Step4(c)
    ensures BitSteps(Val(c), 4) == Val(d)
  {
    var c1 := StepW(c);
    var c2 := StepW(c1);
    var c3 := StepW(c2);
    Step4Val(c, c1, c2, c3, d);
  }

  lemma Run8(c: word, d: word, e: word)
    requires d == Step4(c) && e == Step4(d)
    ensures BitSteps(Val(c), 8) == Val(e)
  {
    Run4(c, d);
    Run4(d, e);
    BitStepsAdd(Val(c), 4, 4);
  }

  function Step8(c: word): word {
    Step4(Step4(c))
  }

  lemma ByteRun(c: word, e: word)
    requires e == Step8(c)
    ensures BitSteps(Val(c), 8) == Val(e)
  {
    Run8(c, Step4(c), e);
  }

  // ---- the shipped table G[0..128] of inverse byte powers ---------------------------

  /** Entries 8k + 1 to 8k + 8; entry 0 is one. */
  function GRow(k: nat): (row: seq<word>)
    requires k < 16
    ensures |row| == 8
  {
    match k
    case 0 => [0xF26B_8303, 0x13A2_9877, 0xA541_927E, 0xDD45_AAB8,
               0x3811_6FAC, 0xEF30_6B19, 0x6803_2CC8, 0x493C_7D27]
    case 1 => [0xF43E_D648, 0xCB56_7BA5, 0x9771_F7C1, 0x3171_D430,
               0x30D2_3865, 0x5407_5546, 0x678E_FD01, 0xF20C_0DFE]
    case 2 => [0x5FE4_DC5F, 0x0F69_022B, 0xB93B_4CE7, 0x3743_F7BD,
               0x0D0A_7DED, 0x5C15_EEB4, 0x75D3_F038, 0xBA4F_C28E]
    case 3 => [0x2E34_CB9D, 0x2DAE_840F, 0x5E3E_92A0, 0xA215_8B34,
               0xF7DB_CB25, 0x15BB_4109, 0x78A7_608D, 0x3DA6_D0CB]
    case 4 => [0x5A39_2B2F, 0x7EF4_8BD1, 0x21C6_9623, 0x33CC_BBBC,
               0xFF65_71A2, 0x438F_A020, 0x20FE_017E, 0xDDC0_152B]
    case 5 => [0xB9E9_E5F0, 0xF3D7_8690, 0x925B_2B91, 0x6051_243F,
               0x6E90_24B1, 0x4010_61EE, 0x4F08_075C, 0x1C29_1D04]
    case 6 => [0xC786_BE02, 0xE1FC_F649, 0x3928_3A86, 0xA46E_F4AA,
               0xC90D_F36A, 0x0AED_B6A9, 0xDAF3_83DC, 0x9E4A_DDF8]
    case 7 => [0x7929_7D67, 0xB575_DEF4, 0x3441_8DB4, 0x75BB_A45B,
               0xC8D9_CA4C, 0x0CF0_0BA6, 0x84E6_A245, 0x740E_EF02]
    case 8 => [0xE14F_7E18, 0x9A66_D0DE, 0x7F31_385C, 0x1C19_243B,
               0xA976_FBAE, 0x0E9A_7C7A, 0x1A74_E649, 0x39D3_B296]
    case 9 => [0xB430_C84D, 0xFEE7_61A7, 0x767F_362C, 0x6D88_3E38,
               0xBA57_9940, 0x41C1_4A25, 0x150D_5B88, 0x083A_6EEC]
    case 10 => [0xAE7B_5DA4, 0x657F_59E4, 0x24CF_405C, 0x1C42_DA43,
               0x5237_AC92, 0x73C1_BB4C, 0x0C4B_13D7, 0x0715_CE53]
    case 11 => [0x4272_3CE9, 0x9BC0_01EA, 0x8849_4023, 0x3365_346A,
               0x0A17_DE6E, 0xCDB4_3B9B, 0x0BEC_E317, 0xC49F_4F67]
    case 12 => [0xB5C8_68C6, 0xE599_0944, 0x8604_13AA, 0xC92F_998D,
               0x3D17_5832, 0xD1E5_2E1E, 0xBCF7_9D66, 0x47DB_8317]
    case 13 => [0xC4D3_7807, 0xD40E_B793, 0x812C_0154, 0x963E_61CD,
               0x7C33_5476, 0x5745_80B1, 0x4029_B44A, 0x2AD9_1C30]
    case 14 => [0x30C9_90AD, 0x1D53_30E5, 0xD6DC_EF36, 0x1694_72B6,
               0x94A2_0153, 0x42E1_8B26, 0x065E_88BD, 0x0D3B_6092]
    case 15 => [0x739E_B780, 0x8285_A5CF, 0x9D1C_9F45, 0x7417_153F,
               0x6E84_6280, 0x8298_BF1A, 0x7B3E_77E8, 0x6992_CEA2]
  }

  /** VTAIL_G followed by its extension OFOLD_G_EXT. */
  function ShippedG(r: nat): word
    requires r <= 128
  {
    if r == 0 then 1 else GRow((r - 1) / 8)[(r - 1) % 8]
  }

  /** Each entry is a byte step of the one before. */
  ghost predicate Stepped(c: word, row: seq<word>)
    requires |row| == 8
  {
    && row[0] == Step8(c) && row[1] == Step8(row[0]) && row[2] == Step8(row[1]) && row[3] == Step8(row[2])
    && row[4] == Step8(row[3]) && row[5] == Step8(row[4]) && row[6] == Step8(row[5]) && row[7] == Step8(row[6])
  }

  /** The row holds the inverse powers behind y^(-64k). */
  ghost predicate Powers(k: nat, row: seq<word>)
    requires |row| == 8
  {
    && Inv(64 * k + 8) == Val(row[0]) && Inv(64 * k + 16) == Val(row[1]) && Inv(64 * k + 24) == Val(row[2])
    && Inv(64 * k + 32) == Val(row[3]) && Inv(64 * k + 40) == Val(row[4]) && Inv(64 * k + 48) == Val(row[5])
    && Inv(64 * k + 56) == Val(row[6]) && Inv(64 * k + 64) == Val(row[7])
  }

  lemma RowPowers(k: nat, c: word, row: seq<word>)
    requires |row| == 8 && Stepped(c, row) && Inv(64 * k) == Val(c)
    ensures Powers(k, row)
  {
    hide Step8, Val, BitStep;
    ByteRun(c, row[0]); ByteRun(row[0], row[1]); ByteRun(row[1], row[2]); ByteRun(row[2], row[3]);
    ByteRun(row[3], row[4]); ByteRun(row[4], row[5]); ByteRun(row[5], row[6]); ByteRun(row[6], row[7]);
    var n := 64 * k;
    BitStepsAdd(1, n, 8); BitStepsAdd(1, n + 8, 8); BitStepsAdd(1, n + 16, 8); BitStepsAdd(1, n + 24, 8);
    BitStepsAdd(1, n + 32, 8); BitStepsAdd(1, n + 40, 8); BitStepsAdd(1, n + 48, 8); BitStepsAdd(1, n + 56, 8);
    hide BitSteps;
  }

  /** The last entry of each row starts the next one. */
  function RowStart(k: nat): word
    requires k < 16
  {
    if k == 0 then 1 else GRow(k - 1)[7]
  }

  lemma Row0()
    ensures Stepped(RowStart(0), GRow(0))
  {
  }

  lemma Row1()
    ensures Stepped(RowStart(1), GRow(1))
  {
  }

  lemma Row2()
    ensures Stepped(RowStart(2), GRow(2))
  {
  }

  lemma Row3()
    ensures Stepped(RowStart(3), GRow(3))
  {
  }

  lemma Row4()
    ensures Stepped(RowStart(4), GRow(4))
  {
  }

  lemma Row5()
    ensures Stepped(RowStart(5), GRow(5))
  {
  }

  lemma Row6()
    ensures Stepped(RowStart(6), GRow(6))
  {
  }

  lemma Row7()
    ensures Stepped(RowStart(7), GRow(7))
  {
  }

  lemma Row8()
    ensures Stepped(RowStart(8), GRow(8))
  {
  }

  lemma Row9()
    ensures Stepped(RowStart(9), GRow(9))
  {
  }

  lemma Row10()
    ensures Stepped(RowStart(10), GRow(10))
  {
  }

  lemma Row11()
    ensures Stepped(RowStart(11), GRow(11))
  {
  }

  lemma Row12()
    ensures Stepped(RowStart(12), GRow(12))
  {
  }

  lemma Row13()
    ensures Stepped(RowStart(13), GRow(13))
  {
  }

  lemma Row14()
    ensures Stepped(RowStart(14), GRow(14))
  {
  }

  lemma Row15()
    ensures Stepped(RowStart(15), GRow(15))
  {
  }

  lemma RowStepped(k: nat)
    requires k < 16
    ensures Stepped(RowStart(k), GRow(k))
  {
    hide *;
    match k
    case 0 => Row0();
    case 1 => Row1();
    case 2 => Row2();
    case 3 => Row3();
    case 4 => Row4();
    case 5 => Row5();
    case 6 => Row6();
    case 7 => Row7();
    case 8 => Row8();
    case 9 => Row9();
    case 10 => Row10();
    case 11 => Row11();
    case 12 => Row12();
    case 13 => Row13();
    case 14 => Row14();
    case 15 => Row15();
  }

  lemma {:induction false} TableRow(k: nat)
    requires k < 16
    ensures Powers(k, GRow(k))
    decreases k
  {
    hide Stepped, GRow, BitSteps, Step8;
    RowStepped(k);
    if k == 0 {
      ValStep(1, 1, 0);
      InvZero();
    } else {
      TableRow(k - 1);
      assert 64 * (k - 1) + 64 == 64 * k;
    }
    RowPowers(k, RowStart(k), GRow(k));
  }

  lemma InvZero()
    ensures Inv(0) == 1
  {
  }

  lemma RowEntry(k: nat, j: nat, row: seq<word>)
    requires |row| == 8 && j < 8 && Powers(k, row)
    ensures Inv(64 * k + 8 * j + 8) == Val(row[j])
  {
    hide Inv, Val;
  }

  /** The shipped table holds y^(-8r) for every r up to 128. */
  lemma GTable(r: nat)
    requires r <= 128
    ensures Inv(8 * r) == Val(ShippedG(r))
  {
    hide GRow, BitSteps, Powers, Val;
    if r == 0 {
      OneIsOne();
      InvZero();
    } else {
      var k, j := (r - 1) / 8, (r - 1) % 8;
      TableRow(k);
      RowEntry(k, j, GRow(k));
      assert 8 * r == 64 * k + 8 * j + 8;
    }
  }

  lemma OneIsOne()
    ensures Val(1) == 1
  {
    ValStep(1, 1, 0);
  }

  lemma GAnchors32()
    ensures Inv(64) == Val(0x493C_7D27)
    ensures Inv(128) == Val(0xF20C_0DFE)
    ensures Inv(192) == Val(0xBA4F_C28E)
    ensures Inv(256) == Val(0x3DA6_D0CB)
  {
    hide BitSteps, Val;
    GTable(8); GTable(16); GTable(24); GTable(32);
  }

  lemma GAnchors64()
    ensures Inv(320) == Val(0xDDC0_152B)
    ensures Inv(384) == Val(0x1C29_1D04)
    ensures Inv(448) == Val(0x9E4A_DDF8)
    ensures Inv(512) == Val(0x740E_EF02)
  {
    hide BitSteps, Val;
    GTable(40); GTable(48); GTable(56); GTable(64);
  }

  lemma GAnchors96()
    ensures Inv(576) == Val(0x39D3_B296)
    ensures Inv(640) == Val(0x083A_6EEC)
    ensures Inv(704) == Val(0x0715_CE53)
    ensures Inv(768) == Val(0xC49F_4F67)
  {
    hide BitSteps, Val;
    GTable(72); GTable(80); GTable(88); GTable(96);
  }

  lemma GAnchors128()
    ensures Inv(832) == Val(0x47DB_8317)
    ensures Inv(896) == Val(0x2AD9_1C30)
    ensures Inv(960) == Val(0x0D3B_6092)
    ensures Inv(1024) == Val(0x6992_CEA2)
  {
    hide BitSteps, Val;
    GTable(104); GTable(112); GTable(120); GTable(128);
  }

  // ---- the fold and ending constants ----------------------------------------------

  const VH64: nat := 0x493C_7D27
  const RKHI: nat := 0x493C_7D27
  const VR0: nat := 0xF20C_0DFE
  const RKLO: nat := 0xE_C106_8C50
  const VMU: nat := 0x0105_FD79_BDAB_A560

  /** VH64 (= RKHI) is y^(-64), VR0 is y^(-128) and RKLO reduces to VR0. */
  lemma Anchors()
    ensures VH64 == Inv(64) && VR0 == Inv(128) && Red(RKLO) == VR0
  {
    GAnchors32();
    Vh64Literal();
    Vr0Literal();
    RkloReduced();
  }

  lemma RkloReduced()
    ensures Red(RKLO) == VR0
  {
    var r: nat := 0xEC10_68C5;
    RkloLiteral();
    Vr0Literal();
    // VR0 stepped four times is RKLO >> 4
    Run4(0xF20C_0DFE, 0xEC10_68C5);
    Unstep4(VR0);
    MulY4(r);
  }

  lemma Unstep4(c: nat)
    requires c < W32
    ensures MulY(MulY(MulY(MulY(BitSteps(c, 4))))) == c
  {
    BitStepsBound(c, 1); BitStepsBound(c, 2); BitStepsBound(c, 3);
    BitStepInverse(c);
    BitStepInverse(BitSteps(c, 1));
    BitStepInverse(BitSteps(c, 2));
    BitStepInverse(BitSteps(c, 3));
  }

  lemma MulY4(r: nat)
    requires r < W32
    ensures Red(16 * r) == MulY(MulY(MulY(MulY(r))))
  {
    RedSmall(r);
    var a, b, c := 2 * r, 4 * r, 8 * r;
    RedTwice(r, a); RedTwice(a, b); RedTwice(b, c); RedTwice(c, 16 * r);
  }

  lemma RedTwice(r: nat, d: nat)
    requires d == 2 * r
    ensures Red(d) == MulY(Red(r))
  {
    RedDouble(r);
  }

  // ---- the Barrett quotient ---------------------------------------------------------

  /** One digit of the long division of y^(n+1) by VM, on machine words. */
  lemma Divide(n: nat, q: nat, c: word, t: word, i: nat) returns (m: nat, p: nat)
    requires t == StepW(c) && i == Bit0(c)
    requires Pow2(n) == Xor(Clmul(VM, q), Val(t))
    ensures m == n + 1 && p == 2 * q + i && Pow2(m) == Xor(Clmul(VM, p), Val(c))
  {
    StepVal(c, t);
    ValParity(c);
    m, p := n + 1, 2 * q + i;
    DivideBit(Val(c), Val(t), i, q, VM, Pow2(n));
  }

  lemma DivideBit(c: nat, t: nat, i: nat, q: nat, m: nat, p: nat)
    requires m == VM && t == BitStep(c) && i == c % 2
    requires p == Xor(Clmul(m, q), t)
    ensures 2 * p == Xor(Clmul(m, 2 * q + i), c)
  {
    XorDouble(Clmul(m, q), t);
    ClmulEvenOdd(m, q);
    UnstepOdd(c, t, POLY, m);
    if i == 1 {
      RegroupCancel(2 * Clmul(m, q), m, 2 * t);
      XorComm(m, 2 * Clmul(m, q)); XorComm(2 * t, 2 * Clmul(m, q)); XorComm(2 * t, m);
    }
  }

  /** Undoing a shift: twice the shifted register is the register, plus VM if it was odd. */
  lemma UnstepOdd(c: nat, t: nat, p: nat, m: nat)
    requires p == POLY && m == VM && t == BitStep(c)
    ensures c == if c % 2 == 1 then Xor(2 * t, m) else 2 * t
  {
    Widths();
    if c % 2 == 1 { Cancel(c / 2, p, m); }
  }

  lemma ValParity(c: word)
    ensures Val(c) % 2 == Bit0(c)
  {
    ValStep(c, Bit0(c), Val(c >> 1));
  }

  lemma Divide4(n: nat, q: nat, c: word, c1: word, c2: word, c3: word, c4: word) returns (m: nat, p: nat)
    requires c1 == StepW(c) && c2 == StepW(c1) && c3 == StepW(c2) && c4 == StepW(c3)
    requires Pow2(n) == Xor(Clmul(VM, q), Val(c4))
    ensures m == n + 4 && p == 16 * q + 8 * Bit0(c3) + 4 * Bit0(c2) + 2 * Bit0(c1) + Bit0(c)
    ensures Pow2(m) == Xor(Clmul(VM, p), Val(c))
  {
    m, p := Divide(n, q, c3, c4, Bit0(c3));
    m, p := Divide(m, p, c2, c3, Bit0(c2));
    m, p := Divide(m, p, c1, c2, Bit0(c1));
    m, p := Divide(m, p, c, c1, Bit0(c));
  }

  /** y^32 = VM + VQ. */
  lemma DivideFrom(n: nat, q: nat, m: nat, v: nat)
    requires n == 32 && q == 1 && m == VM && v == VQ
    ensures Pow2(n) == Xor(Clmul(m, q), v)
  {
    Widths();
    ClmulComm(m, q);
    ClmulOne(m);
    Pow2Mono(27, n);
    ShlOne(n);
    Join(1, v, n);
    XorCancel(Pow2(n), v);
  }

  /** VMU is the quotient of y^88 by VM, and the remainder is y^88 reduced. */
  lemma BarrettQuotient() returns (n: nat, q: nat)
    ensures n == 88 && q == VMU
    ensures Pow2(n) == Xor(Clmul(VM, q), Val(0xA9A3_F760))
  {
    n, q := 32, 1;
    VqLiteral();
    DivideFrom(n, q, VM, VQ);
    n, q := Divide4(n, q, 0x5EC7_6F10, 0x2F63_B788, 0x17B1_DBC4, 0x0BD8_EDE2, 0x05EC_76F1);
    n, q := Divide4(n, q, 0xFE2B_5C35, 0xFDE3_9562, 0x7EF1_CAB1, 0xBD8E_DE20, 0x5EC7_6F10);
    n, q := Divide4(n, q, 0xD453_340F, 0xE8DF_A17F, 0xF699_EBC7, 0xF9BA_CE9B, 0xFE2B_5C35);
    n, q := Divide4(n, q, 0x780D_5A4D, 0xBEF0_965E, 0x5F78_4B2F, 0xAD4A_1EEF, 0xD453_340F);
    n, q := Divide4(n, q, 0x9950_E407, 0xCE5E_497B, 0xE5D9_1FC5, 0xF01A_B49A, 0x780D_5A4D);
    n, q := Divide4(n, q, 0xBF81_8109, 0xDD36_FBFC, 0x6E9B_7DFE, 0x374D_BEFF, 0x9950_E407);
    n, q := Divide4(n, q, 0xD94F_3C0B, 0xEE51_A57D, 0xF5DE_E9C6, 0x7AEF_74E3, 0xBF81_8109);
    n, q := Divide4(n, q, 0xA9CD_DA0D, 0xD610_D67E, 0x6B08_6B3F, 0xB772_0EE7, 0xD94F_3C0B);
    n, q := Divide4(n, q, 0xB866_FABA, 0x5C33_7D5D, 0xACEF_85D6, 0x5677_C2EB, 0xA9CD_DA0D);
    n, q := Divide4(n, q, 0xA738_873B, 0xD16A_78E5, 0xEA43_070A, 0x7521_8385, 0xB866_FABA);
    n, q := Divide4(n, q, 0x5733_29DA, 0x2B99_94ED, 0x973A_F10E, 0x4B9D_7887, 0xA738_873B);
    n, q := Divide4(n, q, 0x616F_3095, 0xB241_A332, 0x5920_D199, 0xAE66_53B4, 0x5733_29DA);
    n, q := Divide4(n, q, 0x0A9A_3F76, 0x054D_1FBB, 0x8050_B4A5, 0xC2DE_612A, 0x616F_3095);
    n, q := Divide4(n, q, 0xA9A3_F760, 0x54D1_FBB0, 0x2A68_FDD8, 0x1534_7EEC, 0x0A9A_3F76);
  }
}
