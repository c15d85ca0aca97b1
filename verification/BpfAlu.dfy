/**
 * What the evaluator's opcodes stand for: how they are put together from classes, modes and operations,
 * and what the arithmetic and the comparisons mean for 32-bit words.
 */
module BpfAlu {
  import opened Words
  import opened Bits
  import opened Bpf

  // Opcodes ---------------------------------------------------------------------------------

  // linux/bpf_common.h: classes, then modes, operations and the source operand
  const LD := 0x00
  const LDX := 0x01
  const ST := 0x02
  const STX := 0x03
  const ALU := 0x04
  const JMP := 0x05
  const RET := 0x06
  const MISC := 0x07
  const ABS := 0x20
  const MEM := 0x60
  const LEN := 0x80
  const TXA := 0x80
  const A := 0x10
  const X := 0x08

  function AluCode(op: AluOp): nat {
    match op
    case Add => 0x00
    case Sub => 0x10
    case Mul => 0x20
    case Div => 0x30
    case BitOr => 0x40
    case BitAnd => 0x50
    case Lsh => 0x60
    case Rsh => 0x70
    case Neg => 0x80
    case BitXor => 0xa0
  }

  function CmpCode(op: CmpOp): nat {
    match op
    case Jeq => 0x10
    case Jgt => 0x20
    case Jge => 0x30
    case Jset => 0x40
  }

  /** An operation as its opcode; the word size, IMM, K, JA and TAX are all zero. */
  function Encode(op: Op): nat {
    match op
    case LdAbs => LD + ABS
    case LdLen => LD + LEN
    case LdxLen => LDX + LEN
    case LdImm => LD
    case LdxImm => LDX
    case Tax => MISC
    case Txa => MISC + TXA
    case LdMem => LD + MEM
    case LdxMem => LDX + MEM
    case St => ST
    case Stx => STX
    case RetK => RET
    case RetA => RET + A
    case Alu(alu, useX) => ALU + AluCode(alu) + if useX then X else 0
    case Ja => JMP
    case Jcc(cmp, useX) => JMP + CmpCode(cmp) + if useX then X else 0
    case Invalid => 0xffff
  }

  /** The operations that have an opcode. */
  predicate HasOpcode(op: Op) { !op.Invalid? && op != Alu(Neg, true) }

  lemma Fields(class_: nat, k: nat, x: nat)
    requires class_ < 8 && x < 2
    ensures var code := class_ + 16 * k + 8 * x; code % 8 == class_ && code / 16 == k && code / 8 % 2 == x
  {
    var code := class_ + 16 * k + 8 * x;
    assert code / 8 == 2 * k + x;
  }

  lemma AluOpcode(op: AluOp, useX: bool)
    requires HasOpcode(Alu(op, useX))
    ensures Decode(Encode(Alu(op, useX))) == Alu(op, useX)
  {
    var k := AluCode(op) / 16;
    assert AluCode(op) == 16 * k;
    Fields(4, k, if useX then 1 else 0);
    assert DecodeAlu(k, useX) == Alu(op, useX);
    hide DecodeAlu, AluCode;
  }

  lemma CmpOpcode(op: CmpOp, useX: bool)
    ensures Decode(Encode(Jcc(op, useX))) == Jcc(op, useX)
  {
    var k := CmpCode(op) / 16;
    assert CmpCode(op) == 16 * k && k > 0;
    Fields(5, k, if useX then 1 else 0);
    assert DecodeJump(k, useX) == Jcc(op, useX);
    hide DecodeJump, CmpCode;
  }

  /** Every operation is recognised by its opcode ... */
  lemma DecodeEncode(op: Op)
    requires HasOpcode(op)
    ensures Decode(Encode(op)) == op
  {
    match op
    case Alu(alu, useX) => AluOpcode(alu, useX);
    case Jcc(cmp, useX) => CmpOpcode(cmp, useX);
    case _ =>
  }

  /** ... and by no other, so every other opcode is refused. */
  lemma EncodeDecode(code: u16)
    ensures !Decode(code).Invalid? ==> HasOpcode(Decode(code)) && Encode(Decode(code)) == code
    ensures Decode(code).Invalid? <==> forall op :: HasOpcode(op) ==> Encode(op) != code
  {
    if code % 8 == 5 || code % 8 == 4 {
      assert code == code / 16 * 16 + code / 8 % 2 * 8 + code % 8;
    }
    if Decode(code).Invalid? {
      forall op | HasOpcode(op) ensures Encode(op) != code {
        DecodeEncode(op);
      }
    }
  }

  // Arithmetic ------------------------------------------------------------------------------

  /** `v` is what is left of `n` in 32 bits. */
  predicate Wraps(n: nat, q: nat, v: u32) { n == TWO32 * q + v }

  /** `v` is the result of `op` on 32-bit words. */
  ghost predicate IsResult(op: AluOp, a: u32, b: u32, v: u32) {
    match op
    case Add => a + b == v || a + b == v + TWO32
    case Sub => a == b + v || a + TWO32 == b + v
    case Mul => exists q: nat :: Wraps(a * b, q, v)
    case Div => b * v <= a < b * v + b
    case Neg => a + v == 0 || a + v == TWO32
    case BitAnd => forall i: nat :: i < 32 ==> (Bit(v, i) <==> Bit(a, i) && Bit(b, i))
    case BitOr => forall i: nat :: i < 32 ==> (Bit(v, i) <==> Bit(a, i) || Bit(b, i))
    case BitXor => forall i: nat :: i < 32 ==> (Bit(v, i) <==> Bit(a, i) != Bit(b, i))
    case Lsh => forall i: nat :: i < 32 ==> (Bit(v, i) <==> i >= b && Bit(a, i - b))
    case Rsh => forall i: nat :: i < 32 ==> (Bit(v, i) <==> Bit(a, i + b))
  }

  /** Division by zero, and shifts that the language leaves undefined. */
  predicate Refused(op: AluOp, b: u32) {
    (op.Div? && b == 0) || ((op.Lsh? || op.Rsh?) && b >= 32)
  }

  lemma AluMeaning(op: AluOp, a: u32, b: u32)
    ensures EvalAlu(op, a, b).None? <==> Refused(op, b)
    ensures EvalAlu(op, a, b).Some? ==> IsResult(op, a, b, EvalAlu(op, a, b).value)
  {
    hide EvalAlu, IsResult;
    match op
    case Mul => MulMeaning(a, b);
    case Div => DivMeaning(a, b);
    case BitAnd => BitsMeaning(op, a, b);
    case BitOr => BitsMeaning(op, a, b);
    case BitXor => BitsMeaning(op, a, b);
    case Lsh => ShiftMeaning(op, a, b);
    case Rsh => ShiftMeaning(op, a, b);
    case _ => SumMeaning(op, a, b);
  }

  lemma SumMeaning(op: AluOp, a: u32, b: u32)
    requires op.Add? || op.Sub? || op.Neg?
    ensures EvalAlu(op, a, b).Some? && IsResult(op, a, b, EvalAlu(op, a, b).value)
  {
    hide And, Pow2;
  }

  lemma MulMeaning(a: u32, b: u32)
    ensures EvalAlu(Mul, a, b).Some? && IsResult(Mul, a, b, EvalAlu(Mul, a, b).value)
  {
    hide And, Pow2, Bit;
    var n: nat := a * b;
    assert Wraps(n, n / TWO32, n % TWO32);
  }

  lemma DivMeaning(a: u32, b: u32)
    ensures EvalAlu(AluOp.Div, a, b).None? <==> b == 0
    ensures b != 0 ==> IsResult(AluOp.Div, a, b, EvalAlu(AluOp.Div, a, b).value)
  {
    hide And, Pow2, Bit;
    if b > 0 {
      assert a == b * (a / b) + a % b;
    }
  }

  lemma BitsMeaning(op: AluOp, a: u32, b: u32)
    requires op.BitAnd? || op.BitOr? || op.BitXor?
    ensures EvalAlu(op, a, b).Some? && IsResult(op, a, b, EvalAlu(op, a, b).value)
  {
    hide And, Bit;
    forall i: nat | i < 32 ensures
      && (Bit(And(a, b), i) <==> Bit(a, i) && Bit(b, i))
      && (Bit(Or32(a, b), i) <==> Bit(a, i) || Bit(b, i))
      && (Bit(Xor32(a, b), i) <==> Bit(a, i) != Bit(b, i))
    {
      AndBit(a, b, i);
      OrBit(a, b, i);
      XorBit(a, b, i);
    }
  }

  lemma ShiftMeaning(op: AluOp, a: u32, b: u32)
    requires op.Lsh? || op.Rsh?
    ensures EvalAlu(op, a, b).None? <==> Refused(op, b)
    ensures EvalAlu(op, a, b).Some? ==> IsResult(op, a, b, EvalAlu(op, a, b).value)
  {
    if b < 32 {
      var p := Pow2(b);
      var up, down := a * p % TWO32, Quotient(a, p);
      forall i: nat | i < 32 ensures
        && (Bit(up, i) <==> i >= b && Bit(a, i - b))
        && (Bit(down, i) <==> Bit(a, i + b))
      {
        ShiftedUp(a, b, i);
        ShiftDownBit(a, b, i);
        assert down == Bits.Div(a, Pow2(b));
      }
    }
  }

  lemma ShiftedUp(a: u32, b: nat, i: nat)
    requires i < 32
    ensures Bit(a * Pow2(b) % TWO32, i) <==> i >= b && Bit(a, i - b)
  {
    Pow2Of32();
    LowBits(a * Pow2(b), 32, i);
    ShiftUpBit(a, b, i);
  }

  /** There is only one such result, so the meaning says what is computed. */
  lemma ResultIsUnique(op: AluOp, a: u32, b: u32, v: u32, w: u32)
    requires IsResult(op, a, b, v) && IsResult(op, a, b, w)
    ensures v == w
  {
    hide Bit, Pow2, Wraps;
    match op
    case Mul =>
      var p: nat :| Wraps(a * b, p, v);
      var q: nat :| Wraps(a * b, q, w);
      WrapsOnce(a * b, p, v, q, w);
    case Div => QuotientIsUnique(a, b, v, w);
    case Add =>
    case Sub =>
    case Neg =>
    case _ =>
      Pow2Of32();
      SameBits(v, w, 32);
  }

  lemma WrapsOnce(n: nat, p: nat, v: u32, q: nat, w: u32)
    requires Wraps(n, p, v) && Wraps(n, q, w)
    ensures v == w
  {
  }

  lemma QuotientIsUnique(a: nat, b: nat, v: nat, w: nat)
    requires b * v <= a < b * v + b && b * w <= a < b * w + b
    ensures v == w
  {
    DivIs(a, b, v, a - b * v);
    DivIs(a, b, w, a - b * w);
  }

  /** At bit `i` the words differ, `a` being the one that has it, and above they agree. */
  predicate Leads(a: nat, b: nat, i: nat)
    decreases i
  {
    if i == 0 then a % 2 == 1 && b % 2 == 0 && a / 2 == b / 2 else Leads(a / 2, b / 2, i - 1)
  }

  lemma {:induction false} LeadingBit(a: nat, b: nat) returns (i: nat)
    requires a > b
    ensures Leads(a, b, i)
    decreases a
  {
    if a / 2 == b / 2 {
      i := 0;
    } else {
      var j := LeadingBit(a / 2, b / 2);
      i := j + 1;
    }
  }

  lemma {:induction false} LeadsIsGreater(a: nat, b: nat, i: nat)
    requires Leads(a, b, i)
    ensures a > b
    decreases i
  {
    if i > 0 {
      LeadsIsGreater(a / 2, b / 2, i - 1);
    }
  }

  predicate Agree(a: u32, b: u32, i: nat) { Bit(a, i) == Bit(b, i) }
  predicate Above(a: u32, b: u32, i: nat) { Leads(a, b, i) }

  /** The comparisons are those of unsigned words. */
  lemma CmpMeaning(a: u32, b: u32)
    ensures EvalCmp(Jeq, a, b) <==> forall i: nat :: i < 32 ==> Agree(a, b, i)
    ensures EvalCmp(Jgt, a, b) <==> exists i: nat :: Above(a, b, i)
    ensures EvalCmp(Jge, a, b) <==> !EvalCmp(Jgt, b, a)
    ensures EvalCmp(Jset, a, b) <==> exists i: nat :: Share(a, b, i)
  {
    MaskIff(a, b);
    hide Bit, Leads, Pow2, Share, And;
    if forall i: nat :: i < 32 ==> Agree(a, b, i) {
      assert forall i: nat :: i < 32 ==> Bit(a, i) == Bit(b, i) by {
        assert forall i: nat :: Agree(a, b, i) == (Bit(a, i) == Bit(b, i));
      }
      Pow2Of32();
      SameBits(a, b, 32);
    }
    if a > b {
      var i := LeadingBit(a, b);
      assert Above(a, b, i);
    }
    if exists i: nat :: Above(a, b, i) {
      var i: nat :| Above(a, b, i);
      LeadsIsGreater(a, b, i);
    }
  }
}
