/**
 * Classic BPF as the seccomp evaluator runs it: instruction decoding, the effect
 * of one instruction, the meaning of a piece of code, and the interpreter itself.
 *
 * Every BPF jump goes forward, so the meaning is a function of the code that is
 * still ahead: a jump drops a prefix of it.  No program counter is needed until
 * the interpreter class, which has one, is related to that meaning.
 */
module Bpf {
  import opened Words

  // struct sock_filter
  datatype Instr = Instr(code: u16, jt: u8, jf: u8, k: u32)

  function Stmt(code: u16, k: u32): Instr { Instr(code, 0, 0, k) }

  const LD_W_ABS: u16 := 0x20
  const RET_K: u16 := 0x06
  const RET_A: u16 := 0x16
  const JMP_JA: u16 := 0x05
  const JMP_JEQ_K: u16 := 0x15
  const JMP_JSET_K: u16 := 0x45

  datatype AluOp = Add | Sub | Mul | Div | BitOr | BitAnd | Lsh | Rsh | Neg | BitXor
  datatype CmpOp = Jeq | Jgt | Jge | Jset

  datatype Op =
    | LdAbs | LdLen | LdxLen | LdImm | LdxImm | Tax | Txa
    | LdMem | LdxMem | St | Stx | RetK | RetA
    | Alu(alu: AluOp, useX: bool)
    | Ja
    | Jcc(cmp: CmpOp, useX: bool)
    | Invalid

  /** The case labels of the evaluator's switch. */
  function Decode(code: u16): Op {
    if code == LD_W_ABS then LdAbs
    else if code == 0x80 then LdLen
    else if code == 0x81 then LdxLen
    else if code == 0x00 then LdImm
    else if code == 0x01 then LdxImm
    else if code == 0x07 then Tax
    else if code == 0x87 then Txa
    else if code == 0x60 then LdMem
    else if code == 0x61 then LdxMem
    else if code == 0x02 then St
    else if code == 0x03 then Stx
    else if code == RET_K then RetK
    else if code == RET_A then RetA
    else if code == JMP_JA then Ja
    else if code % 8 == 5 then DecodeJump(code / 16, code / 8 % 2 == 1)
    else if code % 8 == 4 then DecodeAlu(code / 16, code / 8 % 2 == 1)
    else Invalid
  }

  function DecodeJump(op: nat, useX: bool): Op {
    match op
    case 1 => Jcc(Jeq, useX)
    case 2 => Jcc(Jgt, useX)
    case 3 => Jcc(Jge, useX)
    case 4 => Jcc(Jset, useX)
    case _ => Invalid
  }

  function DecodeAlu(op: nat, useX: bool): Op {
    match op
    case 0 => Alu(Add, useX)
    case 1 => Alu(Sub, useX)
    case 2 => Alu(Mul, useX)
    case 3 => Alu(Div, useX)
    case 4 => Alu(BitOr, useX)
    case 5 => Alu(BitAnd, useX)
    case 6 => Alu(Lsh, useX)
    case 7 => Alu(Rsh, useX)
    case 8 => if useX then Invalid else Alu(Neg, false)
    case 10 => Alu(BitXor, useX)
    case _ => Invalid
  }

  // struct seccomp_data as sixteen little-endian 32-bit words:
  // nr, arch, instruction pointer (low, high), six arguments (low, high)
  type Data = s: seq<u32> | |s| == 16 witness [0, 0, 0, 0, 0, 0, 0, 0, 0, 0, 0, 0, 0, 0, 0, 0]
  const DATA_SIZE: nat := 64

  function Nr(d: Data): u32 { d[0] }
  function Arch(d: Data): u32 { d[1] }
  function ArgLow(d: Data, i: nat): u32
    requires i < 6
  {
    d[4 + 2 * i]
  }

  type Scratch = s: seq<Option<u32>> | |s| == 16
    witness [None, None, None, None, None, None, None, None, None, None, None, None, None, None, None, None]

  datatype Regs = Regs(a: u32, x: u32, m: Scratch)

  const INITIAL: Regs :=
    Regs(0, 0, [None, None, None, None, None, None, None, None, None, None, None, None, None, None, None, None])

  /** EvaluateAlu.  A shift by 32 or more is undefined in the source; here it is an error. */
  function EvalAlu(op: AluOp, a: u32, b: u32): Option<u32> {
    match op
    case Add => Some((a + b) % TWO32)
    case Sub => Some((a + TWO32 - b) % TWO32)
    case Mul => Some((a * b) % TWO32)
    case Div => if b == 0 then None else Some(Quotient(a, b))
    case BitOr => Some(Or32(a, b))
    case BitAnd => Some(And(a, b))
    case BitXor => Some(Xor32(a, b))
    case Lsh => if b >= 32 then None else Some((a * Pow2(b)) % TWO32)
    case Rsh => if b >= 32 then None else Some(Quotient(a, Pow2(b)))
    case Neg => Some((TWO32 - a) % TWO32)
  }

  function Quotient(a: u32, b: nat): u32
    requires b > 0
  {
    assert a / b <= a by { QuotientBound(a, b); }
    a / b
  }

  lemma QuotientBound(a: nat, b: nat)
    requires b > 0
    ensures a / b <= a
  {
    MulAtLeast(b, a / b);
  }

  lemma MulAtLeast(b: nat, q: nat)
    requires b > 0
    ensures q <= b * q
  {
  }

  predicate EvalCmp(op: CmpOp, a: u32, b: u32) {
    match op
    case Jeq => a == b
    case Jgt => a > b
    case Jge => a >= b
    case Jset => And(a, b) != 0
  }

  /** What one instruction does: continue after skipping `skip` instructions, return, or fail. */
  datatype Effect = Continue(r: Regs, skip: nat) | Answer(v: u32, constant: bool) | Fail

  function Step(i: Instr, d: Data, r: Regs): Effect {
    match Decode(i.code)
    case LdAbs =>
      if i.k % 4 != 0 || i.k + 4 > DATA_SIZE then Fail else Continue(r.(a := d[i.k / 4]), 0)
    case LdLen => Continue(r.(a := DATA_SIZE), 0)
    case LdxLen => Continue(r.(x := DATA_SIZE), 0)
    case LdImm => Continue(r.(a := i.k), 0)
    case LdxImm => Continue(r.(x := i.k), 0)
    case Tax => Continue(r.(x := r.a), 0)
    case Txa => Continue(r.(a := r.x), 0)
    case LdMem => if i.k >= 16 || r.m[i.k].None? then Fail else Continue(r.(a := r.m[i.k].value), 0)
    case LdxMem => if i.k >= 16 || r.m[i.k].None? then Fail else Continue(r.(x := r.m[i.k].value), 0)
    case St => if i.k >= 16 then Fail else Continue(r.(m := r.m[i.k := Some(r.a)]), 0)
    case Stx => if i.k >= 16 then Fail else Continue(r.(m := r.m[i.k := Some(r.x)]), 0)
    case RetK => Answer(i.k, true)
    case RetA => Answer(r.a, false)
    case Alu(op, useX) =>
      var v := EvalAlu(op, r.a, if useX then r.x else i.k);
      if v.None? then Fail else Continue(r.(a := v.value), 0)
    case Ja => Continue(r, i.k)
    case Jcc(op, useX) =>
      Continue(r, if EvalCmp(op, r.a, if useX then r.x else i.k) then i.jt else i.jf)
    case Invalid => Fail
  }

  /**
   * Meaning of the code ahead: it returns (from a constant or from A), control
   * arrives exactly at its end, or evaluation fails.
   */
  datatype Outcome = Return(v: u32, constant: bool) | Exit(r: Regs) | Error

  function Run(code: seq<Instr>, d: Data, r: Regs): (o: Outcome)
    decreases |code|
  {
    if code == [] then Exit(r)
    else
      match Step(code[0], d, r)
      case Answer(v, constant) => Return(v, constant)
      case Fail => Error
      case Continue(r', skip) => if skip >= |code| then Error else Run(code[1 + skip..], d, r')
  }

  /** bpf::Evaluate of a whole program: leaving through the end is an error. */
  function Meaning(prog: seq<Instr>, d: Data): Option<u32> {
    match Run(prog, d, INITIAL)
    case Return(v, _) => Some(v)
    case Exit(_) => None
    case Error => None
  }

  // Sequential composition ------------------------------------------------

  /** No jump of `code` goes past the end of `code`. */
  ghost predicate JumpsInside(code: seq<Instr>) {
    forall i :: 0 <= i < |code| ==> JumpFits(code[i], |code| - i - 1)
  }

  ghost predicate JumpFits(i: Instr, ahead: nat) {
    match Decode(i.code)
    case Ja => i.k <= ahead
    case Jcc(_, _) => i.jt <= ahead && i.jf <= ahead
    case _ => true
  }

  lemma JumpsInsideDrop(code: seq<Instr>, n: nat)
    requires JumpsInside(code) && n <= |code|
    ensures JumpsInside(code[n..])
  {
    var rest := code[n..];
    forall i | 0 <= i < |rest| ensures JumpFits(rest[i], |rest| - i - 1) {
      assert JumpFits(code[n + i], |code| - (n + i) - 1);
    }
  }

  /** Code whose jumps stay inside can be put before anything. */
  lemma {:induction false} RunAppend(c1: seq<Instr>, c2: seq<Instr>, d: Data, r: Regs)
    requires JumpsInside(c1)
    ensures Run(c1 + c2, d, r) ==
            match Run(c1, d, r)
            case Exit(r') => Run(c2, d, r')
            case o => o
    decreases |c1|
  {
    if c1 == [] {
      assert c1 + c2 == c2;
    } else {
      assert JumpFits(c1[0], |c1| - 1);
      match Step(c1[0], d, r)
      case Continue(r', skip) =>
        assert skip < |c1|;
        assert (c1 + c2)[1 + skip..] == c1[1 + skip..] + c2;
        assert JumpsInside(c1[1 + skip..]) by {
          JumpsInsideDrop(c1, 1 + skip);
        }
        RunAppend(c1[1 + skip..], c2, d, r');
      case _ =>
    }
  }

  lemma JumpsInsideAppend(c1: seq<Instr>, c2: seq<Instr>)
    requires JumpsInside(c1) && JumpsInside(c2)
    ensures JumpsInside(c1 + c2)
  {
    forall i | 0 <= i < |c1 + c2| ensures JumpFits((c1 + c2)[i], |c1 + c2| - i - 1) {
      if i < |c1| {
        assert JumpFits(c1[i], |c1| - i - 1);
      } else {
        assert JumpFits(c2[i - |c1|], |c2| - (i - |c1|) - 1);
      }
    }
  }

  /** Number of instructions executed. */
  ghost function Cost(code: seq<Instr>, d: Data, r: Regs): nat
    decreases |code|
  {
    if code == [] then 0
    else
      match Step(code[0], d, r)
      case Continue(r', skip) => if skip >= |code| then 1 else 1 + Cost(code[1 + skip..], d, r')
      case _ => 1
  }

  /** Every run is over within as many steps as there are instructions. */
  lemma {:induction false} CostBound(code: seq<Instr>, d: Data, r: Regs)
    ensures Cost(code, d, r) <= |code|
    decreases |code|
  {
    if code != [] {
      match Step(code[0], d, r)
      case Continue(r', skip) =>
        if skip < |code| {
          CostBound(code[1 + skip..], d, r');
        }
      case _ =>
    }
  }

  // The interpreter --------------------------------------------------------

  /** The part of a program that a 32-bit program counter can reach. */
  function Addressable(prog: seq<Instr>): seq<Instr> {
    if |prog| > TWO32 then prog[..TWO32] else prog
  }

  class Interpreter {
    const prog: seq<Instr>
    const data: Data
    var pc: u32
    var accumulator: u32
    var xReg: u32
    const mem: array<Option<u32>>
    var result: Option<u32>

    ghost predicate Valid()
      reads this, mem
    {
      mem.Length == 16
    }

    ghost function Registers(): Regs
      requires Valid()
      reads this, mem
    {
      Regs(accumulator, xReg, mem[..])
    }

    constructor (prog: seq<Instr>, data: Data)
      ensures Valid() && fresh(mem)
      ensures this.prog == prog && this.data == data
      ensures Registers() == INITIAL && pc == 0 && result == None
    {
      this.prog := prog;
      this.data := data;
      pc, accumulator, xReg, result := 0, 0, 0, None;
      mem := new Option<u32>[16](_ => None);
      new;
      assert mem[..] == INITIAL.m;
    }

    method EvaluateSingleInstruction() returns (ok: bool)
      requires Valid() && result.None?
      modifies this, mem
      ensures Valid()
      ensures old(pc) >= |prog| ==> !ok
      ensures old(pc) < |prog| ==>
                match Step(prog[old(pc)], data, old(Registers()))
                case Answer(v, _) => ok && result == Some(v)
                case Fail => !ok
                case Continue(r', skip) =>
                  var target := old(pc) + 1 + skip;
                  && ok == (target < |Addressable(prog)|)
                  && (ok ==> result.None? && Registers() == r' && pc == target)
    {
      if pc >= |prog| {
        return false;
      }
      var inst := prog[pc];
      var offset: u32 := 0;
      match Decode(inst.code) {
        case LdAbs =>
          if inst.k % 4 != 0 {
            return false;
          }
          if inst.k + 4 > DATA_SIZE {
            return false;
          }
          accumulator := data[inst.k / 4];
        case LdLen => accumulator := DATA_SIZE;
        case LdxLen => xReg := DATA_SIZE;
        case LdImm => accumulator := inst.k;
        case LdxImm => xReg := inst.k;
        case Tax => xReg := accumulator;
        case Txa => accumulator := xReg;
        case LdMem =>
          if inst.k >= mem.Length || mem[inst.k].None? {
            return false;
          }
          accumulator := mem[inst.k].value;
        case LdxMem =>
          if inst.k >= mem.Length || mem[inst.k].None? {
            return false;
          }
          xReg := mem[inst.k].value;
        case St =>
          if inst.k >= mem.Length {
            return false;
          }
          mem[inst.k] := Some(accumulator);
        case Stx =>
          if inst.k >= mem.Length {
            return false;
          }
          mem[inst.k] := Some(xReg);
        case RetK =>
          result := Some(inst.k);
          return true;
        case RetA =>
          result := Some(accumulator);
          return true;
        case Alu(op, useX) =>
          var val := if useX then xReg else inst.k;
          var v := EvalAlu(op, accumulator, val);
          if v.None? {
            return false;
          }
          accumulator := v.value;
        case Ja =>
          offset := inst.k;
        case Jcc(op, useX) =>
          var val := if useX then xReg else inst.k;
          offset := if EvalCmp(op, accumulator, val) then inst.jt else inst.jf;
        case Invalid =>
          return false;
      }
      if pc > TWO32 - 2 || pc + 1 >= |prog| {
        return false;
      }
      pc := pc + 1;
      if offset != 0 && (pc > TWO32 - 1 - offset || pc + offset >= |prog|) {
        return false;
      }
      pc := pc + offset;
      return true;
    }

    method Evaluate() returns (r: Option<u32>)
      requires Valid()
      modifies this, mem
      ensures Valid()
      ensures r == match Run(Addressable(prog), data, old(Registers()))
                   case Return(v, _) => Some(v)
                   case _ => None
    {
      pc := 0;
      result := None;
      ghost var code := Addressable(prog);
      ghost var start := Registers();
      assert code[0..] == code;
      while result.None?
        invariant Valid()
        invariant result.Some? ==>
                    exists constant :: Run(code, data, start) == Return(result.value, constant)
        invariant result.None? ==>
                    pc <= |code| && Run(code, data, start) == Run(code[pc..], data, Registers())
        decreases result.None?, |code| - pc
      {
        ghost var before := pc;
        ghost var regs := Registers();
        ghost var rest := code[pc..];
        var ok := EvaluateSingleInstruction();
        if !ok {
          return None;
        }
        assert rest[0] == prog[before];
        match Step(prog[before], data, regs)
        case Answer(v, constant) =>
          assert Run(rest, data, regs) == Return(v, constant);
        case Continue(r', skip) =>
          assert rest[1 + skip..] == code[pc..];
      }
      r := result;
    }
  }

  /** The library entry point: a fresh interpreter computes the meaning of the program. */
  method Evaluate(prog: seq<Instr>, data: Data) returns (r: Option<u32>)
    ensures r == Meaning(Addressable(prog), data)
  {
    var interpreter := new Interpreter(prog, data);
    r := interpreter.Evaluate();
  }
}
