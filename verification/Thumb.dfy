// The few Thumb-2 instructions the thunks are made of: their encodings, and a machine that runs them
// (ARM DDI 0403, sections A7.7.12, A7.7.76 and A7.7.79, and the pages on BLX, PUSH and POP).

module Thumb {
  import opened Words
  import opened Bytes

  // ----- MOVW, MOVT: 1111 0i10 x100 imm4 | 0 imm3 Rd imm8 -----

  const MOVW := 0xF240
  const MOVT := 0xF2C0

  /** encode_mov_imm. */
  function EncodeMov(rd: int, imm: Half, top: bool): (b: seq<Byte>)
    requires 0 <= rd < 16
    ensures |b| == 4
  {
    Pack16((if top then MOVT else MOVW) + imm / 2048 % 2 * 1024 + imm / 4096)
      + Pack16(imm / 256 % 8 * 4096 + rd * 256 + imm % 256)
  }

  /** hw & 0xFBF0: without the i bit and imm4. */
  function Opcode(h0: Half): int {
    h0 - h0 / 1024 % 2 * 1024 - h0 % 16
  }

  /** decode_mov_imm. */
  function Immediate(h0: Half, h1: Half): Half {
    h0 / 1024 % 2 * 2048 + h0 % 16 * 4096 + h1 / 4096 % 8 * 256 + h1 % 256
  }

  function DestReg(h1: Half): int {
    h1 / 256 % 16
  }

  /** decode_movw_ip_imm16 and decode_movt_ip_imm16: the immediate, if it is that instruction on ip. */
  function DecodeMovIp(b: seq<Byte>, top: bool): Option<Half>
    requires |b| >= 4
  {
    var h0, h1 := Le16(b, 0), Le16(b, 2);
    if Opcode(h0) != (if top then MOVT else MOVW) || DestReg(h1) != 12 then None else Some(Immediate(h0, h1))
  }

  lemma MovHalves(rd: int, imm: Half, top: bool)
    requires 0 <= rd < 16
    ensures var b := EncodeMov(rd, imm, top);
      && Opcode(Le16(b, 0)) == (if top then MOVT else MOVW)
      && Le16(b, 2) < 0x8000 && DestReg(Le16(b, 2)) == rd
      && Immediate(Le16(b, 0), Le16(b, 2)) == imm
  {
    var i, imm4, imm3, imm8 := imm / 2048 % 2, imm / 4096, imm / 256 % 8, imm % 256;
    var h0: Half := (if top then MOVT else MOVW) + i * 1024 + imm4;
    var h1: Half := imm3 * 4096 + rd * 256 + imm8;
    ImmediateFields(imm);
    FieldsOfFirst(if top then MOVT else MOVW, i, imm4);
    FieldsOfSecond(imm3, rd, imm8);
    var b := EncodeMov(rd, imm, top);
    hide Le16, Pack16;
    assert b[0..2] == Pack16(h0) && b[2..4] == Pack16(h1);
    Read16(b, 0, h0);
    Read16(b, 2, h1);
  }

  lemma ImmediateFields(imm: Half)
    ensures imm == imm / 4096 * 4096 + imm / 2048 % 2 * 2048 + imm / 256 % 8 * 256 + imm % 256
  {}

  lemma FieldsOfFirst(op: int, i: int, imm4: int)
    requires (op == MOVW || op == MOVT) && 0 <= i < 2 && 0 <= imm4 < 16
    ensures (op + i * 1024 + imm4) / 1024 % 2 == i && (op + i * 1024 + imm4) % 16 == imm4
  {}

  lemma FieldsOfSecond(imm3: int, rd: int, imm8: int)
    requires 0 <= imm3 < 8 && 0 <= rd < 16 && 0 <= imm8 < 256
    ensures var h := imm3 * 4096 + rd * 256 + imm8;
      0 <= h < 0x8000 && h / 4096 % 8 == imm3 && h / 256 % 16 == rd && h % 256 == imm8
  {}

  /** Reading a written immediate gives it back. */
  lemma MovRoundTrip(imm: Half, top: bool)
    ensures DecodeMovIp(EncodeMov(12, imm, top), top) == Some(imm)
  {
    hide EncodeMov, Opcode, Immediate, DestReg;
    MovHalves(12, imm, top);
  }

  // ----- B.N: 1110 0 imm11 -----

  /** encode_b_n. */
  function EncodeBranch(halfwords: int): (b: seq<Byte>)
    ensures |b| == 2
  {
    Pack16(0xE000 + halfwords % 2048)
  }

  /** imm11, sign-extended. */
  function BranchOffset(h: Half): int {
    if h % 2048 >= 1024 then h % 2048 - 2048 else h % 2048
  }

  lemma BranchRoundTrip(halfwords: int)
    requires -1024 <= halfwords <= 1023
    ensures var h := Le16(EncodeBranch(halfwords), 0); 0xE000 <= h < 0xE800 && BranchOffset(h) == halfwords
  {}

  // ----- the machine -----

  /** Registers 0 to 15; `stack` holds words of memory that is not code. */
  datatype Machine = Machine(r: seq<Word>, stack: map<int, Word>)

  const IP := 12
  const SP := 13
  const LR := 14
  const PC := 15

  predicate Running(s: Machine) {
    |s.r| == 16 && s.r[PC] % 2 == 0
  }

  /** Code bytes at an absolute address. */
  datatype Code = Code(at: int, bytes: seq<Byte>)

  predicate InCode(c: Code, addr: int, n: int) {
    c.at <= addr && addr + n <= c.at + |c.bytes|
  }

  function Plus(w: int, n: int): Word {
    Wrap(w + n)
  }

  /** A branch that leaves Thumb state faults. */
  function BranchTo(s: Machine, target: Word): Option<Machine>
    requires |s.r| == 16
  {
    if target % 2 == 0 then None else Some(s.(r := s.r[PC := target - 1]))
  }

  /** r is a pointer to the Thumb code at addr: whatever the registers, a branch to it goes on there. */
  ghost predicate Enters(r: int, addr: int) {
    && 0 <= r < LIMIT && 0 <= addr < LIMIT
    && forall s: Machine :: |s.r| == 16 ==> BranchTo(s, r) == Some(s.(r := s.r[PC := addr]))
  }

  /** One instruction. None: not one of these, outside the code, or a fault. */
  function Step(c: Code, s: Machine): Option<Machine> {
    if !Running(s) || !InCode(c, s.r[PC], 2) then None
    else
      var pc := s.r[PC];
      var h0 := Le16(c.bytes, pc - c.at);
      if 0xE000 <= h0 < 0xE800 then Some(s.(r := s.r[PC := Plus(pc, 4 + 2 * BranchOffset(h0))]))
      else if h0 / 128 == 0x47 * 2 + 1 && h0 % 8 == 0 then
        var target := s.r[h0 / 8 % 16];
        BranchTo(s.(r := s.r[LR := Plus(pc, 2) / 2 * 2 + 1]), target)
      else if !InCode(c, pc, 4) then None
      else Wide(s, h0, Le16(c.bytes, pc - c.at + 2))
  }

  /** The 32-bit instructions. */
  function Wide(s: Machine, h0: Half, h1: Half): Option<Machine>
    requires Running(s)
  {
    var next := Plus(s.r[PC], 4);
    if Opcode(h0) == MOVW && h1 < 0x8000 && DestReg(h1) < SP then
      Some(s.(r := s.r[DestReg(h1) := Immediate(h0, h1)][PC := next]))
    else if Opcode(h0) == MOVT && h1 < 0x8000 && DestReg(h1) < SP then
      Some(s.(r := s.r[DestReg(h1) := Immediate(h0, h1) * 0x1_0000 + s.r[DestReg(h1)] % 0x1_0000][PC := next]))
    else if h0 == 0xE92D && h1 == 0x4200 then // push.w {r9, lr}
      var sp: int := Plus(s.r[SP], -8);
      Some(Machine(s.r[SP := sp][PC := next], s.stack[sp := s.r[9]][sp + 4 := s.r[LR]]))
    else if h0 == 0xE8BD && h1 == 0x8200 then // pop.w {r9, pc}
      var sp: int := s.r[SP];
      if sp in s.stack && sp + 4 in s.stack then
        BranchTo(s.(r := s.r[9 := s.stack[sp]][SP := Plus(sp, 8)]), s.stack[sp + 4])
      else None
    else None
  }

  /** n instructions. */
  function Run(c: Code, s: Machine, n: nat): Option<Machine>
    decreases n
  {
    if n == 0 then Some(s)
    else
      match Step(c, s)
      case None => None
      case Some(s') => Run(c, s', n - 1)
  }

  /** The bytes at addr. */
  predicate Holds(c: Code, addr: int, b: seq<Byte>) {
    InCode(c, addr, |b|) && c.bytes[addr - c.at..addr - c.at + |b|] == b
  }

  lemma HalfOf(c: Code, addr: int, b: seq<Byte>, i: int)
    requires Holds(c, addr, b) && 0 <= i && i + 2 <= |b|
    ensures InCode(c, addr + i, 2) && Le16(c.bytes, addr + i - c.at) == Le16(b, i)
  {
    assert c.bytes[addr - c.at..addr - c.at + |b|][i] == b[i] && c.bytes[addr - c.at..addr - c.at + |b|][i + 1] == b[i + 1];
  }

  lemma StepIsWide(c: Code, s: Machine)
    requires Running(s) && InCode(c, s.r[PC], 4)
    requires var h0 := Le16(c.bytes, s.r[PC] - c.at); h0 >= 0xE800
    ensures Step(c, s) == Wide(s, Le16(c.bytes, s.r[PC] - c.at), Le16(c.bytes, s.r[PC] - c.at + 2))
  {
    hide Wide, Le16, BranchOffset;
    var pc: int := s.r[PC];
    assert InCode(c, pc, 2);
    assert Le16(c.bytes, pc - c.at) / 128 >= 0x1D0;
  }

  lemma WideMov(s: Machine, rd: int, imm: Half, top: bool, h0: Half, h1: Half)
    requires Running(s) && 0 <= rd < SP && (s.r[PC] as int) + 4 < LIMIT
    requires Opcode(h0) == (if top then MOVT else MOVW) && h1 < 0x8000 && DestReg(h1) == rd && Immediate(h0, h1) == imm
    ensures h0 >= 0xE800
    ensures Wide(s, h0, h1)
      == Some(s.(r := s.r[rd := if top then imm * 0x1_0000 + s.r[rd] % 0x1_0000 else imm][PC := s.r[PC] + 4]))
  {
    OpcodeBelow(h0);
    hide Opcode, DestReg, Immediate, BranchTo, Plus;
    assert Plus(s.r[PC], 4) == s.r[PC] + 4 by { PlusSmall(s.r[PC], 4); }
  }

  lemma PlusSmall(w: int, n: int)
    requires 0 <= w + n < LIMIT
    ensures Plus(w, n) == w + n
  {}

  lemma OpcodeBelow(h0: Half)
    ensures Opcode(h0) <= h0
  {}

  /** The step over a written movw or movt. */
  lemma StepMov(c: Code, s: Machine, rd: int, imm: Half, top: bool, b: seq<Byte>, i: int)
    requires Running(s) && 0 <= rd < SP && 0 <= i && (s.r[PC] as int) + 4 < LIMIT
    requires Holds(c, s.r[PC] - i, b) && i + 4 <= |b| && b[i..i + 4] == EncodeMov(rd, imm, top)
    ensures Step(c, s) == Some(s.(r := s.r[rd := if top then imm * 0x1_0000 + s.r[rd] % 0x1_0000 else imm][PC := s.r[PC] + 4]))
  {
    hide Step, Wide, EncodeMov, Opcode, Immediate, DestReg, Holds;
    var pc: int := s.r[PC];
    MovHalves(rd, imm, top);
    HalfOf(c, pc - i, b, i);
    HalfOf(c, pc - i, b, i + 2);
    var m := b[i..i + 4];
    assert m[0] == b[i] && m[1] == b[i + 1] && m[2] == b[i + 2] && m[3] == b[i + 3];
    assert Le16(m, 0) == Le16(b, i) && Le16(m, 2) == Le16(b, i + 2);
    assert pc - i + i - c.at == pc - c.at && pc - i + (i + 2) - c.at == pc - c.at + 2;
    hide Le16;
    WideMov(s, rd, imm, top, Le16(c.bytes, pc - c.at), Le16(c.bytes, pc - c.at + 2));
    StepIsWide(c, s);
  }

  /** movw rd; movt rd loads a 32-bit constant. */
  lemma RunConstant(c: Code, s: Machine, rd: int, w: Word, b: seq<Byte>, i: int)
    requires Running(s) && 0 <= rd < SP && 0 <= i && (s.r[PC] as int) + 8 < LIMIT
    requires Holds(c, s.r[PC] - i, b) && i + 8 <= |b|
    requires b[i..i + 4] == EncodeMov(rd, w % 0x1_0000, false) && b[i + 4..i + 8] == EncodeMov(rd, w / 0x1_0000, true)
    ensures Run(c, s, 2) == Some(s.(r := s.r[rd := w][PC := s.r[PC] + 8]))
  {
    hide Step, Holds, EncodeMov;
    var pc: int := s.r[PC];
    StepMov(c, s, rd, w % 0x1_0000, false, b, i);
    var s1 := s.(r := s.r[rd := w % 0x1_0000][PC := pc + 4]);
    StepMov(c, s1, rd, w / 0x1_0000, true, b, i + 4);
    assert w / 0x1_0000 * 0x1_0000 + w % 0x1_0000 == w;
    assert s1.r[rd := w][PC := pc + 8] == s.r[rd := w][PC := pc + 8];
    assert Run(c, s1, 1) == Step(c, s1);
  }
}
