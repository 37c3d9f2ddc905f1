// The thunk pool: stubs that load a function's address and branch to their module's gateway, which
// switches r9. What the bytes mean, and the two-ended pool they are kept in.

module Thunks {
  import opened Words
  import opened Bytes
  import opened Thumb

  const STUB_SIZE := 10
  const GATEWAY_SIZE := 18

  /** The constant rides in the instruction stream. */
  function LoadConstant(rd: int, w: Word): (b: seq<Byte>)
    requires 0 <= rd < 16
    ensures |b| == 8
  {
    EncodeMov(rd, w % 0x1_0000, false) + EncodeMov(rd, w / 0x1_0000, true)
  }

  function StubBytes(func: Word, halfwords: int): (b: seq<Byte>)
    ensures |b| == STUB_SIZE
  {
    LoadConstant(IP, func) + EncodeBranch(halfwords)
  }

  /** push.w {r9, lr}; movw r9; movt r9; blx ip; pop.w {r9, pc}. */
  function GatewayBytes(ram: Word): (b: seq<Byte>)
    ensures |b| == GATEWAY_SIZE
  {
    [0x2D, 0xE9, 0x00, 0x42] + LoadConstant(9, ram) + [0xE0, 0x47] + [0xBD, 0xE8, 0x00, 0x82]
  }

  // ----- what the code does -----

  lemma {:induction false} RunOn(c: Code, s: Machine, m: nat, n: nat)
    requires Run(c, s, m).Some?
    ensures Run(c, s, m + n) == Run(c, Run(c, s, m).value, n)
    decreases m
  {
    hide Step;
    if m == 0 {
    } else {
      RunOn(c, Step(c, s).value, m - 1, n);
    }
  }

  lemma StubSteps(c: Code, s: Machine, func: Word, halfwords: int, gateway: Word)
    requires Running(s) && Holds(c, s.r[PC], StubBytes(func, halfwords)) && -1024 <= halfwords <= 1023
    requires (s.r[PC] as int) + STUB_SIZE < LIMIT && gateway == Plus(s.r[PC], 12 + 2 * halfwords)
    ensures Run(c, s, 3) == Some(s.(r := s.r[IP := func][PC := gateway]))
  {
    hide Step, Holds, EncodeMov, EncodeBranch, BranchOffset;
    assert Plus((s.r[PC] as int) + 8, 4 + 2 * halfwords) == gateway;
    hide Plus;
    var b, pc: int := StubBytes(func, halfwords), s.r[PC];
    assert b[0..4] == EncodeMov(IP, func % 0x1_0000, false) && b[4..8] == EncodeMov(IP, func / 0x1_0000, true);
    RunConstant(c, s, IP, func, b, 0);
    var s1 := s.(r := s.r[IP := func][PC := pc + 8]);
    StepBranch(c, s1, b, halfwords);
    RunOn(c, s, 2, 1);
    assert s1.r[PC := gateway] == s.r[IP := func][PC := gateway];
    assert Run(c, s1, 1) == Step(c, s1);
  }

  lemma StepBranch(c: Code, s: Machine, b: seq<Byte>, halfwords: int)
    requires Running(s) && Holds(c, (s.r[PC] as int) - 8, b) && |b| == STUB_SIZE && b[8..10] == EncodeBranch(halfwords)
    requires -1024 <= halfwords <= 1023
    ensures Step(c, s) == Some(s.(r := s.r[PC := Plus(s.r[PC], 4 + 2 * halfwords)]))
  {
    hide Holds, EncodeBranch, BranchOffset, BranchTo, Wide, Le16;
    var pc: int := s.r[PC];
    HalfOf(c, pc - 8, b, 8);
    BranchRoundTrip(halfwords);
    SameHalf(b, 8, EncodeBranch(halfwords));
    assert pc - 8 + 8 - c.at == pc - c.at;
    hide Plus;
  }

  lemma SameHalf(b: seq<Byte>, i: int, h: seq<Byte>)
    requires 0 <= i && i + 2 <= |b| && |h| == 2 && b[i..i + 2] == h
    ensures Le16(b, i) == Le16(h, 0)
  {
    assert b[i..i + 2][0] == b[i] && b[i..i + 2][1] == b[i + 1];
  }

  /** The gateway up to the call. */
  lemma GatewaySteps(c: Code, s: Machine, ram: Word)
    requires Running(s) && Holds(c, s.r[PC], GatewayBytes(ram)) && (s.r[PC] as int) + GATEWAY_SIZE < LIMIT
    requires s.r[SP] >= 8 && s.r[IP] % 2 == 1
    ensures var sp: int := s.r[SP]; var pc: int := s.r[PC];
      Run(c, s, 4) == Some(Machine(s.r[SP := sp - 8][9 := ram][LR := pc + 15][PC := s.r[IP] - 1],
                                   s.stack[sp - 8 := s.r[9]][sp - 4 := s.r[LR]]))
  {
    hide Step, Holds, EncodeMov;
    var b, pc: int, sp: int := GatewayBytes(ram), s.r[PC], s.r[SP];
    StepPush(c, s, b);
    var s1 := Machine(s.r[SP := sp - 8][PC := pc + 4], s.stack[sp - 8 := s.r[9]][sp - 4 := s.r[LR]]);
    assert b[4..8] == EncodeMov(9, ram % 0x1_0000, false) && b[8..12] == EncodeMov(9, ram / 0x1_0000, true);
    RunConstant(c, s1, 9, ram, b, 4);
    var s2 := s1.(r := s1.r[9 := ram][PC := pc + 12]);
    StepCall(c, s2, b);
    var s3 := s2.(r := s2.r[LR := pc + 15][PC := s.r[IP] - 1]);
    RunOn(c, s1, 2, 1);
    assert Run(c, s2, 1) == Step(c, s2) == Some(s3);
    assert s3.r == s.r[SP := sp - 8][9 := ram][LR := pc + 15][PC := s.r[IP] - 1];
  }

  lemma StepPush(c: Code, s: Machine, b: seq<Byte>)
    requires Running(s) && Holds(c, s.r[PC], b) && |b| >= 4 && b[..4] == [0x2D, 0xE9, 0x00, 0x42]
    requires (s.r[PC] as int) + 4 < LIMIT && s.r[SP] >= 8
    ensures var sp: int := s.r[SP];
      Step(c, s) == Some(Machine(s.r[SP := sp - 8][PC := (s.r[PC] as int) + 4], s.stack[sp - 8 := s.r[9]][sp - 4 := s.r[LR]]))
  {
    hide Step, Holds, BranchTo, Immediate, DestReg;
    var pc: int, sp: int := s.r[PC], s.r[SP];
    FirstHalves(c, pc, b);
    assert Le16(b, 0) == 0xE92D && Le16(b, 2) == 0x4200 by { assert b[..4][0] == b[0] && b[..4][1] == b[1] && b[..4][2] == b[2] && b[..4][3] == b[3]; }
    StepIsWide(c, s);
    PlusSmall(pc, 4);
    PlusSmall(sp, -8);
    hide Plus;
    assert Opcode(0xE92D) != MOVW && Opcode(0xE92D) != MOVT;
  }

  lemma FirstHalves(c: Code, pc: int, b: seq<Byte>)
    requires Holds(c, pc, b) && |b| >= 4
    ensures InCode(c, pc, 4) && Le16(c.bytes, pc - c.at) == Le16(b, 0) && Le16(c.bytes, pc - c.at + 2) == Le16(b, 2)
  {
    HalfOf(c, pc, b, 0);
    HalfOf(c, pc, b, 2);
    assert pc + 2 - c.at == pc - c.at + 2;
  }

  lemma StepCall(c: Code, s: Machine, b: seq<Byte>)
    requires Running(s) && Holds(c, (s.r[PC] as int) - 12, b) && |b| >= 14 && b[12] == 0xE0 && b[13] == 0x47
    requires (s.r[PC] as int) + 3 < LIMIT && s.r[IP] % 2 == 1
    ensures Step(c, s) == Some(s.(r := s.r[LR := (s.r[PC] as int) + 3][PC := s.r[IP] - 1]))
  {
    hide Holds, Wide, BranchOffset;
    var pc: int := s.r[PC];
    HalfOf(c, pc - 12, b, 12);
    assert Le16(b, 12) == 0x47E0;
    assert pc - 12 + 12 - c.at == pc - c.at;
    PlusSmall(pc, 2);
    hide Plus;
    assert (pc + 2) / 2 * 2 + 1 == pc + 3;
    assert Le16(c.bytes, pc - c.at) == 0x47E0 && 0x47E0 / 128 == 0x8F && 0x47E0 % 8 == 0 && 0x47E0 / 8 % 16 == 12;
  }

  /** Entering a written stub reaches the function with r9 set to its module's base, the argument
      registers as they were, and the caller's r9 and return address on the stack. */
  lemma EnterStub(c: Code, s: Machine, func: Word, halfwords: int, gateway: Word, ram: Word)
    requires Running(s) && Holds(c, s.r[PC], StubBytes(func, halfwords)) && -1024 <= halfwords <= 1023
    requires gateway == (s.r[PC] as int) + 12 + 2 * halfwords && Holds(c, gateway, GatewayBytes(ram))
    requires (s.r[PC] as int) + STUB_SIZE < LIMIT && (gateway as int) + GATEWAY_SIZE < LIMIT
    requires func % 2 == 1 && s.r[SP] >= 8
    ensures Run(c, s, 7).Some?
    ensures var t := Run(c, s, 7).value;
      && |t.r| == 16 && t.r[PC] == func - 1 && t.r[9] == ram
      && t.r[LR] == (gateway as int) + 15 && t.r[SP] == s.r[SP] - 8
      && (forall k :: 0 <= k < 9 || k == 10 || k == 11 ==> t.r[k] == s.r[k])
      && t.stack == s.stack[(s.r[SP] as int) - 8 := s.r[9]][(s.r[SP] as int) - 4 := s.r[LR]]
  {
    hide Step, Holds, StubBytes, GatewayBytes;
    PlusSmall(s.r[PC], 12 + 2 * halfwords);
    StubSteps(c, s, func, halfwords, gateway);
    var s1 := s.(r := s.r[IP := func][PC := gateway]);
    GatewaySteps(c, s1, ram);
    RunOn(c, s, 3, 4);
  }

  /** When the callee returns with the stack balanced and the saved pair intact, one instruction puts
      control at the caller's return address with the caller's r9 back; other registers are the callee's. */
  lemma ReturnThroughGateway(c: Code, s: Machine, u: Machine, gateway: Word, ram: Word)
    requires Running(s) && Running(u) && Holds(c, gateway, GatewayBytes(ram)) && (gateway as int) + GATEWAY_SIZE < LIMIT
    requires s.r[SP] >= 8 && s.r[LR] % 2 == 1
    requires u.r[PC] == (gateway as int) + 14 && u.r[SP] == s.r[SP] - 8
    requires var sp: int := s.r[SP];
      sp - 8 in u.stack && u.stack[sp - 8] == s.r[9] && sp - 4 in u.stack && u.stack[sp - 4] == s.r[LR]
    ensures Step(c, u) == Some(u.(r := u.r[9 := s.r[9]][SP := s.r[SP]][PC := s.r[LR] - 1]))
  {
    hide Step, Holds, EncodeMov, Immediate, DestReg;
    var b, pc: int, sp: int := GatewayBytes(ram), u.r[PC], s.r[SP];
    HalfOf(c, gateway, b, 14);
    HalfOf(c, gateway, b, 16);
    assert b[14..18] == [0xBD, 0xE8, 0x00, 0x82];
    assert Le16(b, 14) == 0xE8BD && Le16(b, 16) == 0x8200;
    assert (gateway as int) + 14 - c.at == pc - c.at && (gateway as int) + 16 - c.at == pc - c.at + 2;
    assert InCode(c, pc, 4);
    StepIsWide(c, u);
    PlusSmall(sp - 8, 8);
    hide Plus, Le16;
    assert Opcode(0xE8BD) != MOVW && Opcode(0xE8BD) != MOVT;
  }

  // ----- the branch -----

  /** The cast to int16_t. */
  function Int16(x: int): int {
    var w := x % 0x1_0000;
    if w >= 0x8000 then w - 0x1_0000 else w
  }

  /** C division by two. */
  function Half2(x: int): int {
    if x >= 0 then x / 2 else -(-x / 2)
  }

  /** The stub writer's range test, made on the cast value. */
  predicate Accepted(distance: int) {
    -1024 <= Int16(Half2(distance)) <= 1023
  }

  /** What the test accepts, at every distance: the cast makes it periodic. An accepted branch goes to its
      gateway exactly when the gateway is within the instruction's own range. */
  lemma BranchTest(distance: int)
    requires distance % 2 == 0
    ensures Accepted(distance) <==> (distance + 2048) % 0x2_0000 < 4096
    ensures Accepted(distance) ==> (2 * Int16(Half2(distance)) == distance <==> -2048 <= distance <= 2046)
    ensures -2048 <= distance <= 2046 ==> Accepted(distance)
  {
    var half := distance / 2;
    assert distance == 2 * half && Half2(distance) == half;
    CastTest(half);
    hide Int16, Half2;
    DoubleModulus(half + 1024);
    assert distance + 2048 == 2 * (half + 1024);
  }

  lemma CastTest(half: int)
    ensures -1024 <= Int16(half) <= 1023 <==> (half + 1024) % 0x1_0000 < 2048
    ensures Int16(half) == half <==> -0x8000 <= half < 0x8000
  {}

  lemma DoubleModulus(x: int)
    ensures 2 * x % 0x2_0000 == 2 * (x % 0x1_0000)
  {}

  // ----- the pool -----

  /** The largest pool in which no stub is ever farther from a gateway than the test can tell. */
  const REACH := 0x1F81C

  datatype Stub = Stub(func: Word, gateway: nat)

  predicate BytesAt(b: seq<Byte>, off: int, x: seq<Byte>) {
    0 <= off && off + |x| <= |b| && b[off..off + |x|] == x
  }

  predicate SameBut(b: seq<Byte>, b': seq<Byte>, off: int, n: int) {
    |b'| == |b| && forall i :: 0 <= i < |b| && !(off <= i < off + n) ==> b'[i] == b[i]
  }

  lemma BytesKept(b: seq<Byte>, b': seq<Byte>, off: int, n: int, at: int, x: seq<Byte>)
    requires BytesAt(b, at, x) && SameBut(b, b', off, n) && (at + |x| <= off || off + n <= at)
    ensures BytesAt(b', at, x)
  {
    assert b'[at..at + |x|] == b[at..at + |x|];
  }

  /** dst | 1. */
  function Thumb1(addr: int): int {
    addr / 2 * 2 + 1
  }

  lemma PointerEnters(addr: int)
    requires 0 <= addr && addr + 1 < LIMIT && addr % 2 == 0
    ensures Thumb1(addr) != 0 && Enters(Thumb1(addr), addr)
  {
    PointerIs(addr);
    hide Thumb1;
    var r: Word := addr + 1;
    assert r % 2 == 1;
  }

  lemma PointerIs(addr: int)
    requires 0 <= addr && addr % 2 == 0
    ensures Thumb1(addr) == addr + 1
  {}

  /** A call of r with the caller's registers s: seven instructions later control is at func, r9 holds the base,
      and the arguments are as they were. */
  ghost predicate CallReaches(c: Code, s: Machine, r: int, func: Word, base: Word) {
    && 0 <= r < LIMIT && |s.r| == 16 && BranchTo(s, r).Some?
    && var t := Run(c, BranchTo(s, r).value, 7);
       t.Some? && |t.value.r| == 16 && (t.value.r[PC] as int) == (func as int) - 1 && t.value.r[9] == base
         && forall i :: 0 <= i < 4 ==> t.value.r[i] == s.r[i]
  }

  /** A stack with room for the two words the gateway pushes. */
  predicate CanCall(s: Machine) {
    |s.r| == 16 && s.r[SP] >= 8
  }

  lemma StubReads(b: seq<Byte>, off: int, func: Word, halfwords: int)
    requires BytesAt(b, off, StubBytes(func, halfwords))
    ensures DecodeMovIp(b[off..off + 4], false) == Some(func % 0x1_0000)
    ensures DecodeMovIp(b[off + 4..off + 8], true) == Some(func / 0x1_0000)
  {
    hide EncodeMov, DecodeMovIp, EncodeBranch;
    var x := b[off..off + 10];
    assert b[off..off + 4] == x[0..4] == EncodeMov(IP, func % 0x1_0000, false);
    assert b[off + 4..off + 8] == x[4..8] == EncodeMov(IP, func / 0x1_0000, true);
    MovRoundTrip(func % 0x1_0000, false);
    MovRoundTrip(func / 0x1_0000, true);
  }

  /** Reading a gateway's two immediates back. */
  function GatewayRam(b: seq<Byte>, off: int): int
    requires 0 <= off && off + GATEWAY_SIZE <= |b|
  {
    Immediate(Le16(b, off + 8), Le16(b, off + 10)) * 0x1_0000 + Immediate(Le16(b, off + 4), Le16(b, off + 6))
  }

  lemma GatewayReads(b: seq<Byte>, off: int, ram: Word)
    requires BytesAt(b, off, GatewayBytes(ram))
    ensures GatewayRam(b, off) == ram
  {
    hide EncodeMov, Immediate, Opcode, DestReg;
    var x := b[off..off + 18];
    var lo, hi := EncodeMov(9, ram % 0x1_0000, false), EncodeMov(9, ram / 0x1_0000, true);
    assert x[4..8] == lo && x[8..12] == hi;
    MovHalves(9, ram % 0x1_0000, false);
    MovHalves(9, ram / 0x1_0000, true);
    FourBytes(b, off, x, 4, lo);
    FourBytes(b, off, x, 8, hi);
  }

  lemma FourBytes(b: seq<Byte>, off: int, x: seq<Byte>, i: int, m: seq<Byte>)
    requires 0 <= off && off + |x| <= |b| && x == b[off..off + |x|] && 0 <= i && i + 4 <= |x| && |m| == 4 && x[i..i + 4] == m
    ensures Le16(b, off + i) == Le16(m, 0) && Le16(b, off + i + 2) == Le16(m, 2)
  {
    assert x[i] == m[0] && x[i + 1] == m[1] && x[i + 2] == m[2] && x[i + 3] == m[3] by {
      assert x[i..i + 4][0] == x[i] && x[i..i + 4][1] == x[i + 1] && x[i..i + 4][2] == x[i + 2] && x[i..i + 4][3] == x[i + 3];
    }
  }

  function StubOff(k: int): int {
    STUB_SIZE * k
  }

  function GatewayOff(size: int, j: int): int {
    size - GATEWAY_SIZE * (j + 1)
  }

  /** From where the branch of stub k counts to gateway j. */
  function Distance(size: int, k: int, j: int): int {
    GatewayOff(size, j) - (StubOff(k) + 12)
  }

  /** The branch the stub writer puts there, in halfwords. */
  function Branch(size: int, k: int, j: int): int {
    Int16(Half2(Distance(size, k, j)))
  }

  /** The gateway is where the branch can go. */
  predicate Near(size: int, k: int, j: int) {
    -2048 <= Distance(size, k, j) <= 2046
  }

  /** Slot k of the pool holds stub s, which was accepted for one of the first n gateways. */
  predicate StubWritten(b: seq<Byte>, base: int, size: int, n: nat, k: nat, s: Stub) {
    && s.gateway < n && Accepted(Distance(size, k, s.gateway))
    && BytesAt(b, base + StubOff(k), StubBytes(s.func, Branch(size, k, s.gateway)))
  }

  predicate GatewayWritten(b: seq<Byte>, base: int, size: int, j: nat, ram: Word) {
    BytesAt(b, base + GatewayOff(size, j), GatewayBytes(ram))
  }

  /** Writing outside a slot keeps what is in it. */
  lemma StubKept(b: seq<Byte>, b': seq<Byte>, off: int, len: int, base: int, size: int, n: nat, n': nat, k: nat, s: Stub)
    requires StubWritten(b, base, size, n, k, s) && n <= n' && SameBut(b, b', off, len)
    requires base + StubOff(k) + STUB_SIZE <= off
    ensures StubWritten(b', base, size, n', k, s)
  {
    hide StubBytes, BytesAt, SameBut;
    BytesKept(b, b', off, len, base + StubOff(k), StubBytes(s.func, Branch(size, k, s.gateway)));
  }

  lemma GatewayKept(b: seq<Byte>, b': seq<Byte>, off: int, len: int, base: int, size: int, j: nat, ram: Word)
    requires GatewayWritten(b, base, size, j, ram) && SameBut(b, b', off, len)
    requires off + len <= base + GatewayOff(size, j)
    ensures GatewayWritten(b', base, size, j, ram)
  {
    hide GatewayBytes, BytesAt, SameBut;
    BytesKept(b, b', off, len, base + GatewayOff(size, j), GatewayBytes(ram));
  }

  /** What a pool holds: its stubs from the bottom, its gateways from the top. */
  datatype Holdings = Holdings(stubs: seq<Stub>, gateways: seq<Word>)

  /** The first stub of the function, or one past the last. */
  function StubOf(stubs: seq<Stub>, func: Word): (k: nat)
    ensures k <= |stubs| && (k < |stubs| ==> stubs[k].func == func)
    ensures forall l :: 0 <= l < k ==> stubs[l].func != func
  {
    if stubs == [] then 0 else if stubs[0].func == func then 0 else 1 + StubOf(stubs[1..], func)
  }

  function GatewayOf(gateways: seq<Word>, ram: Word): (j: nat)
    ensures j <= |gateways| && (j < |gateways| ==> gateways[j] == ram)
    ensures forall l :: 0 <= l < j ==> gateways[l] != ram
  {
    if gateways == [] then 0 else if gateways[0] == ram then 0 else 1 + GatewayOf(gateways[1..], ram)
  }

  lemma NoGateway(gateways: seq<Word>, ram: Word)
    requires forall j :: 0 <= j < |gateways| ==> gateways[j] != ram
    ensures GatewayOf(gateways, ram) == |gateways|
  {}

  /** The gateways once the module has one, if there is room for it. */
  function WithGateway(size: int, h: Holdings, ram: Word): Option<seq<Word>> {
    if GatewayOf(h.gateways, ram) < |h.gateways| then Some(h.gateways)
    else if GatewayOff(size, |h.gateways| - 1) < StubOff(|h.stubs|) + GATEWAY_SIZE then None
    else Some(h.gateways + [ram])
  }

  /** What a call leaves in the pool, and which stub it answers with. */
  function Called(size: int, h: Holdings, func: Word, ram: Word): (Holdings, Option<nat>) {
    var n := |h.stubs|;
    if StubOf(h.stubs, func) < n then (h, Some(StubOf(h.stubs, func)))
    else
      match WithGateway(size, h, ram)
      case None => (h, None)
      case Some(gateways) =>
        var j := GatewayOf(gateways, ram);
        if StubOff(n) + STUB_SIZE > GatewayOff(size, |gateways| - 1) || !Accepted(Distance(size, n, j))
        then (Holdings(h.stubs, gateways), None)
        else (Holdings(h.stubs + [Stub(func, j)], gateways), Some(n))
  }

  /** With a gateway and no stub yet, the new stub's slot and reach decide. */
  lemma CalledAfresh(size: int, h: Holdings, func: Word, ram: Word, gateways: seq<Word>, j: nat)
    requires StubOf(h.stubs, func) == |h.stubs| && WithGateway(size, h, ram) == Some(gateways) && j == GatewayOf(gateways, ram)
    ensures Called(size, h, func, ram) ==
      if StubOff(|h.stubs|) + STUB_SIZE > GatewayOff(size, |gateways| - 1) || !Accepted(Distance(size, |h.stubs|, j))
      then (Holdings(h.stubs, gateways), None)
      else (Holdings(h.stubs + [Stub(func, j)], gateways), Some(|h.stubs|))
  {
    hide Accepted, WithGateway;
  }

  lemma CalledAgain(size: int, h: Holdings, func: Word, ram: Word)
    ensures StubOf(h.stubs, func) < |h.stubs| ==> Called(size, h, func, ram) == (h, Some(StubOf(h.stubs, func)))
    ensures StubOf(h.stubs, func) == |h.stubs| && WithGateway(size, h, ram).None? ==> Called(size, h, func, ram) == (h, None)
  {
    hide Accepted, WithGateway;
  }

  /** The answer serves the module that asked exactly if the function had no stub, or one behind that
      module's own gateway. */
  lemma CallServes(size: int, h: Holdings, func: Word, ram: Word)
    requires forall k :: 0 <= k < |h.stubs| ==> h.stubs[k].gateway < |h.gateways|
    requires Called(size, h, func, ram).1.Some?
    ensures var (after, answer) := Called(size, h, func, ram); var k, had := answer.value, StubOf(h.stubs, func);
      && k < |after.stubs| && after.stubs[k].func == func && after.stubs[k].gateway < |after.gateways|
      && (after.gateways[after.stubs[k].gateway] == ram <==> had == |h.stubs| || h.gateways[h.stubs[had].gateway] == ram)
  {
    hide Accepted, Distance;
    if StubOf(h.stubs, func) == |h.stubs| {
      var gateways := WithGateway(size, h, ram).value;
      var j := GatewayOf(gateways, ram);
      assert gateways[|gateways| - 1] == ram || gateways == h.gateways;
    }
  }

  /** A function gets a new stub exactly if, with it and its module's gateway, stubs of ten bytes and gateways of
      eighteen still fit the pool together, and the range test accepts the distance. */
  lemma CallRoom(size: int, h: Holdings, func: Word, ram: Word)
    requires StubOf(h.stubs, func) == |h.stubs|
    ensures var had := GatewayOf(h.gateways, ram); var gateways := if had < |h.gateways| then |h.gateways| else |h.gateways| + 1;
      Called(size, h, func, ram).1.Some? <==>
        10 * (|h.stubs| + 1) + 18 * gateways <= size && Accepted(size - 18 * (had + 1) - (10 * |h.stubs| + 12))
  {
    hide Accepted;
    var had, all := GatewayOf(h.gateways, ram), h.gateways + [ram];
    if had == |h.gateways| {
      NewGateway(h.gateways, ram);
    }
  }

  lemma NewGateway(gateways: seq<Word>, ram: Word)
    requires GatewayOf(gateways, ram) == |gateways|
    ensures GatewayOf(gateways + [ram], ram) == |gateways|
  {
    hide GatewayOf;
    var all := gateways + [ram];
    assert all[|gateways|] == ram && forall l :: 0 <= l < |gateways| ==> all[l] == gateways[l];
  }

  /** Bytes in front of the first word boundary, if there are that many. */
  function Skip(address: int, sz: int): int {
    if (address + 3) / 4 * 4 - address < sz then (address + 3) / 4 * 4 - address else sz
  }

  /** The pool is the largest part of the buffer that is word-aligned at both ends. */
  lemma PoolIsLargest(address: nat, sz: nat, lo: nat, n: nat)
    requires lo + n <= sz && (address + lo) % 4 == 0 && n % 4 == 0
    ensures var base := Skip(address, sz); var size := (sz - base) / 4 * 4;
      && 0 <= base && base + size <= sz && size % 4 == 0 && (size > 0 ==> (address + base) % 4 == 0)
      && n <= size && (n > 0 ==> base <= lo)
  {}

  class Pool {
    const buf: array<Byte>
    const at: int
    var base: int
    var size: int
    var used: int
    var gatewayTop: int
    /** What has been written: stub k at 10k from the bottom, gateway j the j-th from the top. */
    ghost var stubs: seq<Stub>
    ghost var gateways: seq<Word>

    function Address(off: int): int
      reads this
    {
      at + base + off
    }

    ghost function Held(): Holdings
      reads this
    {
      Holdings(stubs, gateways)
    }

    predicate Geometry()
      reads this
    {
      && 0 <= base && 0 <= size && base + size <= buf.Length && 0 <= at && at + buf.Length < LIMIT
      && (size > 0 ==> (at + base) % 4 == 0) && size % 4 == 0
      && 0 <= used <= gatewayTop <= size
    }

    /** Stubs and gateways fill the two ends; no function has two stubs, no module two gateways. */
    ghost predicate Valid()
      reads this, buf
    {
      && Geometry() && used == StubOff(|stubs|) && gatewayTop == GatewayOff(size, |gateways| - 1)
      && (forall k :: 0 <= k < |stubs| ==> StubWritten(buf[..], base, size, |gateways|, k, stubs[k]))
      && (forall j :: 0 <= j < |gateways| ==> GatewayWritten(buf[..], base, size, j, gateways[j]))
      && (forall k, l :: 0 <= k < l < |stubs| ==> stubs[k].func != stubs[l].func)
      && (forall i, j :: 0 <= i < j < |gateways| ==> gateways[i] != gateways[j])
    }

    /** udynlink_thunk_pool_init: the base rounded up to a word, the top down. */
    constructor (buffer: array<Byte>, address: int, sz: int)
      requires 0 <= sz <= buffer.Length && 0 <= address && address + buffer.Length < LIMIT
      ensures Valid() && stubs == [] && gateways == [] && buf == buffer && at == address
      ensures base == Skip(address, sz) && size == (sz - base) / 4 * 4
    {
      buf, at := buffer, address;
      var b, n := 0, sz;
      var misalign := address % 4;
      if misalign != 0 {
        var skip := 4 - misalign;
        if skip >= n {
          b := b + n;
          n := 0;
        } else {
          b := b + skip;
          n := n - skip;
        }
      }
      n := n / 4 * 4;
      base, size, used, gatewayTop := b, n, 0, n;
      stubs, gateways := [], [];
    }
  
    // ----- writers -----

    method WriteBytes(off: int, x: seq<Byte>)
      requires 0 <= off && off + |x| <= buf.Length
      modifies buf
      ensures BytesAt(buf[..], off, x) && SameBut(old(buf[..]), buf[..], off, |x|)
    {
      for i := 0 to |x|
        invariant forall j :: 0 <= j < i ==> buf[off + j] == x[j]
        invariant forall j :: 0 <= j < buf.Length && !(off <= j < off + i) ==> buf[j] == old(buf[j])
      {
        buf[off + i] := x[i];
      }
      assert buf[..][off..off + |x|] == x;
    }

    /** udynlink_thunk_write_gateway. */
    method WriteGateway(off: int, ram: Word)
      requires 0 <= off && off + GATEWAY_SIZE <= buf.Length
      modifies buf
      ensures BytesAt(buf[..], off, GatewayBytes(ram)) && SameBut(old(buf[..]), buf[..], off, GATEWAY_SIZE)
    {
      WriteBytes(off, [0x2D, 0xE9, 0x00, 0x42]);
      ghost var b1 := buf[..];
      WriteBytes(off + 12, [0xE0, 0x47, 0xBD, 0xE8, 0x00, 0x82]);
      ghost var b2 := buf[..];
      WriteBytes(off + 4, EncodeMov(9, ram % 0x1_0000, false));
      ghost var b3 := buf[..];
      WriteBytes(off + 8, EncodeMov(9, ram / 0x1_0000, true));
      hide EncodeMov;
      GatewayAssembled(b1, b2, b3, buf[..], off, ram);
    }

    /** udynlink_thunk_write_stub: 0 if the gateway is out of the branch's range, as far as the cast
        distance shows. */
    method WriteStub(off: int, func: Word, gateway: int) returns (r: int)
      requires 0 <= off && off + STUB_SIZE <= buf.Length && at >= 0
      modifies buf
      ensures SameBut(old(buf[..]), buf[..], off, STUB_SIZE)
      ensures var distance := gateway - (at + off + 12);
        if Accepted(distance) then r == Thumb1(at + off) && BytesAt(buf[..], off, StubBytes(func, Int16(Half2(distance)))) else r == 0
    {
      WriteBytes(off, EncodeMov(IP, func % 0x1_0000, false));
      ghost var b1 := buf[..];
      WriteBytes(off + 4, EncodeMov(IP, func / 0x1_0000, true));
      ghost var b2 := buf[..];
      var distance := gateway - (at + off + 12);
      var hw := Int16(Half2(distance));
      hide EncodeMov, EncodeBranch, Int16, Half2;
      if hw < -1024 || hw > 1023 {
        return 0;
      }
      WriteBytes(off + 8, EncodeBranch(hw));
      StubAssembled(b1, b2, buf[..], off, func, hw);
      r := Thumb1(at + off);
    }

    // ----- searching -----

    /** udynlink_external_find_stub: scan the stubs from the last one down, reading the code back. */
    method FindStub(func: Word) returns (r: int)
      requires Valid()
      ensures r == 0 <==> forall k :: 0 <= k < |stubs| ==> stubs[k].func != func
      ensures forall k :: 0 <= k < |stubs| && stubs[k].func == func ==> r == Thumb1(Address(StubOff(k)))
    {
      hide StubWritten, GatewayWritten, DecodeMovIp, BytesAt, StubBytes;
      if used < STUB_SIZE {
        return 0;
      }
      var pos := used;
      ghost var k := |stubs|;
      while pos >= STUB_SIZE
        invariant 0 <= k <= |stubs| && pos == StubOff(k)
        invariant forall l :: k <= l < |stubs| ==> stubs[l].func != func
      {
        pos := pos - STUB_SIZE;
        k := k - 1;
        StubDecodes(buf[..], base, size, |gateways|, k, stubs[k]);
        var lo := DecodeMovIp(buf[base + pos..base + pos + 4], false);
        var hi := DecodeMovIp(buf[base + pos + 4..base + pos + 8], true);
        SameSlices(buf, base + pos);
        if lo.Some? && hi.Some? {
          var addr := (hi.value as int) * 0x1_0000 + (lo.value as int);
          if addr == func {
            return Thumb1(at + base + pos);
          }
        }
      }
      return 0;
    }

    /** udynlink_thunk_find_gateway: the offset in the pool, or None. */
    method FindGateway(ram: Word) returns (r: Option<int>)
      requires Valid()
      ensures r.None? <==> forall j :: 0 <= j < |gateways| ==> gateways[j] != ram
      ensures forall j :: 0 <= j < |gateways| && gateways[j] == ram ==> r == Some(GatewayOff(size, j))
    {
      hide StubWritten, BytesAt, GatewayBytes, GatewayRam;
      var off := gatewayTop;
      ghost var j := |gateways|;
      while off + GATEWAY_SIZE <= size
        invariant 0 <= j <= |gateways| && off == GatewayOff(size, j - 1)
        invariant forall i :: j <= i < |gateways| ==> gateways[i] != ram
        decreases size - off
      {
        assert GatewayWritten(buf[..], base, size, j - 1, gateways[j - 1]);
        GatewayReads(buf[..], base + off, gateways[j - 1]);
        if GatewayRam(buf[..], base + off) == ram {
          return Some(off);
        }
        off := off + GATEWAY_SIZE;
        j := j - 1;
      }
      return None;
    }

    // ----- allocating -----

    /** udynlink_thunk_alloc_gateway. */
    method AllocGateway(ram: Word) returns (r: Option<int>)
      requires Valid() && forall j :: 0 <= j < |gateways| ==> gateways[j] != ram
      modifies this`gatewayTop, this`gateways, buf
      ensures Valid() && (r.None? <==> old(gatewayTop) < used + GATEWAY_SIZE)
      ensures r.None? ==> gateways == old(gateways) && buf[..] == old(buf[..])
      ensures r.Some? ==> gateways == old(gateways) + [ram] && r.value == GatewayOff(size, |old(gateways)|)
    {
      hide StubWritten, GatewayWritten, GatewayBytes, BytesAt, SameBut;
      if gatewayTop < used + GATEWAY_SIZE {
        return None;
      }
      ghost var was := buf[..];
      ghost var n := |gateways|;
      gatewayTop := gatewayTop - GATEWAY_SIZE;
      WriteGateway(base + gatewayTop, ram);
      GatewayIsWritten(buf[..], base, size, n, ram);
      forall k | 0 <= k < |stubs|
        ensures StubWritten(buf[..], base, size, n + 1, k, stubs[k])
      {
        StubKept(was, buf[..], base + gatewayTop, GATEWAY_SIZE, base, size, n, n + 1, k, stubs[k]);
      }
      forall j | 0 <= j < n
        ensures GatewayWritten(buf[..], base, size, j, gateways[j])
      {
        GatewayKept(was, buf[..], base + gatewayTop, GATEWAY_SIZE, base, size, j, gateways[j]);
      }
      gateways := gateways + [ram];
      return Some(gatewayTop);
    }

    /** udynlink_thunk_alloc_stub for gateway j, through udynlink_thunk_alloc. A stub that cannot reach its
        gateway is given back. */
    method AllocStub(func: Word, ghost j: nat, gateway: int) returns (r: int)
      requires Valid() && j < |gateways| && gateway == Address(GatewayOff(size, j))
      requires forall k :: 0 <= k < |stubs| ==> stubs[k].func != func
      modifies this`used, this`stubs, buf
      ensures Valid()
      ensures r == 0 ==> stubs == old(stubs)
      ensures r != 0 ==> stubs == old(stubs) + [Stub(func, j)] && r == Thumb1(Address(StubOff(|old(stubs)|)))
      ensures r == 0 <==> old(used) + STUB_SIZE > gatewayTop || !Accepted(Distance(size, |old(stubs)|, j))
    {
      hide StubWritten, GatewayWritten, StubBytes, BytesAt, SameBut, Accepted, Int16, Half2;
      if used + STUB_SIZE > gatewayTop {
        return 0;
      }
      ghost var was, n := buf[..], |stubs|;
      var off := used;
      used := used + STUB_SIZE;
      r := WriteStub(base + off, func, gateway);
      forall k | 0 <= k < n
        ensures StubWritten(buf[..], base, size, |gateways|, k, stubs[k])
      {
        StubKept(was, buf[..], base + off, STUB_SIZE, base, size, |gateways|, |gateways|, k, stubs[k]);
      }
      forall i | 0 <= i < |gateways|
        ensures GatewayWritten(buf[..], base, size, i, gateways[i])
      {
        GatewayKept(was, buf[..], base + off, STUB_SIZE, base, size, i, gateways[i]);
      }
      if r == 0 {
        used := used - STUB_SIZE;
        return;
      }
      StubIsWritten(buf[..], base, size, |gateways|, n, func, j);
      stubs := stubs + [Stub(func, j)];
    }

    /** r calls func: any caller that branches to it gets there, with the base of the gateway of func's stub in r9,
        if that gateway is near. */
    ghost predicate Answers(func: Word, r: int)
      reads this, buf
    {
      var k := StubOf(stubs, func);
      && k < |stubs| && stubs[k].gateway < |gateways|
      && (Near(size, k, stubs[k].gateway) && func % 2 == 1 ==>
            forall s :: CanCall(s) ==> CallReaches(Code(at, buf[..]), s, r, func, gateways[stubs[k].gateway]))
    }

    /** udynlink_thunk_make_call for a function symbol of a module based at `ram`. Every stub ever returned
        stays; a function gets at most one. A function that already has a stub keeps the gateway it was
        given, whatever module asks. */
    method MakeCall(func: Word, ram: Word) returns (r: int)
      requires Valid()
      modifies this, buf
      ensures Valid() && base == old(base) && size == old(size)
      ensures old(stubs) <= stubs && old(gateways) <= gateways
      ensures var (after, answer) := Called(size, old(Held()), func, ram);
        Held() == after && match answer case None => r == 0 case Some(k) => r != 0 && Enters(r, Address(StubOff(k)))
      ensures r != 0 ==> Answers(func, r)
      ensures StubOf(old(stubs), func) < |old(stubs)| ==> buf[..] == old(buf[..])
    {
      hide StubWritten, GatewayWritten, Accepted, Thumb1, Called, WithGateway;
      ghost var was := Held();
      CalledAgain(size, was, func, ram);
      r := FindStub(func);
      ghost var k := StubOf(stubs, func);
      assert k < |stubs| ==> stubs[k].func == func;
      if r != 0 {
        AnswerCalls(this, func, r);
        return;
      }
      var gateway := TakeGateway(ram);
      if gateway.None? {
        return 0;
      }
      ghost var j := GatewayOf(gateways, ram);
      CalledAfresh(size, was, func, ram, gateways, j);
      r := AllocStub(func, j, at + base + gateway.value);
      if r != 0 {
        NewStub(was.stubs, func, j);
        AnswerCalls(this, func, r);
      }
    }

    /** The module's gateway, found or allocated. */
    method TakeGateway(ram: Word) returns (r: Option<int>)
      requires Valid()
      modifies this`gatewayTop, this`gateways, buf
      ensures Valid() && old(gateways) <= gateways
      ensures match WithGateway(size, old(Held()), ram)
        case None => r == None && gateways == old(gateways) && buf[..] == old(buf[..])
        case Some(g) => gateways == g && GatewayOf(g, ram) < |g| && r == Some(GatewayOff(size, GatewayOf(g, ram)))
    {
      hide StubWritten, GatewayWritten;
      r := FindGateway(ram);
      if r.None? {
        NoGateway(gateways, ram);
        ghost var was := gateways;
        r := AllocGateway(ram);
        assert r.Some? ==> gateways[|was|] == ram;
      }
    }
  }

  /** Where a stub goes: to its gateway exactly when the gateway is near. */
  lemma StubReachesNear(pool: Pool, k: nat, s: Machine)
    requires pool.Valid() && k < |pool.stubs| && 0 < pool.size < LIMIT - 4096
    requires Running(s) && (s.r[PC] as int) == pool.Address(StubOff(k))
    ensures var c := Code(pool.at, pool.buf[..]); var j := pool.stubs[k].gateway;
      Run(c, s, 3).Some? && |Run(c, s, 3).value.r| == 16
      && (Run(c, s, 3).value.r[PC] == pool.Address(GatewayOff(pool.size, j)) <==> Near(pool.size, k, j))
  {
    hide StubBytes, GatewayBytes, Run, Plus, Int16, Half2;
    var c, st := Code(pool.at, pool.buf[..]), pool.stubs[k];
    assert StubWritten(pool.buf[..], pool.base, pool.size, |pool.gateways|, k, st);
    var hw := Branch(pool.size, k, st.gateway);
    StubInside(pool, k);
    EvenDistance(pool.size, k, st.gateway);
    BranchTest(Distance(pool.size, k, st.gateway));
    hide Accepted, StubWritten, GatewayWritten;
    StubSteps(c, s, st.func, hw, Plus(s.r[PC], 12 + 2 * hw));
    NearMiss(s.r[PC], 12 + 2 * hw, pool.Address(GatewayOff(pool.size, st.gateway)));
  }

  /** A branch that would leave the address space does not come back to a given place by accident. */
  lemma NearMiss(pc: Word, n: int, target: int)
    requires -4096 < n < LIMIT && pc <= target < LIMIT && target - pc < LIMIT - 4096
    ensures Plus(pc, n) == target <==> pc + n == target
  {}

  lemma StubInside(pool: Pool, k: nat)
    requires pool.Valid() && k < |pool.stubs|
    ensures var j := pool.stubs[k].gateway;
      && StubOff(k) + STUB_SIZE <= GatewayOff(pool.size, j) && GatewayOff(pool.size, j) + GATEWAY_SIZE <= pool.size
      && 0 <= pool.Address(StubOff(k)) && pool.Address(pool.size) < LIMIT
  {
    hide StubBytes, GatewayBytes, GatewayWritten, Accepted;
    assert StubWritten(pool.buf[..], pool.base, pool.size, |pool.gateways|, k, pool.stubs[k]);
  }

  /** In a pool of up to REACH bytes every stub is near its gateway, whenever it was written. */
  lemma SmallPoolNear(pool: Pool, k: nat)
    requires pool.Valid() && k < |pool.stubs| && pool.size <= REACH
    ensures Near(pool.size, k, pool.stubs[k].gateway)
  {
    hide StubBytes, GatewayBytes, GatewayWritten, Int16, Half2;
    var j := pool.stubs[k].gateway;
    assert StubWritten(pool.buf[..], pool.base, pool.size, |pool.gateways|, k, pool.stubs[k]);
    StubInside(pool, k);
    EvenDistance(pool.size, k, j);
    BranchTest(Distance(pool.size, k, j));
  }

  /** A stub near its gateway calls its function with the gateway's base in r9. */
  lemma StubCalls(pool: Pool, k: nat, s: Machine)
    requires pool.Valid() && k < |pool.stubs| && pool.size > 0 && Near(pool.size, k, pool.stubs[k].gateway)
    requires Running(s) && (s.r[PC] as int) == pool.Address(StubOff(k)) && s.r[SP] >= 8 && pool.stubs[k].func % 2 == 1
    ensures var c := Code(pool.at, pool.buf[..]);
      Run(c, s, 7).Some? && var t := Run(c, s, 7).value;
      && |t.r| == 16 && t.r[PC] == pool.stubs[k].func - 1 && t.r[9] == pool.gateways[pool.stubs[k].gateway]
      && (forall i :: 0 <= i < 4 ==> t.r[i] == s.r[i])
      && t.r[LR] == pool.Address(GatewayOff(pool.size, pool.stubs[k].gateway)) + 15
      && t.r[SP] == s.r[SP] - 8 && t.stack == s.stack[(s.r[SP] as int) - 8 := s.r[9]][(s.r[SP] as int) - 4 := s.r[LR]]
  {
    hide StubBytes, GatewayBytes, Run, Running, Int16, Half2;
    var c, st := Code(pool.at, pool.buf[..]), pool.stubs[k];
    assert StubWritten(pool.buf[..], pool.base, pool.size, |pool.gateways|, k, st);
    assert GatewayWritten(pool.buf[..], pool.base, pool.size, st.gateway, pool.gateways[st.gateway]);
    var hw, g := Branch(pool.size, k, st.gateway), pool.Address(GatewayOff(pool.size, st.gateway));
    StubInside(pool, k);
    EvenDistance(pool.size, k, st.gateway);
    BranchTest(Distance(pool.size, k, st.gateway));
    EnterStub(c, s, st.func, hw, g, pool.gateways[st.gateway]);
  }

  /** The pointer to a function's stub calls it. */
  lemma AnswerCalls(pool: Pool, func: Word, r: int)
    requires pool.Valid() && StubOf(pool.stubs, func) < |pool.stubs|
    requires r == Thumb1(pool.Address(StubOff(StubOf(pool.stubs, func))))
    ensures r != 0 && Enters(r, pool.Address(StubOff(StubOf(pool.stubs, func)))) && pool.Answers(func, r)
  {
    hide Thumb1, StubBytes, GatewayBytes, GatewayWritten, Accepted, Run, Near;
    var k := StubOf(pool.stubs, func);
    assert StubWritten(pool.buf[..], pool.base, pool.size, |pool.gateways|, k, pool.stubs[k]);
    StubInside(pool, k);
    StubAddress(pool, k);
    PointerEnters(pool.Address(StubOff(k)));
    hide StubWritten, Enters, CallReaches;
    if Near(pool.size, k, pool.stubs[k].gateway) && func % 2 == 1 {
      forall s | CanCall(s)
        ensures CallReaches(Code(pool.at, pool.buf[..]), s, r, func, pool.gateways[pool.stubs[k].gateway])
      {
        PointerCalls(pool, k, r, s);
      }
    }
  }

  lemma PointerCalls(pool: Pool, k: nat, r: int, s: Machine)
    requires pool.Valid() && k < |pool.stubs| && Near(pool.size, k, pool.stubs[k].gateway) && pool.stubs[k].func % 2 == 1
    requires pool.stubs[k].gateway < |pool.gateways| && Enters(r, pool.Address(StubOff(k))) && CanCall(s)
    ensures CallReaches(Code(pool.at, pool.buf[..]), s, r, pool.stubs[k].func, pool.gateways[pool.stubs[k].gateway])
  {
    hide BranchTo, StubWritten, GatewayWritten, Run, Near;
    StubAddress(pool, k);
    var t := s.(r := s.r[PC := pool.Address(StubOff(k))]);
    assert BranchTo(s, r) == Some(t);
    StubCalls(pool, k, t);
  }

  lemma StubAddress(pool: Pool, k: nat)
    requires pool.Valid() && k < |pool.stubs|
    ensures pool.size > 0 && pool.Address(StubOff(k)) % 2 == 0 && 0 <= pool.Address(StubOff(k)) < LIMIT - 1
  {
    hide StubWritten, GatewayWritten;
    assert 10 * k == 2 * (5 * k);
  }

  lemma NewStub(stubs: seq<Stub>, func: Word, j: nat)
    requires StubOf(stubs, func) == |stubs|
    ensures StubOf(stubs + [Stub(func, j)], func) == |stubs|
  {
    hide StubOf;
    var all := stubs + [Stub(func, j)];
    assert all[|stubs|].func == func && forall l :: 0 <= l < |stubs| ==> all[l] == stubs[l];
  }

  /** One word more than REACH and the very first stub is accepted although its branch goes elsewhere. */
  method FirstStubMisses(buffer: array<Byte>, address: int, func: Word, ram: Word) returns (pool: Pool, r: int)
    requires buffer.Length == REACH + 4 && address >= 0 && address % 4 == 0 && address + buffer.Length < LIMIT
    modifies buffer
    ensures pool.Valid() && pool.buf == buffer && pool.size == REACH + 4 && pool.stubs == [Stub(func, 0)] && r != 0
    ensures !Near(pool.size, 0, 0)
  {
    hide StubWritten, GatewayWritten;
    pool := new Pool(buffer, address, buffer.Length);
    var none := pool.FindStub(func);
    var gateway := pool.AllocGateway(ram);
    assert Accepted(Distance(REACH + 4, 0, 0));
    r := pool.AllocStub(func, 0, pool.at + pool.base + gateway.value);
  }

  /** Two modules ask for the same function address, the second one in vain: it is answered with the stub
      that puts the first one's base into r9. */
  method SecondBaseIgnored(buffer: array<Byte>, address: int, func: Word, ram: Word, ram': Word) returns (pool: Pool, r: int, r': int)
    requires buffer.Length == 256 && address >= 0 && address % 4 == 0 && address + buffer.Length < LIMIT && ram != ram'
    modifies buffer
    ensures pool.Valid() && r != 0 && Enters(r, pool.Address(StubOff(0))) && Enters(r', pool.Address(StubOff(0))) && pool.Held() == Holdings([Stub(func, 0)], [ram])
    ensures Near(pool.size, 0, 0) && pool.gateways[pool.stubs[0].gateway] != ram'
  {
    hide StubWritten, GatewayWritten, Enters, Called, GatewayOf, StubOf, BytesAt, Accepted;
    EmptyPoolCalled(func, ram);
    AgainCalled(func, ram, ram');
    pool := new Pool(buffer, address, buffer.Length);
    assert pool.size == 256;
    r := pool.MakeCall(func, ram);
    r' := pool.MakeCall(func, ram');
  }

  lemma EmptyPoolCalled(func: Word, ram: Word)
    ensures Called(256, Holdings([], []), func, ram) == (Holdings([Stub(func, 0)], [ram]), Some(0))
  {
    var stubs: seq<Stub>, gateways: seq<Word> := [], [];
    assert stubs + [Stub(func, 0)] == [Stub(func, 0)] && StubOf(stubs, func) == 0;
    NoGateway(gateways, ram);
    assert gateways + [ram] == [ram];
    assert WithGateway(256, Holdings([], []), ram) == Some([ram]);
    assert GatewayOf([ram], ram) == 0;
    assert Accepted(Distance(256, 0, 0));
    hide Accepted, Distance;
  }

  lemma AgainCalled(func: Word, ram: Word, ram': Word)
    ensures var h := Holdings([Stub(func, 0)], [ram]); Called(256, h, func, ram') == (h, Some(0))
  {
    assert StubOf([Stub(func, 0)], func) == 0;
  }

  lemma EvenDistance(size: int, k: nat, j: nat)
    requires size % 4 == 0
    ensures Distance(size, k, j) % 2 == 0
  {
    var half := size / 4 * 2 - 9 * (j + 1) - 5 * k - 6;
    assert Distance(size, k, j) == 2 * half;
  }

  lemma StubDecodes(b: seq<Byte>, base: int, size: int, n: nat, k: nat, s: Stub)
    requires StubWritten(b, base, size, n, k, s)
    ensures var off := base + StubOff(k);
      && 0 <= off && off + STUB_SIZE <= |b|
      && DecodeMovIp(b[off..off + 4], false) == Some(s.func % 0x1_0000)
      && DecodeMovIp(b[off + 4..off + 8], true) == Some(s.func / 0x1_0000)
  {
    hide DecodeMovIp;
    StubReads(b, base + StubOff(k), s.func, Branch(size, k, s.gateway));
  }

  lemma SameSlices(a: array<Byte>, off: int)
    requires 0 <= off && off + 8 <= a.Length
    ensures a[off..off + 4] == a[..][off..off + 4] && a[off + 4..off + 8] == a[..][off + 4..off + 8]
  {}

  lemma GatewayIsWritten(b: seq<Byte>, base: int, size: int, j: nat, ram: Word)
    requires BytesAt(b, base + GatewayOff(size, j), GatewayBytes(ram))
    ensures GatewayWritten(b, base, size, j, ram)
  {}

  lemma StubIsWritten(b: seq<Byte>, base: int, size: int, n: nat, k: nat, func: Word, j: nat)
    requires j < n && Accepted(Distance(size, k, j))
    requires BytesAt(b, base + StubOff(k), StubBytes(func, Branch(size, k, j)))
    ensures StubWritten(b, base, size, n, k, Stub(func, j))
  {}

  lemma StubAssembled(b1: seq<Byte>, b2: seq<Byte>, b3: seq<Byte>, off: int, func: Word, hw: int)
    requires BytesAt(b1, off, EncodeMov(IP, func % 0x1_0000, false))
    requires SameBut(b1, b2, off + 4, 4) && BytesAt(b2, off + 4, EncodeMov(IP, func / 0x1_0000, true))
    requires SameBut(b2, b3, off + 8, 2) && BytesAt(b3, off + 8, EncodeBranch(hw))
    ensures BytesAt(b3, off, StubBytes(func, hw))
  {
    hide EncodeMov, EncodeBranch;
    BytesKept(b1, b2, off + 4, 4, off, EncodeMov(IP, func % 0x1_0000, false));
    BytesKept(b2, b3, off + 8, 2, off, EncodeMov(IP, func % 0x1_0000, false));
    BytesKept(b2, b3, off + 8, 2, off + 4, EncodeMov(IP, func / 0x1_0000, true));
    assert b3[off..off + 10] == b3[off..off + 4] + b3[off + 4..off + 8] + b3[off + 8..off + 10];
  }

  lemma GatewayAssembled(b1: seq<Byte>, b2: seq<Byte>, b3: seq<Byte>, b4: seq<Byte>, off: int, ram: Word)
    requires BytesAt(b1, off, [0x2D, 0xE9, 0x00, 0x42])
    requires SameBut(b1, b2, off + 12, 6) && BytesAt(b2, off + 12, [0xE0, 0x47, 0xBD, 0xE8, 0x00, 0x82])
    requires SameBut(b2, b3, off + 4, 4) && BytesAt(b3, off + 4, EncodeMov(9, ram % 0x1_0000, false))
    requires SameBut(b3, b4, off + 8, 4) && BytesAt(b4, off + 8, EncodeMov(9, ram / 0x1_0000, true))
    ensures BytesAt(b4, off, GatewayBytes(ram))
  {
    hide EncodeMov;
    var head, tail: seq<Byte> := [0x2D, 0xE9, 0x00, 0x42], [0xE0, 0x47, 0xBD, 0xE8, 0x00, 0x82];
    BytesKept(b1, b2, off + 12, 6, off, head);
    BytesKept(b2, b3, off + 4, 4, off, head);
    BytesKept(b3, b4, off + 8, 4, off, head);
    BytesKept(b2, b3, off + 4, 4, off + 12, tail);
    BytesKept(b3, b4, off + 8, 4, off + 12, tail);
    BytesKept(b3, b4, off + 8, 4, off + 4, EncodeMov(9, ram % 0x1_0000, false));
    assert b4[off..off + 18] == b4[off..off + 4] + b4[off + 4..off + 8] + b4[off + 8..off + 12] + b4[off + 12..off + 18];
    assert tail == [0xE0, 0x47] + [0xBD, 0xE8, 0x00, 0x82];
  }
}
