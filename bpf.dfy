/** The subset of Linux classic BPF (`struct sock_filter`) that the
    receive filter uses: its instruction format, its execution semantics
    as a step function, an interpreter loop proved against that function,
    and the attach-time program check that guarantees every run ends at a
    `ret`. */
module ClassicBpf {
  import opened Bits

  datatype Option<T> = None | Some(value: T)

  /** `struct sock_filter { __u16 code; __u8 jt; __u8 jf; __u32 k; }` */
  datatype Insn = Insn(code: uint16, jt: uint8, jf: uint8, k: uint32)

  // Opcodes of the modelled subset, as class | size | mode | source bits.
  const LD_B_ABS: uint16 := 0x30   // A <- P[k:1]
  const ALU_LSH_K: uint16 := 0x64  // A <- A << k
  const MISC_TAX: uint16 := 0x07   // X <- A
  const ALU_OR_X: uint16 := 0x4c   // A <- A | X
  const ST: uint16 := 0x02         // M[k] <- A
  const LD_B_IND: uint16 := 0x50   // A <- P[X+k:1]
  const LD_W_IND: uint16 := 0x40   // A <- P[X+k:4]
  const LD_H_IND: uint16 := 0x48   // A <- P[X+k:2]
  const JMP_JSET_K: uint16 := 0x45 // pc += (A & k) ? jt : jf
  const JMP_JEQ_K: uint16 := 0x15  // pc += (A == k) ? jt : jf
  const RET_K: uint16 := 0x06      // accept k bytes

  /** BPF_MEMWORDS: the number of scratch memory cells M[]. */
  const MEMWORDS: nat := 16
  /** BPF_MAXINSNS: the longest program the kernel attaches. */
  const MAXINSNS: nat := 4096

  predicate IsConditionalJump(code: uint16) {
    code == JMP_JSET_K || code == JMP_JEQ_K
  }

  predicate IsPacketLoad(code: uint16) {
    code == LD_B_ABS || code == LD_B_IND || code == LD_H_IND || code == LD_W_IND
  }

  /** Per-instruction part of the kernel's attach-time check, restricted to
      the modelled opcodes: the opcode is known, a constant shift is below
      32 and a store addresses one of the scratch cells. */
  predicate InsnAccepted(ins: Insn) {
    (IsPacketLoad(ins.code) || IsConditionalJump(ins.code) || ins.code == ALU_LSH_K ||
     ins.code == MISC_TAX || ins.code == ALU_OR_X || ins.code == ST || ins.code == RET_K) &&
    (ins.code == ALU_LSH_K ==> ins.k < 32) &&
    (ins.code == ST ==> ins.k < MEMWORDS)
  }

  /** The program check performed when a filter is attached: non-empty and
      not too long, every instruction accepted, both targets of every
      conditional jump inside the program, and a `ret` as last instruction. */
  predicate Valid(prog: seq<Insn>) {
    0 < |prog| <= MAXINSNS &&
    prog[|prog| - 1].code == RET_K &&
    forall i :: 0 <= i < |prog| ==>
      InsnAccepted(prog[i]) &&
      (IsConditionalJump(prog[i].code) ==>
         i + 1 + prog[i].jt < |prog| && i + 1 + prog[i].jf < |prog|)
  }

  /** Outcome of running a program on a frame: `Return(k)` delivers at most
      k bytes of the frame (0 drops it); `Fault` is reached only by programs
      the attach-time check refuses. */
  datatype Verdict = Return(k: uint32) | Fault

  /** Register file: program counter, accumulator A, index register X and
      the scratch memory M[0..15]. */
  datatype Machine = Machine(pc: nat, a: uint32, x: uint32, mem: seq<uint32>)

  datatype StepResult = Next(m: Machine) | Halt(v: Verdict)

  /** Width of a packet load. */
  datatype Size = Byte | Half | Word

  /** Big-endian packet load of 1, 2 or 4 bytes at `off`; `None` when the
      load reaches past the end of the frame. */
  function Load(pkt: seq<uint8>, off: nat, size: Size): (r: Option<uint32>)
    ensures r.Some? <==> off + (match size case Byte => 1 case Half => 2 case Word => 4) <= |pkt|
  {
    match size
    case Byte => if off + 1 <= |pkt| then Some(pkt[off] as uint32) else None
    case Half =>
      if off + 2 <= |pkt| then Some((pkt[off] as int) * 0x100 + pkt[off + 1]) else None
    case Word =>
      if off + 4 <= |pkt| then
        Some((pkt[off] as int) * 0x100_0000 + (pkt[off + 1] as int) * 0x1_0000 +
             (pkt[off + 2] as int) * 0x100 + pkt[off + 3])
      else None
  }

  /** 32-bit A | X. */
  function Or32(a: uint32, b: uint32): (r: uint32)
  {
    Pow2Values();
    BitOrBound(a, b, 32);
    BitOr(a, b)
  }

  /** The condition of a conditional jump: `A & k` is non-zero for `jset`,
      `A == k` for `jeq`. */
  predicate JumpTaken(code: uint16, a: uint32, k: uint32) {
    if code == JMP_JSET_K then BitAnd(a, k) != 0 else a == k
  }

  /** Opcode of the indexed load of the given width. */
  function IndexedLoad(size: Size): uint16 {
    match size
    case Byte => LD_B_IND
    case Half => LD_H_IND
    case Word => LD_W_IND
  }

  /** Continue after a load: a failed load ends the program with 0. */
  function AfterLoad(m: Machine, loaded: Option<uint32>): StepResult {
    match loaded
    case None => Halt(Return(0))
    case Some(v) => Next(m.(pc := m.pc + 1, a := v))
  }

  /** One instruction of the Linux classic BPF interpreter. */
  function Step(prog: seq<Insn>, pkt: seq<uint8>, m: Machine): (r: StepResult)
    requires m.pc < |prog| && |m.mem| == MEMWORDS
    ensures r.Next? ==> |r.m.mem| == MEMWORDS
  {
    var ins := prog[m.pc];
    var next := m.pc + 1;
    if ins.code == LD_B_ABS then
      AfterLoad(m, Load(pkt, ins.k, Byte))
    else if ins.code == LD_B_IND then
      AfterLoad(m, Load(pkt, (m.x + ins.k) % WORD_MODULUS, Byte))
    else if ins.code == LD_H_IND then
      AfterLoad(m, Load(pkt, (m.x + ins.k) % WORD_MODULUS, Half))
    else if ins.code == LD_W_IND then
      AfterLoad(m, Load(pkt, (m.x + ins.k) % WORD_MODULUS, Word))
    else if ins.code == ALU_LSH_K then
      if ins.k < 32 then Next(m.(pc := next, a := (m.a * Pow2(ins.k)) % WORD_MODULUS))
      else Halt(Fault)
    else if ins.code == ALU_OR_X then
      Next(m.(pc := next, a := Or32(m.a, m.x)))
    else if ins.code == MISC_TAX then
      Next(m.(pc := next, x := m.a))
    else if ins.code == ST then
      if ins.k < MEMWORDS then Next(m.(pc := next, mem := m.mem[ins.k := m.a]))
      else Halt(Fault)
    else if IsConditionalJump(ins.code) then
      Next(m.(pc := next + (if JumpTaken(ins.code, m.a, ins.k) then ins.jt else ins.jf)))
    else if ins.code == RET_K then
      Halt(Return(ins.k))
    else
      Halt(Fault)
  }

  /** What one step can do: move forward by one or, for a conditional jump,
      to one of its two targets; fault exactly on an instruction the
      attach-time check refuses; return 0 on a load past the end of the
      frame; and return `k` at `ret #k`. */
  lemma StepFacts(prog: seq<Insn>, pkt: seq<uint8>, m: Machine)
    requires m.pc < |prog| && |m.mem| == MEMWORDS
    ensures var r := Step(prog, pkt, m);
      (r.Next? ==>
         (r.m.pc == m.pc + 1 ||
          (IsConditionalJump(prog[m.pc].code) &&
           (r.m.pc == m.pc + 1 + prog[m.pc].jt || r.m.pc == m.pc + 1 + prog[m.pc].jf)))) &&
      (r == Halt(Fault) <==> !InsnAccepted(prog[m.pc])) &&
      (r.Halt? && prog[m.pc].code != RET_K ==>
         r.v == Fault || (IsPacketLoad(prog[m.pc].code) && r.v == Return(0))) &&
      (prog[m.pc].code == RET_K ==> r == Halt(Return(prog[m.pc].k)))
  {
  }

  /** Run from machine state `m` until a `ret`, a failed load or a fault.
      Every step moves the program counter forward, so this terminates. */
  function RunFrom(prog: seq<Insn>, pkt: seq<uint8>, m: Machine): Verdict
    requires |m.mem| == MEMWORDS
    decreases |prog| - m.pc
  {
    if m.pc >= |prog| then Fault
    else match Step(prog, pkt, m)
      case Halt(v) => v
      case Next(m') => RunFrom(prog, pkt, m')
  }

  /** A and X start at 0; scratch memory is shown as 0 (the kernel never
      lets a program read a cell before storing to it). */
  const Initial: Machine := Machine(0, 0, 0, [0, 0, 0, 0, 0, 0, 0, 0, 0, 0, 0, 0, 0, 0, 0, 0])

  function Run(prog: seq<Insn>, pkt: seq<uint8>): Verdict {
    RunFrom(prog, pkt, Initial)
  }

  /** The interpreter loop over pc, A, X and M[]; `steps` counts the
      instructions executed. */
  method Execute(prog: seq<Insn>, pkt: seq<uint8>) returns (v: Verdict, steps: nat)
    ensures v == Run(prog, pkt)
    ensures steps <= |prog|
  {
    var pc: nat, a: uint32, x: uint32 := 0, 0, 0;
    var mem: seq<uint32> := [0, 0, 0, 0, 0, 0, 0, 0, 0, 0, 0, 0, 0, 0, 0, 0];
    steps := 0;
    while pc < |prog|
      invariant |mem| == MEMWORDS && steps <= pc && steps <= |prog|
      invariant RunFrom(prog, pkt, Machine(pc, a, x, mem)) == Run(prog, pkt)
      decreases |prog| - pc
    {
      var ins := prog[pc];
      steps := steps + 1;
      if IsPacketLoad(ins.code) {
        var off := if ins.code == LD_B_ABS then ins.k else (x + ins.k) % WORD_MODULUS;
        var size := if ins.code == LD_H_IND then Half else if ins.code == LD_W_IND then Word else Byte;
        var loaded := Load(pkt, off, size);
        if loaded.None? {
          return Return(0), steps;
        }
        a := loaded.value;
        pc := pc + 1;
      } else if ins.code == ALU_LSH_K && ins.k < 32 {
        a := (a * Pow2(ins.k)) % WORD_MODULUS;
        pc := pc + 1;
      } else if ins.code == ALU_OR_X {
        a := Or32(a, x);
        pc := pc + 1;
      } else if ins.code == MISC_TAX {
        x := a;
        pc := pc + 1;
      } else if ins.code == ST && ins.k < MEMWORDS {
        mem := mem[ins.k := a];
        pc := pc + 1;
      } else if ins.code == JMP_JSET_K {
        pc := pc + 1 + if BitAnd(a, ins.k) != 0 then ins.jt else ins.jf;
      } else if ins.code == JMP_JEQ_K {
        pc := pc + 1 + if a == ins.k then ins.jt else ins.jf;
      } else if ins.code == RET_K {
        return Return(ins.k), steps;
      } else {
        return Fault, steps;
      }
    }
    v := Fault;
  }

  /** A program the attach-time check accepts never faults: every run ends
      at a `ret` (or a failed load, which returns 0). */
  lemma ValidRunReturns(prog: seq<Insn>, pkt: seq<uint8>)
    requires Valid(prog)
    ensures Run(prog, pkt).Return?
  {
    RunFromReturns(prog, pkt, Initial);
  }

  lemma {:induction false} RunFromReturns(prog: seq<Insn>, pkt: seq<uint8>, m: Machine)
    requires Valid(prog) && m.pc < |prog| && |m.mem| == MEMWORDS
    ensures RunFrom(prog, pkt, m).Return?
    decreases |prog| - m.pc
  {
    var i := m.pc;
    assert InsnAccepted(prog[i]) &&
      (IsConditionalJump(prog[i].code) ==> i + 1 + prog[i].jt < |prog| && i + 1 + prog[i].jf < |prog|);
    StepFacts(prog, pkt, m);
    match Step(prog, pkt, m)
    case Halt(v) =>
    case Next(m') =>
      assert i < |prog| - 1;
      RunFromReturns(prog, pkt, m');
  }

  // One unfolding of RunFrom per opcode, for reasoning about a known
  // program one instruction at a time.

  lemma RunLoadAbsByte(prog: seq<Insn>, pkt: seq<uint8>, m: Machine)
    requires m.pc < |prog| && |m.mem| == MEMWORDS && prog[m.pc].code == LD_B_ABS
    ensures RunFrom(prog, pkt, m) ==
      if prog[m.pc].k < |pkt| then RunFrom(prog, pkt, m.(pc := m.pc + 1, a := pkt[prog[m.pc].k]))
      else Return(0)
  {
  }

  lemma RunLoadInd(prog: seq<Insn>, pkt: seq<uint8>, m: Machine, size: Size)
    requires m.pc < |prog| && |m.mem| == MEMWORDS && prog[m.pc].code == IndexedLoad(size)
    ensures RunFrom(prog, pkt, m) ==
      match Load(pkt, (m.x + prog[m.pc].k) % WORD_MODULUS, size)
      case None => Return(0)
      case Some(v) => RunFrom(prog, pkt, m.(pc := m.pc + 1, a := v))
  {
  }

  lemma RunLsh(prog: seq<Insn>, pkt: seq<uint8>, m: Machine)
    requires m.pc < |prog| && |m.mem| == MEMWORDS && prog[m.pc].code == ALU_LSH_K && prog[m.pc].k < 32
    ensures RunFrom(prog, pkt, m) ==
      RunFrom(prog, pkt, m.(pc := m.pc + 1, a := (m.a * Pow2(prog[m.pc].k)) % WORD_MODULUS))
  {
  }

  lemma RunOrX(prog: seq<Insn>, pkt: seq<uint8>, m: Machine)
    requires m.pc < |prog| && |m.mem| == MEMWORDS && prog[m.pc].code == ALU_OR_X
    ensures RunFrom(prog, pkt, m) == RunFrom(prog, pkt, m.(pc := m.pc + 1, a := Or32(m.a, m.x)))
  {
  }

  lemma RunTax(prog: seq<Insn>, pkt: seq<uint8>, m: Machine)
    requires m.pc < |prog| && |m.mem| == MEMWORDS && prog[m.pc].code == MISC_TAX
    ensures RunFrom(prog, pkt, m) == RunFrom(prog, pkt, m.(pc := m.pc + 1, x := m.a))
  {
  }

  lemma RunStore(prog: seq<Insn>, pkt: seq<uint8>, m: Machine)
    requires m.pc < |prog| && |m.mem| == MEMWORDS && prog[m.pc].code == ST && prog[m.pc].k < MEMWORDS
    ensures RunFrom(prog, pkt, m) ==
      RunFrom(prog, pkt, m.(pc := m.pc + 1, mem := m.mem[prog[m.pc].k := m.a]))
  {
  }

  lemma RunJump(prog: seq<Insn>, pkt: seq<uint8>, m: Machine)
    requires m.pc < |prog| && |m.mem| == MEMWORDS && IsConditionalJump(prog[m.pc].code)
    ensures RunFrom(prog, pkt, m) ==
      RunFrom(prog, pkt, m.(pc := m.pc + 1 +
        (if JumpTaken(prog[m.pc].code, m.a, prog[m.pc].k) then prog[m.pc].jt else prog[m.pc].jf)))
  {
  }

  lemma RunRet(prog: seq<Insn>, pkt: seq<uint8>, m: Machine)
    requires m.pc < |prog| && |m.mem| == MEMWORDS && prog[m.pc].code == RET_K
    ensures RunFrom(prog, pkt, m) == Return(prog[m.pc].k)
  {
  }
}
