/** The DroneBridge raw protocol v1 receive filter built by `setBPF`: a
    fixed 20-instruction classic BPF program whose four comparison operands
    are filled in from the communication id, the direction and the port,
    and what that program accepts, stated over the bytes of a captured
    radiotap + 802.11 frame. */
module ReceiveFilter {
  import opened Bits
  import opened ClassicBpf

  /** The 4-byte communication id shared by both ends of one link. */
  type CommId = s: seq<uint8> | |s| == 4 witness [0, 0, 0, 0]

  /** `db_version`: the protocol version written into the port operand. */
  const DB_VERSION: uint8 := 0x01
  /** Bytes of an accepted frame delivered to the socket. */
  const ACCEPT_LENGTH: uint32 := 0x40000
  const FILTER_LENGTH: nat := 20

  /** Indices of the four instructions whose operand is overwritten. */
  const COMM_ID_CHECK: nat := 11
  const DIRECTION_CHECK: nat := 13
  const PORT_CHECK: nat := 15
  const DIRECTION_CONFIRM: nat := 17
  const ACCEPT_INDEX: nat := 18
  const REJECT_INDEX: nat := 19

  /** `dest_filter` before its operands are overwritten. */
  const Template: seq<Insn> := [
    Insn(LD_B_ABS,   0, 0, 0x00000003),  //  0  A = radiotap length, high byte
    Insn(ALU_LSH_K,  0, 0, 0x00000008),  //  1  A <<= 8
    Insn(MISC_TAX,   0, 0, 0x00000000),  //  2  X = A
    Insn(LD_B_ABS,   0, 0, 0x00000002),  //  3  A = radiotap length, low byte
    Insn(ALU_OR_X,   0, 0, 0x00000000),  //  4  A |= X
    Insn(ST,         0, 0, 0x00000000),  //  5  M[0] = A
    Insn(MISC_TAX,   0, 0, 0x00000000),  //  6  X = A: start of the 802.11 header
    Insn(LD_B_IND,   0, 0, 0x00000000),  //  7  A = frame-control byte
    Insn(JMP_JSET_K, 1, 0, 0x00000008),  //  8  data frames
    Insn(JMP_JSET_K, 0, 9, 0x00000080),  //  9  beacon frames
    Insn(LD_W_IND,   0, 0, 0x00000006),  // 10  A = word at X+6
    Insn(JMP_JEQ_K,  0, 7, 0x33445566),  // 11  communication id
    Insn(LD_H_IND,   0, 0, 0x00000004),  // 12  A = half-word at X+4
    Insn(JMP_JEQ_K,  0, 5, 0x00000101),  // 13  0x01, direction
    Insn(LD_H_IND,   0, 0, 0x00000010),  // 14  A = half-word at X+16
    Insn(JMP_JEQ_K,  0, 3, 0x00000101),  // 15  version, port
    Insn(LD_B_IND,   0, 0, 0x00000012),  // 16  A = byte at X+18
    Insn(JMP_JEQ_K,  0, 1, 0x00000001),  // 17  direction again
    Insn(RET_K,      0, 0, 0x00040000),  // 18  accept, trimmed to 262144 bytes
    Insn(RET_K,      0, 0, 0x00000000)   // 19  reject
  ]

  /** `id[0]<<24 | id[1]<<16 | id[2]<<8 | id[3]`: the id packed big-endian. */
  function CommIdOperand(id: CommId): (k: uint32)
    ensures k == BigEndianWord(id)
  {
    PackedOr(id[0], id[1], id[2], id[3]);
    BitOr(BitOr(BitOr(Shl(id[0], 24), Shl(id[1], 16)), Shl(id[2], 8)), id[3])
  }

  /** The four shifted bytes occupy disjoint bit ranges, so or-ing them is
      adding them. */
  lemma PackedOr(b0: uint8, b1: uint8, b2: uint8, b3: uint8)
    ensures BitOr(BitOr(BitOr(Shl(b0, 24), Shl(b1, 16)), Shl(b2, 8)), b3) ==
            BigEndianWord([b0, b1, b2, b3])
  {
    Pow2Values();
    var high := (b0 as int) * 0x100 + b1;
    BitOrLowBits(b0, b1, 8);
    BitOrShifted(Shl(b0, 8), b1, 16);
    assert Shl(Shl(b0, 8), 16) == Shl(b0, 24);
    assert BitOr(Shl(b0, 24), Shl(b1, 16)) == Shl(high, 16);
    var upper := high * 0x100 + b2;
    BitOrLowBits(high, b2, 8);
    BitOrShifted(Shl(high, 8), b2, 8);
    assert Shl(Shl(high, 8), 8) == Shl(high, 16);
    assert BitOr(Shl(high, 16), Shl(b2, 8)) == Shl(upper, 8);
    BitOrLowBits(upper, b3, 8);
  }

  /** `0x00<<24 | 0x00<<16 | 0x01<<8 | direction` */
  function DirectionOperand(direction: uint8): (k: uint32)
    ensures k == 0x0100 + direction
  {
    Pow2Values();
    BitOrLowBits(1, direction, 8);
    BitOr(BitOr(BitOr(Shl(0, 24), Shl(0, 16)), Shl(1, 8)), direction)
  }

  /** `0x00<<24 | 0x00<<16 | db_version<<8 | port` */
  function PortOperand(port: uint8): (k: uint32)
    ensures k == DB_VERSION * 0x0100 + port
  {
    Pow2Values();
    BitOrLowBits(DB_VERSION, port, 8);
    BitOr(BitOr(BitOr(Shl(0, 24), Shl(0, 16)), Shl(DB_VERSION, 8)), port)
  }

  /** The program `setBPF` attaches, as a value. */
  function Filter(id: CommId, direction: uint8, port: uint8): seq<Insn> {
    Template[COMM_ID_CHECK := Template[COMM_ID_CHECK].(k := CommIdOperand(id))]
            [DIRECTION_CHECK := Template[DIRECTION_CHECK].(k := DirectionOperand(direction))]
            [PORT_CHECK := Template[PORT_CHECK].(k := PortOperand(port))]
            [DIRECTION_CONFIRM := Template[DIRECTION_CONFIRM].(k := direction)]
  }

  /** Fill `dest_filter` from the template and overwrite the four operands
      in place. */
  method BuildFilter(id: CommId, direction: uint8, port: uint8) returns (f: array<Insn>)
    ensures fresh(f)
    ensures f[..] == Filter(id, direction, port)
  {
    f := new Insn[|Template|](i requires 0 <= i < |Template| => Template[i]);
    f[COMM_ID_CHECK] := f[COMM_ID_CHECK].(k := CommIdOperand(id));
    f[DIRECTION_CHECK] := f[DIRECTION_CHECK].(k := DirectionOperand(direction));
    f[PORT_CHECK] := f[PORT_CHECK].(k := PortOperand(port));
    f[DIRECTION_CONFIRM] := f[DIRECTION_CONFIRM].(k := direction);
  }

  // ---------------------------------------------------------------------
  // Shape of the built program

  predicate IsOverwritten(i: nat) {
    i == COMM_ID_CHECK || i == DIRECTION_CHECK || i == PORT_CHECK || i == DIRECTION_CONFIRM
  }

  /** 20 instructions; opcodes and jump offsets are the template's, and
      only the operands of instructions 11, 13, 15 and 17 differ. */
  lemma FilterShape(id: CommId, direction: uint8, port: uint8)
    ensures |Filter(id, direction, port)| == FILTER_LENGTH
    ensures forall i :: 0 <= i < FILTER_LENGTH ==>
      var ins := Filter(id, direction, port)[i];
      ins.code == Template[i].code && ins.jt == Template[i].jt && ins.jf == Template[i].jf &&
      (!IsOverwritten(i) ==> ins == Template[i])
  {
  }

  /** The four operands, and that each fits the width of the load that
      precedes its comparison. */
  lemma FilterOperands(id: CommId, direction: uint8, port: uint8)
    ensures var f := Filter(id, direction, port);
      f[COMM_ID_CHECK].k == BigEndianWord(id) &&
      f[DIRECTION_CHECK].k == 0x0100 + direction &&
      f[PORT_CHECK].k == DB_VERSION * 0x0100 + port &&
      f[DIRECTION_CONFIRM].k == direction &&
      f[DIRECTION_CHECK - 1].code == LD_H_IND && f[DIRECTION_CHECK].k < 0x1_0000 &&
      f[PORT_CHECK - 1].code == LD_H_IND && f[PORT_CHECK].k < 0x1_0000 &&
      f[DIRECTION_CONFIRM - 1].code == LD_B_IND && f[DIRECTION_CONFIRM].k < 0x100
  {
  }

  /** Every conditional jump goes forward and lands inside the program; a
      failed check of instruction 9, 11, 13, 15 or 17 lands on `ret 0`, a
      data frame at instruction 8 skips the beacon test; the program ends
      with accept and reject. */
  lemma FilterJumps(id: CommId, direction: uint8, port: uint8)
    ensures var f := Filter(id, direction, port);
      (forall i :: 0 <= i < |f| && IsConditionalJump(f[i].code) ==>
         i < i + 1 + f[i].jt < |f| && i < i + 1 + f[i].jf < |f|) &&
      (forall i :: i in {9, 11, 13, 15, 17} ==> f[i].code == JMP_JEQ_K || f[i].code == JMP_JSET_K) &&
      9 + 1 + f[9].jf == REJECT_INDEX && 11 + 1 + f[11].jf == REJECT_INDEX &&
      13 + 1 + f[13].jf == REJECT_INDEX && 15 + 1 + f[15].jf == REJECT_INDEX &&
      17 + 1 + f[17].jf == REJECT_INDEX &&
      8 + 1 + f[8].jt == 10 &&
      f[ACCEPT_INDEX] == Insn(RET_K, 0, 0, ACCEPT_LENGTH) &&
      f[REJECT_INDEX] == Insn(RET_K, 0, 0, 0)
  {
  }

  /** The kernel's attach-time check accepts the built program for every
      input, so every run ends at a `ret`, after at most 20 instructions. */
  lemma FilterValid(id: CommId, direction: uint8, port: uint8)
    ensures Valid(Filter(id, direction, port))
  {
    FilterJumps(id, direction, port);
  }

  /** Different inputs give different programs: the program determines the
      id, the direction and the port it was built from. */
  lemma {:induction false} FilterInjective(id: CommId, direction: uint8, port: uint8,
                                           id': CommId, direction': uint8, port': uint8)
    ensures Filter(id, direction, port) == Filter(id', direction', port') <==>
            id == id' && direction == direction' && port == port'
  {
    if Filter(id, direction, port) == Filter(id', direction', port') {
      FilterOperands(id, direction, port);
      FilterOperands(id', direction', port');
      assert Filter(id, direction, port)[COMM_ID_CHECK] == Filter(id', direction', port')[COMM_ID_CHECK];
      assert Filter(id, direction, port)[DIRECTION_CONFIRM] == Filter(id', direction', port')[DIRECTION_CONFIRM];
      assert Filter(id, direction, port)[PORT_CHECK] == Filter(id', direction', port')[PORT_CHECK];
      BigEndianWordInjective(id, id');
    }
  }

  /** A big-endian word equals a packed id exactly when its bytes are the id. */
  lemma BigEndianWordInjective(b: seq<uint8>, id: CommId)
    requires |b| == 4
    ensures (BigEndianWord(b) == BigEndianWord(id)) <==> b == id
  {
    if BigEndianWord(b) == BigEndianWord(id) {
      assert b[0] == id[0];
      assert b[1] == id[1];
      assert b[2] == id[2];
      assert b[3] == id[3];
    }
  }

  /** Operands for id AA BB CC DD, direction 0x01 and port 0x01, and the
      packed id at both ends of its range. */
  lemma ExampleOperands()
    ensures var f := Filter([0xAA, 0xBB, 0xCC, 0xDD], 0x01, 0x01);
      f[COMM_ID_CHECK].k == 0xAABBCCDD && f[DIRECTION_CHECK].k == 0x00000101 &&
      f[PORT_CHECK].k == 0x00000101 && f[DIRECTION_CONFIRM].k == 0x00000001
    ensures CommIdOperand([0x00, 0x00, 0x00, 0x00]) == 0x00000000
    ensures CommIdOperand([0xFF, 0xFF, 0xFF, 0xFF]) == 0xFFFFFFFF
    ensures DirectionOperand(0xFF) == 0x01FF && PortOperand(0xFF) == 0x01FF
  {
  }

  // ---------------------------------------------------------------------
  // What the program accepts, stated over the captured frame

  /** `it_len` of the radiotap header, little-endian at bytes 2 and 3: the
      offset of the 802.11 header. */
  function RadiotapLength(pkt: seq<uint8>): (h: uint16)
    requires |pkt| >= 4
  {
    (pkt[2] as int) + (pkt[3] as int) * 0x100
  }

  /** The frame-control byte has bit 0x08 (data) or bit 0x80 (beacon) set. */
  predicate DataOrBeacon(fc: uint8) {
    HasBit(fc, 3) || HasBit(fc, 7)
  }

  /** Frame-control bytes the test admits and drops: data, QoS data,
      beacon, authentication, action, RTS and ACK pass; probe request,
      probe response and association request do not. */
  lemma FrameControlExamples()
    ensures DataOrBeacon(0x08) && DataOrBeacon(0x88) && DataOrBeacon(0x80)
    ensures DataOrBeacon(0xB0) && DataOrBeacon(0xD0) && DataOrBeacon(0xB4) && DataOrBeacon(0xD4)
    ensures !DataOrBeacon(0x40) && !DataOrBeacon(0x50) && !DataOrBeacon(0x00)
  {
  }

  /** The header fields the receiver requires at fixed offsets from the
      start `h` of the 802.11 header. */
  predicate FieldsMatch(pkt: seq<uint8>, h: nat, id: CommId, direction: uint8, port: uint8) {
    h + 19 <= |pkt| &&
    pkt[h + 4] == 0x01 && pkt[h + 5] == direction &&
    pkt[h + 6..h + 10] == id &&
    pkt[h + 16] == DB_VERSION && pkt[h + 17] == port &&
    pkt[h + 18] == direction
  }

  /** The frames the receive filter is meant to deliver. */
  predicate Accepts(pkt: seq<uint8>, id: CommId, direction: uint8, port: uint8) {
    |pkt| >= 4 &&
    var h := RadiotapLength(pkt);
    h < |pkt| && DataOrBeacon(pkt[h]) && FieldsMatch(pkt, h, id, direction, port)
  }

  const ScratchInit: seq<uint32> := Initial.mem

  /** The built program, instruction by instruction. */
  lemma FilterAt(id: CommId, direction: uint8, port: uint8)
    ensures var f := Filter(id, direction, port);
      |f| == FILTER_LENGTH &&
      f[0] == Insn(LD_B_ABS, 0, 0, 3) && f[1] == Insn(ALU_LSH_K, 0, 0, 8) &&
      f[2] == Insn(MISC_TAX, 0, 0, 0) && f[3] == Insn(LD_B_ABS, 0, 0, 2) &&
      f[4] == Insn(ALU_OR_X, 0, 0, 0) && f[5] == Insn(ST, 0, 0, 0) &&
      f[6] == Insn(MISC_TAX, 0, 0, 0) && f[7] == Insn(LD_B_IND, 0, 0, 0) &&
      f[8] == Insn(JMP_JSET_K, 1, 0, 0x08) && f[9] == Insn(JMP_JSET_K, 0, 9, 0x80) &&
      f[10] == Insn(LD_W_IND, 0, 0, 6) && f[11] == Insn(JMP_JEQ_K, 0, 7, CommIdOperand(id)) &&
      f[12] == Insn(LD_H_IND, 0, 0, 4) && f[13] == Insn(JMP_JEQ_K, 0, 5, DirectionOperand(direction)) &&
      f[14] == Insn(LD_H_IND, 0, 0, 16) && f[15] == Insn(JMP_JEQ_K, 0, 3, PortOperand(port)) &&
      f[16] == Insn(LD_B_IND, 0, 0, 18) && f[17] == Insn(JMP_JEQ_K, 0, 1, direction) &&
      f[18] == Insn(RET_K, 0, 0, ACCEPT_LENGTH) && f[19] == Insn(RET_K, 0, 0, 0)
  {
  }

  /** Machine state after instruction 6: A and X hold the radiotap length,
      and so does M[0]. */
  function AfterPrefix(pkt: seq<uint8>): Machine
    requires |pkt| >= 4
  {
    var h := RadiotapLength(pkt);
    Machine(7, h, h, ScratchInit[0 := h])
  }

  /** Instructions 0 to 6 read the radiotap length into X, or return 0 on a
      frame shorter than 4 bytes. */
  lemma {:induction false} RadiotapPrefix(prog: seq<Insn>, pkt: seq<uint8>)
    requires |prog| == FILTER_LENGTH
    requires prog[0] == Insn(LD_B_ABS, 0, 0, 3) && prog[1] == Insn(ALU_LSH_K, 0, 0, 8)
    requires prog[2] == Insn(MISC_TAX, 0, 0, 0) && prog[3] == Insn(LD_B_ABS, 0, 0, 2)
    requires prog[4] == Insn(ALU_OR_X, 0, 0, 0) && prog[5] == Insn(ST, 0, 0, 0)
    requires prog[6] == Insn(MISC_TAX, 0, 0, 0)
    ensures Run(prog, pkt) == if |pkt| < 4 then Return(0) else RunFrom(prog, pkt, AfterPrefix(pkt))
  {
    var m0 := Initial;
    RunLoadAbsByte(prog, pkt, m0);
    if |pkt| >= 4 {
      var h := RadiotapLength(pkt);
      var m1 := m0.(pc := 1, a := pkt[3]);
      var hi := ShiftedHighByte(pkt[3]);
      RunLsh(prog, pkt, m1);
      var m2 := m1.(pc := 2, a := hi);
      RunTax(prog, pkt, m2);
      var m3 := m2.(pc := 3, x := hi);
      RunLoadAbsByte(prog, pkt, m3);
      var m4 := m3.(pc := 4, a := pkt[2]);
      RunOrX(prog, pkt, m4);
      LittleEndianOr(pkt[2], pkt[3]);
      var m5 := m4.(pc := 5, a := h);
      RunStore(prog, pkt, m5);
      var m6 := m5.(pc := 6, mem := ScratchInit[0 := h]);
      RunTax(prog, pkt, m6);
      assert m6.(pc := 7, x := h) == AfterPrefix(pkt);
    }
  }

  /** `A << 8` on a byte. */
  function ShiftedHighByte(b: uint8): (a: uint32)
    ensures a == (b * Pow2(8)) % WORD_MODULUS
  {
    Pow2Values();
    (b as int) * 0x100
  }

  /** `hi << 8 | lo` is the little-endian value of the two bytes. */
  lemma LittleEndianOr(lo: uint8, hi: uint8)
    ensures Or32(lo, ShiftedHighByte(hi)) == (lo as int) + (hi as int) * 0x100
  {
    Pow2Values();
    BitOrLowBits(hi, lo, 8);
    BitOrCommutes(lo, ShiftedHighByte(hi));
  }

  /** Instructions 7 to 9: the frame-control byte at X must exist and be a
      data or beacon frame; otherwise the program returns 0. */
  lemma {:induction false} FrameControlCheck(prog: seq<Insn>, pkt: seq<uint8>)
    requires |prog| == FILTER_LENGTH && |pkt| >= 4
    requires prog[7] == Insn(LD_B_IND, 0, 0, 0) && prog[8] == Insn(JMP_JSET_K, 1, 0, 0x08)
    requires prog[9] == Insn(JMP_JSET_K, 0, 9, 0x80) && prog[REJECT_INDEX] == Insn(RET_K, 0, 0, 0)
    ensures var h := RadiotapLength(pkt);
      RunFrom(prog, pkt, AfterPrefix(pkt)) ==
        if h < |pkt| && DataOrBeacon(pkt[h])
        then RunFrom(prog, pkt, Machine(10, pkt[h], h, ScratchInit[0 := h]))
        else Return(0)
  {
    var h := RadiotapLength(pkt);
    var m7 := AfterPrefix(pkt);
    RunLoadInd(prog, pkt, m7, Byte);
    if h < |pkt| {
      var fc := pkt[h];
      assert Pow2(3) == 8 && Pow2(7) == 0x80;
      BitAndPow2(fc, 3);
      BitAndPow2(fc, 7);
      var m8 := m7.(pc := 8, a := fc);
      RunJump(prog, pkt, m8);
      if !HasBit(fc, 3) {
        var m9 := m8.(pc := 9);
        RunJump(prog, pkt, m9);
        if !HasBit(fc, 7) {
          RunRet(prog, pkt, m9.(pc := REJECT_INDEX));
        }
      }
    }
  }

  /** Instructions 10-19: the communication id word at X+6, then the
      direction, version/port and direction checks; 262144 when all four
      fields match, 0 on a mismatch or on a load past the end. */
  lemma {:induction false} IdAndDirectionChecks(prog: seq<Insn>, pkt: seq<uint8>, id: CommId,
                                                direction: uint8, port: uint8,
                                                h: uint16, a: uint32, mem: seq<uint32>)
    requires |prog| == FILTER_LENGTH && |mem| == MEMWORDS
    requires prog[10] == Insn(LD_W_IND, 0, 0, 6) && prog[11] == Insn(JMP_JEQ_K, 0, 7, BigEndianWord(id))
    requires prog[12] == Insn(LD_H_IND, 0, 0, 4) && prog[13] == Insn(JMP_JEQ_K, 0, 5, 0x0100 + direction)
    requires prog[14] == Insn(LD_H_IND, 0, 0, 16) && prog[15] == Insn(JMP_JEQ_K, 0, 3, DB_VERSION * 0x100 + port)
    requires prog[16] == Insn(LD_B_IND, 0, 0, 18) && prog[17] == Insn(JMP_JEQ_K, 0, 1, direction)
    requires prog[ACCEPT_INDEX] == Insn(RET_K, 0, 0, ACCEPT_LENGTH) && prog[REJECT_INDEX] == Insn(RET_K, 0, 0, 0)
    ensures RunFrom(prog, pkt, Machine(10, a, h, mem)) ==
      if FieldsMatch(pkt, h, id, direction, port) then Return(ACCEPT_LENGTH) else Return(0)
  {
    var m10 := Machine(10, a, h, mem);
    RunLoadInd(prog, pkt, m10, Word);
    if h + 10 <= |pkt| {
      var w := BigEndianWord(pkt[h + 6..h + 10]);
      assert Load(pkt, h + 6, Word) == Some(w);
      BigEndianWordInjective(pkt[h + 6..h + 10], id);
      var m11 := m10.(pc := 11, a := w);
      RunJump(prog, pkt, m11);
      if w != BigEndianWord(id) {
        RunRet(prog, pkt, m11.(pc := REJECT_INDEX));
      } else {
        DirectionCheck(prog, pkt, id, direction, port, h, w, mem);
      }
    }
  }

  /** Instructions 12 and 13: the half-word at X+4 must be 0x01 followed by
      the direction. */
  lemma {:induction false} DirectionCheck(prog: seq<Insn>, pkt: seq<uint8>, id: CommId,
                                          direction: uint8, port: uint8,
                                          h: uint16, a: uint32, mem: seq<uint32>)
    requires |prog| == FILTER_LENGTH && |mem| == MEMWORDS
    requires prog[12] == Insn(LD_H_IND, 0, 0, 4) && prog[13] == Insn(JMP_JEQ_K, 0, 5, 0x0100 + direction)
    requires prog[14] == Insn(LD_H_IND, 0, 0, 16) && prog[15] == Insn(JMP_JEQ_K, 0, 3, DB_VERSION * 0x100 + port)
    requires prog[16] == Insn(LD_B_IND, 0, 0, 18) && prog[17] == Insn(JMP_JEQ_K, 0, 1, direction)
    requires prog[ACCEPT_INDEX] == Insn(RET_K, 0, 0, ACCEPT_LENGTH) && prog[REJECT_INDEX] == Insn(RET_K, 0, 0, 0)
    requires h + 10 <= |pkt| && pkt[h + 6..h + 10] == id
    ensures RunFrom(prog, pkt, Machine(12, a, h, mem)) ==
      if FieldsMatch(pkt, h, id, direction, port) then Return(ACCEPT_LENGTH) else Return(0)
  {
    var m12 := Machine(12, a, h, mem);
    RunLoadInd(prog, pkt, m12, Half);
    var dw: uint32 := (pkt[h + 4] as int) * 0x100 + pkt[h + 5];
    assert Load(pkt, h + 4, Half) == Some(dw);
    var m13 := m12.(pc := 13, a := dw);
    RunJump(prog, pkt, m13);
    if dw != 0x0100 + direction {
      RunRet(prog, pkt, m13.(pc := REJECT_INDEX));
    } else {
      VersionAndPortChecks(prog, pkt, id, direction, port, h, dw, mem);
    }
  }

  /** Instructions 14 to 19, reached once the id and direction matched. */
  lemma {:induction false} VersionAndPortChecks(prog: seq<Insn>, pkt: seq<uint8>, id: CommId,
                                                direction: uint8, port: uint8,
                                                h: uint16, a: uint32, mem: seq<uint32>)
    requires |prog| == FILTER_LENGTH && |mem| == MEMWORDS
    requires prog[14] == Insn(LD_H_IND, 0, 0, 16) && prog[15] == Insn(JMP_JEQ_K, 0, 3, DB_VERSION * 0x100 + port)
    requires prog[16] == Insn(LD_B_IND, 0, 0, 18) && prog[17] == Insn(JMP_JEQ_K, 0, 1, direction)
    requires prog[ACCEPT_INDEX] == Insn(RET_K, 0, 0, ACCEPT_LENGTH) && prog[REJECT_INDEX] == Insn(RET_K, 0, 0, 0)
    requires h + 10 <= |pkt|
    requires pkt[h + 4] == 0x01 && pkt[h + 5] == direction && pkt[h + 6..h + 10] == id
    ensures RunFrom(prog, pkt, Machine(14, a, h, mem)) ==
      if FieldsMatch(pkt, h, id, direction, port) then Return(ACCEPT_LENGTH) else Return(0)
  {
    var m14 := Machine(14, a, h, mem);
    RunLoadInd(prog, pkt, m14, Half);
    if h + 18 <= |pkt| {
      var pw: uint32 := (pkt[h + 16] as int) * 0x100 + pkt[h + 17];
      var m15 := m14.(pc := 15, a := pw);
      RunJump(prog, pkt, m15);
      if pw != DB_VERSION * 0x100 + port {
        RunRet(prog, pkt, m15.(pc := REJECT_INDEX));
      } else {
        var m16 := m15.(pc := 16);
        RunLoadInd(prog, pkt, m16, Byte);
        if h + 19 <= |pkt| {
          var m17 := m16.(pc := 17, a := pkt[h + 18]);
          RunJump(prog, pkt, m17);
          if pkt[h + 18] != direction {
            RunRet(prog, pkt, m17.(pc := REJECT_INDEX));
          } else {
            RunRet(prog, pkt, m17.(pc := ACCEPT_INDEX));
          }
        }
      }
    }
  }

  /** The built program returns 262144 exactly for the frames `Accepts`
      describes, and 0 for every other frame. */
  lemma FilterAcceptsExactly(id: CommId, direction: uint8, port: uint8, pkt: seq<uint8>)
    ensures Run(Filter(id, direction, port), pkt) ==
      if Accepts(pkt, id, direction, port) then Return(ACCEPT_LENGTH) else Return(0)
  {
    var f := Filter(id, direction, port);
    FilterAt(id, direction, port);
    RadiotapPrefix(f, pkt);
    if |pkt| >= 4 {
      FrameControlCheck(f, pkt);
      var h := RadiotapLength(pkt);
      if h < |pkt| && DataOrBeacon(pkt[h]) {
        IdAndDirectionChecks(f, pkt, id, direction, port, h, pkt[h], ScratchInit[0 := h]);
      }
    }
  }

  /** Bytes a packet socket delivers for a frame of `frameLen` bytes: the
      filter's return value caps the length, and 0 drops the frame. */
  function Delivered(v: Verdict, frameLen: nat): (n: nat)
    ensures n <= frameLen
  {
    if v.Return? then (if v.k < frameLen then v.k else frameLen) else 0
  }

  /** A matching frame is delivered in full up to 262144 bytes, and then
      truncated; any other frame is dropped. */
  lemma FilterDelivery(id: CommId, direction: uint8, port: uint8, pkt: seq<uint8>)
    ensures Delivered(Run(Filter(id, direction, port), pkt), |pkt|) ==
      if !Accepts(pkt, id, direction, port) then 0
      else if |pkt| <= ACCEPT_LENGTH then |pkt| else ACCEPT_LENGTH
  {
    FilterAcceptsExactly(id, direction, port, pkt);
  }

  /** A frame laid out as the sender frames it: a radiotap header of
      `4 + |rtBody|` bytes, then frame control, duration and the DroneBridge
      addressing bytes, then the payload. */
  function SyntheticFrame(rtBody: seq<uint8>, fc: uint8, id: CommId, direction: uint8,
                          port: uint8, payload: seq<uint8>): (pkt: seq<uint8>)
    requires 4 + |rtBody| < 0x1_0000
  {
    var len := 4 + |rtBody|;
    [0x00, 0x00, len % 0x100, len / 0x100] + rtBody +
    [fc, 0x00, 0x00, 0x00, 0x01, direction] + id +
    [0x00, 0x00, 0x00, 0x00, 0x00, 0x00] + [DB_VERSION, port, direction] + payload
  }

  /** On such frames the filter matches exactly the receiver's own id,
      direction and port, for data and beacon frames. */
  lemma SyntheticFrameVerdict(id: CommId, direction: uint8, port: uint8,
                              rtBody: seq<uint8>, fc: uint8, id': CommId, direction': uint8,
                              port': uint8, payload: seq<uint8>)
    requires 4 + |rtBody| < 0x1_0000
    ensures Run(Filter(id, direction, port), SyntheticFrame(rtBody, fc, id', direction', port', payload)) ==
      if DataOrBeacon(fc) && id' == id && direction' == direction && port' == port
      then Return(ACCEPT_LENGTH) else Return(0)
  {
    var pkt := SyntheticFrame(rtBody, fc, id', direction', port', payload);
    var h := 4 + |rtBody|;
    assert RadiotapLength(pkt) == h;
    assert pkt[h] == fc && pkt[h + 4] == 0x01 && pkt[h + 5] == direction';
    assert pkt[h + 6..h + 10] == id';
    assert pkt[h + 16] == DB_VERSION && pkt[h + 17] == port' && pkt[h + 18] == direction';
    FilterAcceptsExactly(id, direction, port, pkt);
  }
}
