/** The P16 code words the assembler produces, and how to read them. */
module InstructionSet {
  import opened Bits
  import opened Machine

  type Register = r: nat | r < 16

  /** The registers a three-bit field can name. */
  type LowRegister = r: nat | r < 8

  datatype Arith = Adding | Subtracting | AddingCarry | SubtractingBorrow

  datatype LogicOp = Conjunction | Disjunction | ExclusiveOr

  datatype ShiftOp = Lsl | Lsr | Asr | Ror

  datatype Condition = Eq | Ne | Cs | Cc | Ge | Lt | Always | AndLink

  datatype Option<T> = None | Some(value: T)

  /** An instruction with every operand known. */
  datatype Code =
    | LoadRelative(rd: Register, field: nat)
    | TransferIndexed(store: bool, byte: bool, rd: Register, rn: LowRegister, index: nat)
    | TransferRegister(store: bool, byte: bool, rd: Register, rn: LowRegister, rm: Register)
    | Push(r: Register)
    | Pop(r: Register)
    | Branch(condition: Condition, field: nat)
    | Shift(shift: ShiftOp, rd: Register, rn: LowRegister, count: nat)
    | Rrx(rd: Register, rn: LowRegister)
    | ArithRegister(arith: Arith, rd: Register, rn: LowRegister, rm: Register)
    | ArithConstant(subtract: bool, rd: Register, rn: LowRegister, constant: nat)
    | Logic(logic: LogicOp, rd: Register, rn: LowRegister, rm: Register)
    | MoveRegister(rd: Register, rs: Register)
    | MoveConstant(high: bool, rd: Register, constant: nat)
    | MoveStatus
    | Not(rd: Register, rs: Register)
    | Compare(rn: LowRegister, rm: Register)
    | WriteStatus(spsr: bool, rs: Register)
    | ReadStatus(spsr: bool, rd: Register)
  {
    /** Every constant fits its field. */
    predicate Valid()
    {
      match this
      case LoadRelative(_, f) => f < 64
      case TransferIndexed(_, _, _, _, c) => c < 8
      case Branch(_, f) => f < 1024
      case Shift(_, _, _, c) => c < 16
      case ArithConstant(_, _, _, c) => c < 16
      case MoveConstant(_, _, c) => c < 256
      case _ => true
    }
  }

  function Flag(b: bool, weight: nat): nat { if b then weight else 0 }

  function ArithNumber(op: Arith): nat
  {
    match op case Adding => 0 case Subtracting => 1 case AddingCarry => 2 case SubtractingBorrow => 3
  }

  function LogicNumber(op: LogicOp): nat
  {
    match op case Conjunction => 0 case Disjunction => 1 case ExclusiveOr => 2
  }

  function ShiftNumber(op: ShiftOp): nat
  {
    match op case Lsl => 0 case Lsr => 1 case Asr => 2 case Ror => 3
  }

  function ConditionNumber(c: Condition): nat
  {
    match c
    case Eq => 0 case Ne => 1 case Cs => 2 case Cc => 3 case Ge => 4 case Lt => 5 case Always => 6 case AndLink => 7
  }

  /** Three register fields: `rd` in bits 0 to 3, `rn` in bits 4 to 6, a fourth operand from bit 7 on. */
  function Fields(rd: nat, rn: nat, operand: nat): nat { rd + 0x10 * rn + 0x80 * operand }

  /** The code word, as the sum of its fields. */
  function Encode(i: Code): Word
    requires i.Valid()
  {
    match i
    case LoadRelative(rd, f) => 0x0C00 + rd + 0x10 * f
    case TransferIndexed(st, b, rd, rn, c) => Flag(st, 0x2000) + Flag(b, 0x800) + Fields(rd, rn, c)
    case TransferRegister(st, b, rd, rn, rm) => 0x1000 + Flag(st, 0x2000) + Flag(b, 0x800) + Fields(rd, rn, rm)
    case Push(r) => 0x2400 + r
    case Pop(r) => 0x0400 + r
    case Branch(c, f) => 0x4000 + 0x400 * ConditionNumber(c) + f
    case Shift(op, rd, rn, n) => 0xE000 + 0x800 * ShiftNumber(op) + Fields(rd, rn, n)
    case Rrx(rd, rn) => 0xD800 + Fields(rd, rn, 0)
    case ArithRegister(op, rd, rn, rm) => 0x8000 + 0x800 * ArithNumber(op) + Fields(rd, rn, rm)
    case ArithConstant(sub, rd, rn, c) => 0xA000 + Flag(sub, 0x800) + Fields(rd, rn, c)
    case Logic(op, rd, rn, rm) => 0xC000 + 0x800 * LogicNumber(op) + Fields(rd, rn, rm)
    case MoveRegister(rd, rs) => 0xB000 + Fields(rd, 0, rs)
    case MoveConstant(high, rd, c) => 0x6000 + Flag(high, 0x1000) + rd + 0x10 * c
    case MoveStatus => 0xB020
    case Not(rd, rs) => 0xB000 + Fields(rd, 1, rs)
    case Compare(rn, rm) => 0xB800 + Fields(0, rn, rm)
    case WriteStatus(spsr, rs) => 0xB040 + Flag(spsr, 0x10) + 0x80 * rs
    case ReadStatus(spsr, rd) => 0xB060 + Flag(spsr, 0x10) + rd
  }

  function RdOf(w: Word): Register { w % 0x10 }

  function RnOf(w: Word): LowRegister { w / 0x10 % 8 }

  function OperandOf(w: Word): Register { w / 0x80 % 0x10 }

  /** Words below 0x4000: memory accesses and the stack. */
  function DecodeMemory(w: Word): Option<Code>
    requires w < 0x4000
  {
    var high, rd, rn, operand := w / 0x800, RdOf(w), RnOf(w), OperandOf(w);
    if high % 4 >= 2 then Some(TransferRegister(high >= 4, high % 2 == 1, rd, rn, operand))
    else if operand < 8 then Some(TransferIndexed(high >= 4, high % 2 == 1, rd, rn, operand))
    else if high == 1 then Some(LoadRelative(rd, 8 * (operand - 8) + rn))
    else if operand == 8 && rn == 0 && high == 0 then Some(Pop(rd))
    else if operand == 8 && rn == 0 && high == 4 then Some(Push(rd))
    else None
  }

  function ConditionAt(n: nat): Condition
  {
    match n
    case 0 => Eq case 1 => Ne case 2 => Cs case 3 => Cc
    case 4 => Ge case 5 => Lt case 6 => Always case _ => AndLink
  }

  function ArithAt(n: nat): Arith
  {
    match n case 0 => Adding case 1 => Subtracting case 2 => AddingCarry case _ => SubtractingBorrow
  }

  function ShiftAt(n: nat): ShiftOp
  {
    match n case 0 => Lsl case 1 => Lsr case 2 => Asr case _ => Ror
  }

  function LogicAt(n: nat): LogicOp
  {
    match n case 0 => Conjunction case 1 => Disjunction case _ => ExclusiveOr
  }

  /** Words from 0xB000 to 0xB7FF: moves told apart by bits 4 to 6. */
  function DecodeMove(w: Word): Option<Code>
    requires 0xB000 <= w < 0xB800
  {
    var rd, rs, form := RdOf(w), OperandOf(w), RnOf(w);
    if form == 0 then Some(MoveRegister(rd, rs))
    else if form == 1 then Some(Not(rd, rs))
    else if w == 0xB020 then Some(MoveStatus)
    else if (form == 4 || form == 5) && rd == 0 then Some(WriteStatus(form == 5, rs))
    else if (form == 6 || form == 7) && rs == 0 then Some(ReadStatus(form == 7, rd))
    else None
  }

  function Decode(w: Word): Option<Code>
  {
    if w < 0x4000 then DecodeMemory(w)
    else if w < 0x6000 then Some(Branch(ConditionAt((w - 0x4000) / 0x400), w % 0x400))
    else if w < 0x8000 then Some(MoveConstant(w >= 0x7000, RdOf(w), w / 0x10 % 0x100))
    else if w < 0xA000 then Some(ArithRegister(ArithAt((w - 0x8000) / 0x800), RdOf(w), RnOf(w), OperandOf(w)))
    else if w < 0xB000 then Some(ArithConstant(w >= 0xA800, RdOf(w), RnOf(w), OperandOf(w)))
    else if w < 0xB800 then DecodeMove(w)
    else if w < 0xC000 then (if RdOf(w) == 0 then Some(Compare(RnOf(w), OperandOf(w))) else None)
    else if w < 0xD800 then Some(Logic(LogicAt((w - 0xC000) / 0x800), RdOf(w), RnOf(w), OperandOf(w)))
    else if w < 0xE000 then (if OperandOf(w) == 0 then Some(Rrx(RdOf(w), RnOf(w))) else None)
    else Some(Shift(ShiftAt((w - 0xE000) / 0x800), RdOf(w), RnOf(w), OperandOf(w)))
  }

  lemma FieldsDecode(high: nat, rd: nat, rn: nat, operand: nat)
    requires rd < 16 && rn < 8 && operand < 16 && 0x800 * high + Fields(rd, rn, operand) < 0x1_0000
    ensures var w := 0x800 * high + Fields(rd, rn, operand);
            RdOf(w) == rd && RnOf(w) == rn && OperandOf(w) == operand && w / 0x800 == high
    ensures Fields(rd, rn, operand) < 0x800
  {
    var w, q, h := 0x800 * high + Fields(rd, rn, operand), rn + 8 * operand + 0x80 * high, operand + 0x10 * high;
    RemainderUnique(w, q, 0x10, rd);
    RemainderUnique(q, h, 8, rn);
    RemainderUnique(w, h, 0x80, rd + 0x10 * rn);
    RemainderUnique(h, high, 0x10, operand);
    RemainderUnique(w, high, 0x800, Fields(rd, rn, operand));
  }

  lemma TransferRoundTrip(i: Code)
    requires i.Valid() && (i.TransferIndexed? || i.TransferRegister?)
    ensures Decode(Encode(i)) == Some(i)
  {
    hide RdOf, RnOf, OperandOf;
    var high := (if i.store then 4 else 0) + (if i.byte then 1 else 0) + (if i.TransferRegister? then 2 else 0);
    var operand := if i.TransferRegister? then i.rm else i.index;
    assert Encode(i) == 0x800 * high + Fields(i.rd, i.rn, operand);
    FieldsDecode(high, i.rd, i.rn, operand);
  }

  lemma StackRoundTrip(i: Code)
    requires i.Valid() && (i.LoadRelative? || i.Push? || i.Pop?)
    ensures Decode(Encode(i)) == Some(i)
  {
    hide RdOf, RnOf, OperandOf;
    match i {
      case LoadRelative(rd, f) => FieldsDecode(1, rd, f % 8, 8 + f / 8);
      case Push(r) => FieldsDecode(4, r, 0, 8);
      case Pop(r) => FieldsDecode(0, r, 0, 8);
    }
  }

  lemma MoveRoundTrip(i: Code)
    requires i.MoveRegister? || i.MoveStatus? || i.Not? || i.WriteStatus? || i.ReadStatus?
    ensures Decode(Encode(i)) == Some(i)
  {
    hide RdOf, RnOf, OperandOf;
    match i {
      case MoveRegister(rd, rs) => FieldsDecode(22, rd, 0, rs);
      case Not(rd, rs) => FieldsDecode(22, rd, 1, rs);
      case WriteStatus(spsr, rs) => FieldsDecode(22, 0, if spsr then 5 else 4, rs);
      case ReadStatus(spsr, rd) => FieldsDecode(22, rd, if spsr then 7 else 6, 0);
      case MoveStatus => FieldsDecode(22, 0, 2, 0);
    }
  }

  lemma OperationRoundTrip(i: Code)
    requires i.Valid() && (i.Shift? || i.ArithRegister? || i.Logic?)
    ensures Decode(Encode(i)) == Some(i)
  {
    hide RdOf, RnOf, OperandOf;
    match i {
      case Shift(op, rd, rn, n) => FieldsDecode(28 + ShiftNumber(op), rd, rn, n);
      case ArithRegister(op, rd, rn, rm) => FieldsDecode(16 + ArithNumber(op), rd, rn, rm);
      case Logic(op, rd, rn, rm) => FieldsDecode(24 + LogicNumber(op), rd, rn, rm);
    }
  }

  lemma SingleRoundTrip(i: Code)
    requires i.Valid() && (i.Rrx? || i.ArithConstant? || i.Compare?)
    ensures Decode(Encode(i)) == Some(i)
  {
    hide RdOf, RnOf, OperandOf;
    match i {
      case Rrx(rd, rn) => FieldsDecode(27, rd, rn, 0);
      case ArithConstant(sub, rd, rn, c) => FieldsDecode(if sub then 21 else 20, rd, rn, c);
      case Compare(rn, rm) => FieldsDecode(23, 0, rn, rm);
    }
  }

  /** Every instruction is read back from its code word, operands and all. */
  lemma DecodeEncode(i: Code)
    requires i.Valid()
    ensures Decode(Encode(i)) == Some(i)
  {
    hide Decode, Encode;
    match i {
      case LoadRelative(_, _) => StackRoundTrip(i);
      case TransferIndexed(_, _, _, _, _) => TransferRoundTrip(i);
      case TransferRegister(_, _, _, _, _) => TransferRoundTrip(i);
      case Push(_) => StackRoundTrip(i);
      case Pop(_) => StackRoundTrip(i);
      case Branch(_, _) => WideRoundTrip(i);
      case MoveConstant(_, _, _) => WideRoundTrip(i);
      case MoveRegister(_, _) => MoveRoundTrip(i);
      case MoveStatus => MoveRoundTrip(i);
      case Not(_, _) => MoveRoundTrip(i);
      case WriteStatus(_, _) => MoveRoundTrip(i);
      case ReadStatus(_, _) => MoveRoundTrip(i);
      case Rrx(_, _) => SingleRoundTrip(i);
      case ArithConstant(_, _, _, _) => SingleRoundTrip(i);
      case Compare(_, _) => SingleRoundTrip(i);
      case _ => OperationRoundTrip(i);
    }
  }

  lemma WideRoundTrip(i: Code)
    requires i.Valid() && (i.Branch? || i.MoveConstant?)
    ensures Decode(Encode(i)) == Some(i)
  {
    if i.Branch? {
      BranchFields(ConditionNumber(i.condition), i.field);
    } else {
      MoveFields(if i.high then 7 else 6, i.rd, i.constant);
    }
  }

  lemma BranchFields(n: nat, field: nat)
    requires n < 8 && field < 0x400
    ensures var w := 0x4000 + 0x400 * n + field; w % 0x400 == field && (w - 0x4000) / 0x400 == n
  {
    RemainderUnique(0x400 * n + field, n, 0x400, field);
    RemainderUnique(0x4000 + 0x400 * n + field, 0x10 + n, 0x400, field);
  }

  lemma MoveFields(high: nat, rd: nat, constant: nat)
    requires rd < 16 && constant < 0x100
    ensures var w := 0x1000 * high + rd + 0x10 * constant; w % 0x10 == rd && w / 0x10 % 0x100 == constant
  {
    var w, q := 0x1000 * high + rd + 0x10 * constant, 0x100 * high + constant;
    RemainderUnique(w, q, 0x10, rd);
    RemainderUnique(q, high, 0x100, constant);
  }

  /** No two instructions share a code word. */
  lemma EncodeInjective(i: Code, j: Code)
    requires i.Valid() && j.Valid() && Encode(i) == Encode(j)
    ensures i == j
  {
    hide Decode, Encode;
    DecodeEncode(i);
    DecodeEncode(j);
  }

  lemma FieldsSplit(w: Word)
    ensures w == 0x800 * (w / 0x800) + Fields(RdOf(w), RnOf(w), OperandOf(w))
    ensures Fields(RdOf(w), RnOf(w), OperandOf(w)) < 0x800
  {
    var q := w / 0x10;
    var h := q / 8;
    RemainderUnique(w, h, 0x80, w % 0x10 + 0x10 * (q % 8));
    RemainderUnique(w, h / 0x10, 0x800, w % 0x10 + 0x10 * (q % 8) + 0x80 * (h % 0x10));
  }

  lemma EncodeDecodeMemory(w: Word)
    requires w < 0x4000
    ensures Decode(w).Some? ==> Decode(w).value.Valid() && Encode(Decode(w).value) == w
  {
    hide RdOf, RnOf, OperandOf;
    FieldsSplit(w);
  }

  lemma EncodeDecodeMove(w: Word)
    requires 0xB000 <= w < 0xB800
    ensures Decode(w).Some? ==> Decode(w).value.Valid() && Encode(Decode(w).value) == w
  {
    hide RdOf, RnOf, OperandOf;
    FieldsSplit(w);
    assert w / 0x800 == 22 && w == 0xB000 + Fields(RdOf(w), RnOf(w), OperandOf(w));
    assert Decode(w) == DecodeMove(w);
  }

  lemma EncodeDecodeWide(w: Word)
    requires 0x4000 <= w < 0x8000
    ensures Decode(w).Some? ==> Decode(w).value.Valid() && Encode(Decode(w).value) == w
  {
    if w < 0x6000 {
      var n, field := (w - 0x4000) / 0x400, (w - 0x4000) % 0x400;
      BranchFields(n, field);
      assert ConditionNumber(ConditionAt(n)) == n;
    } else {
      var high, constant := w / 0x1000, w / 0x10 % 0x100;
      MoveSplit(w);
      assert high == 6 || high == 7;
    }
  }

  lemma MoveSplit(w: Word)
    ensures w == 0x1000 * (w / 0x1000) + w % 0x10 + 0x10 * (w / 0x10 % 0x100)
  {
    var q := w / 0x10;
    RemainderUnique(w, q / 0x100, 0x1000, w % 0x10 + 0x10 * (q % 0x100));
  }

  lemma EncodeDecodeArith(w: Word)
    requires 0x8000 <= w < 0xB000
    ensures Decode(w).Some? ==> Decode(w).value.Valid() && Encode(Decode(w).value) == w
  {
    hide RdOf, RnOf, OperandOf, Fields;
    FieldsSplit(w);
    if w < 0xA000 { ShiftedHigh(w, 0x10); }
  }

  lemma ShiftedHigh(w: Word, base: nat)
    requires 0x800 * base <= w
    ensures (w - 0x800 * base) / 0x800 == w / 0x800 - base
  {
    RemainderUnique(w - 0x800 * base, w / 0x800 - base, 0x800, w % 0x800);
  }

  lemma EncodeDecodeLogic(w: Word)
    requires 0xB800 <= w < 0xE000
    ensures Decode(w).Some? ==> Decode(w).value.Valid() && Encode(Decode(w).value) == w
  {
    hide RdOf, RnOf, OperandOf;
    FieldsSplit(w);
  }

  lemma EncodeDecodeShift(w: Word)
    requires 0xE000 <= w
    ensures Decode(w).Some? ==> Decode(w).value.Valid() && Encode(Decode(w).value) == w
  {
    hide RdOf, RnOf, OperandOf;
    FieldsSplit(w);
  }

  /** A word that reads as an instruction is that instruction's code word. */
  lemma EncodeDecode(w: Word)
    ensures Decode(w).Some? ==> Decode(w).value.Valid() && Encode(Decode(w).value) == w
  {
    hide Decode, Encode;
    if w < 0x4000 {
      EncodeDecodeMemory(w);
    } else if w < 0x8000 {
      EncodeDecodeWide(w);
    } else if w < 0xB000 {
      EncodeDecodeArith(w);
    } else if w < 0xB800 {
      EncodeDecodeMove(w);
    } else if w < 0xE000 {
      EncodeDecodeLogic(w);
    } else {
      EncodeDecodeShift(w);
    }
  }
}
