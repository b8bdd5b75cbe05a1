/** Instructions as statements: what each one means, when it is refused, and how its word is put together. */
module Instructions {
  import opened Bits
  import opened Machine
  import opened Expressions
  import opened Relocations
  import opened InstructionSet

  /** Branch mnemonics; `lo` and `hs` are other names of `cc` and `cs`. */
  datatype Mnemonic = BEQ | BNE | BCC | BLO | BCS | BHS | BGE | BLT | B | BL

  /** A statement's place in its section. */
  datatype Site = Site(section: nat, offset: nat)

  /** `ldst` is 0 for `ldr`, 1 for `ldrb`, 2 for `str`, 3 for `strb`. */
  type Access = a: nat | a < 4

  datatype Instruction =
    | LoadLabel(ldst: Access, rd: Register, target: Expr)
    | IndexedBy(ldst: Access, rd: Register, rn: Register, constant: Expr)
    | IndexedByRegister(ldst: Access, rd: Register, rn: Register, rm: Register)
    | BranchTo(mnemonic: Mnemonic, target: Expr)
    | ShiftBy(shift: ShiftOp, rd: Register, rn: Register, constant: Expr)
    | RotateExtended(rd: Register, rn: Register)
    | ArithRegisters(arith: Arith, rd: Register, rn: Register, rm: Register)
    | ArithImmediate(arith: Arith, rd: Register, rn: Register, constant: Expr)
    | LogicRegisters(logic: LogicOp, rd: Register, rn: Register, rm: Register)
    | NotRegister(rd: Register, rn: Register)
    | CopyRegister(rd: Register, rs: Register)
    | MoveImmediate(high: bool, rd: Register, constant: Expr)
    | ReturnStatus(rd: Register, rn: Register)
    | CompareRegisters(rn: Register, rm: Register)
    | SetStatus(spsr: bool, rs: Register)
    | GetStatus(rd: Register, spsr: bool)
    | PushRegister(r: Register)
    | PopRegister(r: Register)

  function ConditionOf(m: Mnemonic): Condition
  {
    match m
    case BEQ => Eq
    case BNE => Ne
    case BCC => Cc
    case BLO => Cc
    case BCS => Cs
    case BHS => Cs
    case BGE => Ge
    case BLT => Lt
    case B => Always
    case BL => AndLink
  }

  /** The expression operands of an instruction: one or none. */
  function OperandsIn(i: Instruction): (x: seq<Expr>)
    ensures |x| <= 1
  {
    match i
    case LoadLabel(_, _, x) => [x]
    case IndexedBy(_, _, _, x) => [x]
    case BranchTo(_, x) => [x]
    case ShiftBy(_, _, _, x) => [x]
    case ArithImmediate(_, _, _, x) => [x]
    case MoveImmediate(_, _, x) => [x]
    case _ => []
  }

  /** Evaluating the operands is an error. */
  ghost predicate OperandError(env: Env, i: Instruction)
    requires env.Acyclic()
  {
    exists x | x in OperandsIn(i) :: Eval(env, x).error
  }

  predicate IsLabel(env: Env, e: Expr)
    requires env.Acyclic()
  {
    Eval(env, e).ok && Eval(env, e).ty == Label
  }

  /** An operand that must be a constant is refused if it is a label, or if evaluating it is an error. */
  predicate BadConstant(env: Env, e: Expr)
    requires env.Acyclic()
  {
    Eval(env, e).error || (Eval(env, e).ok && Eval(env, e).ty != Absolute)
  }

  /** The value of a constant operand; zero when it could not be evaluated, which is only warned about. */
  function ConstantOf(env: Env, e: Expr): Word
    requires env.Acyclic()
  {
    if Eval(env, e).ok && Eval(env, e).ty == Absolute then Eval(env, e).Operand() else 0
  }

  predicate SameSectionLabel(env: Env, e: Expr, section: nat)
    requires env.Acyclic()
  {
    env.SectionOf(BaseSymbol(env, e)) == section
  }

  /** From the address after the branch to its target, in bytes. */
  function Displacement(env: Env, e: Expr, offset: nat): int
    requires env.Acyclic()
  {
    I32(Eval(env, e).Operand() - offset - 2)
  }

  /** The instruction is reported as an error. */
  predicate Faulty(env: Env, i: Instruction, site: Site)
    requires env.Acyclic()
  {
    match i
    case LoadLabel(ldst, _, e) =>
      || ldst != 0 || Eval(env, e).error
      || (Eval(env, e).ok && !(IsLabel(env, e) && SameSectionLabel(env, e, site.section)))
    case IndexedBy(_, _, rn, c) => rn > 7 || BadConstant(env, c)
    case IndexedByRegister(_, _, rn, _) => rn > 7
    case BranchTo(_, e) =>
      || Eval(env, e).error
      || (IsLabel(env, e) && !(SameSectionLabel(env, e, site.section)
                               && -1024 <= Displacement(env, e, site.offset) < 1024))
    case ShiftBy(_, _, rn, c) => rn > 7 || BadConstant(env, c)
    case RotateExtended(_, rn) => rn > 7
    case ArithRegisters(_, _, rn, _) => rn > 7
    case ArithImmediate(op, _, rn, c) => rn > 7 || !(op == Adding || op == Subtracting) || BadConstant(env, c)
    case LogicRegisters(_, _, rn, _) => rn > 7
    case MoveImmediate(_, _, c) => Eval(env, c).error
    case ReturnStatus(rd, rn) => rd != 15 || rn != 14
    case CompareRegisters(rn, _) => rn > 7
    case _ => false
  }

  /** A branch's field: the displacement in instructions, or half of an absolute operand. */
  function BranchField(env: Env, e: Expr, offset: nat): nat
    requires env.Acyclic()
  {
    (if IsLabel(env, e) then Displacement(env, e, offset) / 2 else ConstantOf(env, e) / 2) % 1024
  }

  /** What an accepted instruction assembles to, before relocation. */
  function Meaning(env: Env, i: Instruction, site: Site): (c: Code)
    requires env.Acyclic() && !Faulty(env, i, site)
    ensures c.Valid()
  {
    match i
    case LoadLabel(_, rd, _) => LoadRelative(rd, 0)
    case IndexedBy(ldst, rd, rn, c) =>
      TransferIndexed(ldst >= 2, ldst % 2 == 1, rd, rn,
                      (if ldst % 2 == 1 then ConstantOf(env, c) else ConstantOf(env, c) / 2) % 8)
    case IndexedByRegister(ldst, rd, rn, rm) => TransferRegister(ldst >= 2, ldst % 2 == 1, rd, rn, rm)
    case BranchTo(m, e) => Branch(ConditionOf(m), BranchField(env, e, site.offset))
    case ShiftBy(op, rd, rn, c) => Shift(op, rd, rn, ConstantOf(env, c) % 16)
    case RotateExtended(rd, rn) => Rrx(rd, rn)
    case ArithRegisters(op, rd, rn, rm) => ArithRegister(op, rd, rn, rm)
    case ArithImmediate(op, rd, rn, c) => ArithConstant(op == Subtracting, rd, rn, ConstantOf(env, c) % 16)
    case LogicRegisters(op, rd, rn, rm) => Logic(op, rd, rn, rm)
    case NotRegister(rd, rn) => Not(rd, rn)
    case CopyRegister(rd, rs) => MoveRegister(rd, rs)
    case MoveImmediate(high, rd, c) => MoveConstant(high, rd, ConstantOf(env, c) % 256)
    case ReturnStatus(_, _) => MoveStatus
    case CompareRegisters(rn, rm) => Compare(rn, rm)
    case SetStatus(spsr, rs) => WriteStatus(spsr, rs)
    case GetStatus(rd, spsr) => ReadStatus(spsr, rd)
    case PushRegister(r) => Push(r)
    case PopRegister(r) => Pop(r)
  }

  /** The word of an instruction, as numbers: `field` for `ldr rd, label`, `value` for `mov` and `movt`, and for any
      other operand the number it evaluates to, or zero. */
  predicate Spelled(env: Env, i: Instruction, offset: nat, field: nat, value: Word, word: int)
    requires env.Acyclic()
  {
    match i
    case LoadLabel(_, rd, _) => word == 0x0C00 + rd + 0x10 * field
    case IndexedBy(ldst, rd, rn, c) =>
      var k := if Eval(env, c).ok then Eval(env, c).Operand() else 0;
      && (ldst == 0 ==> word == 0x0000 + rd + 0x10 * rn + 0x80 * (k / 2 % 8))
      && (ldst == 1 ==> word == 0x0800 + rd + 0x10 * rn + 0x80 * (k % 8))
      && (ldst == 2 ==> word == 0x2000 + rd + 0x10 * rn + 0x80 * (k / 2 % 8))
      && (ldst == 3 ==> word == 0x2800 + rd + 0x10 * rn + 0x80 * (k % 8))
    case IndexedByRegister(ldst, rd, rn, rm) =>
      && (ldst == 0 ==> word == 0x1000 + rd + 0x10 * rn + 0x80 * rm)
      && (ldst == 1 ==> word == 0x1800 + rd + 0x10 * rn + 0x80 * rm)
      && (ldst == 2 ==> word == 0x3000 + rd + 0x10 * rn + 0x80 * rm)
      && (ldst == 3 ==> word == 0x3800 + rd + 0x10 * rn + 0x80 * rm)
    case BranchTo(m, e) =>
      var o := Eval(env, e);
      var distance: int :=
        if o.ok && o.ty == Label then o.Operand() - offset - 2 else if o.ok && o.ty == Absolute then o.Operand() else 0;
      var half := distance / 2 % 0x400;
      && (m == BEQ ==> word == 0x4000 + half) && (m == BNE ==> word == 0x4400 + half)
      && (m == BCS || m == BHS ==> word == 0x4800 + half) && (m == BCC || m == BLO ==> word == 0x4C00 + half)
      && (m == BGE ==> word == 0x5000 + half) && (m == BLT ==> word == 0x5400 + half)
      && (m == B ==> word == 0x5800 + half) && (m == BL ==> word == 0x5C00 + half)
    case ShiftBy(op, rd, rn, c) =>
      var rest := rd + 0x10 * rn + 0x80 * ((if Eval(env, c).ok then Eval(env, c).Operand() else 0) % 0x10);
      && (op == Lsl ==> word == 0xE000 + rest) && (op == Lsr ==> word == 0xE800 + rest)
      && (op == Asr ==> word == 0xF000 + rest) && (op == Ror ==> word == 0xF800 + rest)
    case RotateExtended(rd, rn) => word == 0xD800 + rd + 0x10 * rn
    case ArithRegisters(op, rd, rn, rm) =>
      var rest := rd + 0x10 * rn + 0x80 * rm;
      && (op == Adding ==> word == 0x8000 + rest) && (op == Subtracting ==> word == 0x8800 + rest)
      && (op == AddingCarry ==> word == 0x9000 + rest) && (op == SubtractingBorrow ==> word == 0x9800 + rest)
    case ArithImmediate(op, rd, rn, c) =>
      var rest := rd + 0x10 * rn + 0x80 * ((if Eval(env, c).ok then Eval(env, c).Operand() else 0) % 0x10);
      (op == Adding ==> word == 0xA000 + rest) && (op == Subtracting ==> word == 0xA800 + rest)
    case LogicRegisters(op, rd, rn, rm) =>
      var rest := rd + 0x10 * rn + 0x80 * rm;
      && (op == Conjunction ==> word == 0xC000 + rest) && (op == Disjunction ==> word == 0xC800 + rest)
      && (op == ExclusiveOr ==> word == 0xD000 + rest)
    case NotRegister(rd, rn) => word == 0xB010 + rd + 0x80 * rn
    case CopyRegister(rd, rs) => word == 0xB000 + rd + 0x80 * rs
    case MoveImmediate(high, rd, _) => word == (if high then 0x7000 else 0x6000) + rd + 0x10 * (value % 0x100)
    case ReturnStatus(_, _) => word == 0xB020
    case CompareRegisters(rn, rm) => word == 0xB800 + 0x10 * rn + 0x80 * rm
    case SetStatus(spsr, rs) => word == (if spsr then 0xB050 else 0xB040) + 0x80 * rs
    case GetStatus(rd, spsr) => word == (if spsr then 0xB070 else 0xB060) + rd
    case PushRegister(r) => word == 0x2400 + r
    case PopRegister(r) => word == 0x0400 + r
  }

  /** The word of every accepted instruction before linking: a label operand of `ldr`, `mov` or `movt` is still zero. */
  lemma MeaningSpelled(env: Env, i: Instruction, site: Site)
    requires env.Acyclic() && !Faulty(env, i, site)
    ensures Spelled(env, i, site.offset, 0, ConstantOf(env, OperandOr(i)), Encode(Meaning(env, i, site)))
  {
    hide Eval, BaseSymbol, Encode, Meaning, Spelled, Faulty;
    if i.BranchTo? {
      BranchSpelled(env, i, site);
    } else if i.IndexedBy? || i.IndexedByRegister? {
      TransferSpelled(env, i, site);
    } else if OperandsIn(i) != [] {
      OperandSpelled(env, i, site);
    } else {
      RegistersSpelled(env, i, site);
    }
  }

  lemma BranchSpelled(env: Env, i: Instruction, site: Site)
    requires env.Acyclic() && !Faulty(env, i, site) && i.BranchTo?
    ensures Spelled(env, i, site.offset, 0, ConstantOf(env, OperandOr(i)), Encode(Meaning(env, i, site)))
  {
    hide Eval, BaseSymbol, Displacement;
    HalfDistance(env, i.target, site.offset);
  }

  lemma TransferSpelled(env: Env, i: Instruction, site: Site)
    requires env.Acyclic() && !Faulty(env, i, site) && (i.IndexedBy? || i.IndexedByRegister?)
    ensures Spelled(env, i, site.offset, 0, ConstantOf(env, OperandOr(i)), Encode(Meaning(env, i, site)))
  {
    hide Eval, BaseSymbol;
  }

  lemma OperandSpelled(env: Env, i: Instruction, site: Site)
    requires env.Acyclic() && !Faulty(env, i, site)
    requires i.LoadLabel? || i.ShiftBy? || i.ArithImmediate? || i.MoveImmediate?
    ensures Spelled(env, i, site.offset, 0, ConstantOf(env, OperandOr(i)), Encode(Meaning(env, i, site)))
  {
    hide Eval, BaseSymbol;
  }

  lemma RegistersSpelled(env: Env, i: Instruction, site: Site)
    requires env.Acyclic() && !Faulty(env, i, site) && OperandsIn(i) == [] && !i.IndexedByRegister?
    ensures Spelled(env, i, site.offset, 0, ConstantOf(env, OperandOr(i)), Encode(Meaning(env, i, site)))
  {
    hide Eval, BaseSymbol;
  }

  /** The operand of an instruction that has one. */
  function OperandOr(i: Instruction): Expr { if OperandsIn(i) == [] then Value(0) else OperandsIn(i)[0] }

  lemma HalfDistance(env: Env, e: Expr, offset: nat)
    requires env.Acyclic()
    ensures IsLabel(env, e) ==> Displacement(env, e, offset) / 2 % 1024
                                == (Eval(env, e).Operand() as int - offset - 2) / 2 % 1024
  {
    hide Eval, BaseSymbol;
    SameHalf(Eval(env, e).Operand() as int - offset - 2);
  }

  lemma SameHalf(z: int)
    ensures I32(z) / 2 % 1024 == z / 2 % 1024
  {
    var q := (z + 0x8000_0000) / 0x1_0000_0000;
    assert z == 2 * (0x8000_0000 * q) + I32(z);
    assert z / 2 == 0x8000_0000 * q + I32(z) / 2;
    LowTenBits(0x20_0000 * q, I32(z) / 2);
  }

  /** The relocation an instruction leaves for its label operand. */
  function Links(env: Env, i: Instruction, site: Site): seq<Relocation>
    requires env.Acyclic()
  {
    match i
    case LoadLabel(_, _, e) =>
      if IsLabel(env, e) && SameSectionLabel(env, e, site.section)
      then [Relocation(site.section, site.offset, 4, 6, RelativeUnsigned, BaseSymbol(env, e),
                       Eval(env, e).Operand() - 2)]
      else []
    case MoveImmediate(_, _, e) =>
      if IsLabel(env, e)
      then [Relocation(site.section, site.offset, 4, 8, AbsoluteField, BaseSymbol(env, e), Eval(env, e).Operand())]
      else []
    case _ => []
  }

  /** A shift whose count cannot be evaluated leaves its two bytes as they were reserved. */
  predicate Writes(env: Env, i: Instruction)
    requires env.Acyclic()
  {
    !i.ShiftBy? || Eval(env, i.constant).ok
  }

  function Or(x: nat, y: nat): nat { Bitwise(BitOp.Or, x, y) }

  function And(x: nat, y: nat): nat { Bitwise(BitOp.And, x, y) }

  /** Or-ing a field into clear bits adds it. */
  lemma OrMiddle(high: nat, middle: nat, low: nat, k: nat, j: nat)
    requires low < Pow2(k) && middle < Pow2(j)
    ensures Or(high * Pow2(k + j) + low, middle * Pow2(k)) == high * Pow2(k + j) + middle * Pow2(k) + low
    ensures Or(middle * Pow2(k), high * Pow2(k + j) + low) == high * Pow2(k + j) + middle * Pow2(k) + low
  {
    hide Bitwise, Bit;
    var x, y := high * Pow2(k + j) + low, middle * Pow2(k);
    assert y + low == middle * Pow2(k) + low;
    FieldBelow(middle, low, k, j);
    forall i: nat ensures Bit(Or(x, y), i) == Bit(x + y, i) && Bit(Or(y, x), i) == Bit(x + y, i) {
      BitwiseBit(BitOp.Or, x, y, i);
      BitwiseBit(BitOp.Or, y, x, i);
      ConcatBit(high, low, k + j, i);
      ConcatBit(high, y + low, k + j, i);
      ConcatBit(middle, low, k, i);
      ShiftLeftBit(middle, k, i);
      if k <= i { SmallBits(low, k, i); }
      if k + j <= i { SmallBits(y + low, k + j, i); SmallBits(middle, j, i - k); }
    }
    SameBits(Or(x, y), x + y);
    SameBits(Or(y, x), x + y);
  }

  lemma FieldBelow(middle: nat, low: nat, k: nat, j: nat)
    requires low < Pow2(k) && middle < Pow2(j)
    ensures middle * Pow2(k) + low < Pow2(k + j) && low < Pow2(k + j)
  {
    Pow2Sum(j, k);
    MulMonotone(middle + 1, Pow2(j), Pow2(k), Pow2(k));
    assert (middle + 1) * Pow2(k) == middle * Pow2(k) + Pow2(k);
  }

  /** Or-ing `rd`, then `rn << 4`, then an operand `<< 7` onto an opcode whose low 11 bits are clear. */
  lemma OrFields(high: nat, rd: nat, rn: nat, operand: nat)
    requires rd < 16 && rn < 8 && operand < 16
    ensures Or(0x800 * high, rd) == Or(rd, 0x800 * high) == 0x800 * high + rd
    ensures Or(0x800 * high + rd, 0x10 * rn) == Or(0x10 * rn, 0x800 * high + rd) == 0x800 * high + rd + 0x10 * rn
    ensures var low := rd + 0x10 * rn;
            && Or(0x800 * high + low, 0x80 * operand) == 0x800 * high + Fields(rd, rn, operand)
            && Or(0x80 * operand, 0x800 * high + low) == 0x800 * high + Fields(rd, rn, operand)
  {
    hide Bitwise, Or;
    Pow2Table();
    OrMiddle(high, rd, 0, 0, 11);
    OrMiddle(high, rn, rd, 4, 7);
    OrMiddle(high, operand, rd + 0x10 * rn, 7, 4);
  }

  lemma MaskTable(x: nat)
    ensures And(x, 1) == x % 2 && And(x, 7) == x % 8 && And(x, 0xF) == x % 0x10
    ensures And(x, 0xFF) == x % 0x100 && And(x, 0x3FF) == x % 0x400
  {
    hide Bitwise;
    Pow2Table();
    AndMask(x, 1); LowBitsMod(x, 1);
    AndMask(x, 3); LowBitsMod(x, 3);
    AndMask(x, 4); LowBitsMod(x, 4);
    AndMask(x, 8); LowBitsMod(x, 8);
    AndMask(x, 10); LowBitsMod(x, 10);
  }

  lemma StoreBit(ldst: Access)
    ensures And(ldst, 2) != 0 <==> ldst >= 2
  {
    assert ldst in {0, 1, 2, 3};
  }

  /** `visit(Inst_load_store_indirect *)` with a constant index */
  method EncodeIndexed(ghost env: Env, i: Instruction, site: Site, r: Reading) returns (code: nat, error: bool)
    requires env.Acyclic() && i.IndexedBy? && ReadAs(env, i.constant, r)
    ensures (error || Eval(env, i.constant).error) == Faulty(env, i, site)
    ensures !Faulty(env, i, site) ==> code == Encode(Meaning(env, i, site))
  {
    hide Eval, Bitwise, Or, And;
    error := i.rn > 7;
    var byte := And(i.ldst, 1);
    code := Or(Or(Or(if And(i.ldst, 2) != 0 then 0x2000 else 0, byte * 0x800), i.rd), i.rn * 0x10);
    var constant := r.value;
    if r.ok {
      if r.ty == Absolute {
        if byte == 0 { constant := constant / 2; }
        code := Or(code, And(constant, 7) * 0x80);
      } else {
        error := true;
      }
    }
    if !Faulty(env, i, site) {
      MaskTable(i.ldst);
      StoreBit(i.ldst);
      MaskTable(constant);
      var high := (if i.ldst >= 2 then 4 else 0) + i.ldst % 2;
      StoreOrByte(i.ldst >= 2, i.ldst % 2);
      OrFields(high, i.rd, i.rn, if r.ok then constant % 8 else 0);
    }
  }

  lemma StoreOrByte(store: bool, byte: nat)
    requires byte < 2
    ensures Or(if store then 0x2000 else 0, byte * 0x800) == 0x800 * ((if store then 4 else 0) + byte)
  {
    hide Bitwise, Or;
    Pow2Table();
    OrMiddle(if store then 1 else 0, byte, 0, 11, 2);
  }

  /** Or-ing smaller bits onto an opcode whose low 11 bits are clear. */
  lemma OrOpcode(high: nat, low: nat)
    requires low < 0x800
    ensures Or(0x800 * high, low) == Or(low, 0x800 * high) == 0x800 * high + low
  {
    hide Bitwise, Or;
    Pow2Table();
    OrMiddle(high, low, 0, 0, 11);
  }

  /** Or-ing a four-bit field into clear low bits. */
  lemma OrNibble(high: nat, nibble: nat)
    requires nibble < 16
    ensures Or(0x10 * high, nibble) == Or(nibble, 0x10 * high) == 0x10 * high + nibble
  {
    hide Bitwise, Or;
    Pow2Table();
    OrMiddle(high, nibble, 0, 0, 4);
  }

  lemma OrAssociative(x: nat, y: nat, z: nat)
    ensures Or(x, Or(y, z)) == Or(Or(x, y), z)
  {
    hide Bitwise, Bit;
    forall i: nat ensures Bit(Or(x, Or(y, z)), i) == Bit(Or(Or(x, y), z), i) {
      BitwiseBit(BitOp.Or, x, Or(y, z), i);
      BitwiseBit(BitOp.Or, y, z, i);
      BitwiseBit(BitOp.Or, Or(x, y), z, i);
      BitwiseBit(BitOp.Or, x, y, i);
    }
    SameBits(Or(x, Or(y, z)), Or(Or(x, y), z));
  }

  lemma OrRegisterIndex(store: bool, byte: nat, low: nat, rm: nat)
    requires byte < 2 && low < 0x80 && rm < 16
    ensures var high := (if store then 4 else 0) + byte;
            Or(0x800 * high + low, 0x1000 + 0x80 * rm) == 0x800 * (high + 2) + low + 0x80 * rm
  {
    hide Bitwise, Or;
    Pow2Table();
    var high := (if store then 4 else 0) + byte;
    OrMiddle(2, rm, 0, 7, 4);
    OrAssociative(0x800 * high + low, 0x1000, 0x80 * rm);
    OrMiddle(if store then 1 else 0, 1, 0x800 * byte + low, 12, 1);
    OrMiddle(high + 2, rm, low, 7, 4);
  }

  /** `visit(Inst_load_store_indirect *)` with a register index */
  method EncodeIndexedByRegister(ghost env: Env, i: Instruction, site: Site) returns (code: nat, error: bool)
    requires env.Acyclic() && i.IndexedByRegister?
    ensures error == Faulty(env, i, site) && (!error ==> code == Encode(Meaning(env, i, site)))
  {
    hide Bitwise, Or, And;
    error := i.rn > 7;
    var byte := And(i.ldst, 1);
    code := Or(Or(Or(if And(i.ldst, 2) != 0 then 0x2000 else 0, byte * 0x800), i.rd), i.rn * 0x10);
    code := Or(code, 0x1000 + i.rm * 0x80);
    if !error {
      MaskTable(i.ldst);
      StoreBit(i.ldst);
      StoreOrByte(i.ldst >= 2, i.ldst % 2);
      OrFields((if i.ldst >= 2 then 4 else 0) + i.ldst % 2, i.rd, i.rn, 0);
      OrRegisterIndex(i.ldst >= 2, i.ldst % 2, i.rd + 0x10 * i.rn, i.rm);
    }
  }

  /** `visit(Inst_load_relative *)` */
  method EncodeLoadLabel(ghost env: Env, i: Instruction, site: Site, r: Reading)
    returns (code: nat, links: seq<Relocation>, error: bool)
    requires env.Acyclic() && i.LoadLabel? && ReadAs(env, i.target, r)
    ensures (error || Eval(env, i.target).error) == Faulty(env, i, site) && links == Links(env, i, site)
    ensures !Faulty(env, i, site) ==> code == Encode(Meaning(env, i, site))
  {
    hide Eval, BaseSymbol;
    error := i.ldst != 0;
    code := 0x0C00 + i.rd;
    links := [];
    if r.ok {
      if r.ty == Label {
        if r.section == site.section {
          links := [Relocation(site.section, site.offset, 4, 6, RelativeUnsigned, r.symbol, r.value - 2)];
        } else {
          error := true;
        }
      } else {
        error := true;
      }
    }
  }

  /** The offset a branch encodes, in instructions. */
  method BranchOffset(ghost env: Env, ghost e: Expr, site: Site, r: Reading) returns (offset: int, error: bool)
    requires env.Acyclic() && ReadAs(env, e, r)
    ensures error == (IsLabel(env, e) && !(SameSectionLabel(env, e, site.section)
                                           && -1024 <= Displacement(env, e, site.offset) < 1024))
    ensures !error ==> offset % 1024 == BranchField(env, e, site.offset)
  {
    hide Eval, BaseSymbol;
    offset := 0;
    error := false;
    if r.ok {
      if r.ty == Absolute {
        offset := r.value / 2;
      } else if r.ty == Label {
        if r.section == site.section {
          offset := I32(r.value - site.offset - 2);
          if offset >= 1024 || offset < -1024 { error := true; }
          offset := offset / 2;
        } else {
          error := true;
        }
      }
    }
  }

  /** `visit(Inst_branch *)` */
  method EncodeBranch(ghost env: Env, i: Instruction, site: Site, r: Reading) returns (code: nat, error: bool)
    requires env.Acyclic() && i.BranchTo? && ReadAs(env, i.target, r)
    ensures (error || Eval(env, i.target).error) == Faulty(env, i, site)
    ensures !Faulty(env, i, site) ==> code == Encode(Meaning(env, i, site))
  {
    hide Eval, BaseSymbol, Bitwise, Or, And, IsLabel, Displacement, BranchField;
    match i.mnemonic {
      case BEQ => code := 0x4000;
      case BNE => code := 0x4400;
      case BCC => code := 0x4C00;
      case BLO => code := 0x4C00;
      case BCS => code := 0x4800;
      case BHS => code := 0x4800;
      case BGE => code := 0x5000;
      case BLT => code := 0x5400;
      case B => code := 0x5800;
      case BL => code := 0x5C00;
    }
    ghost var number := ConditionNumber(ConditionOf(i.mnemonic));
    assert code == 0x400 * (0x10 + number);
    var offset;
    offset, error := BranchOffset(env, i.target, site, r);
    var field := And(U32(offset), 0x3FF);
    assert field == offset % 1024 by { BranchMask(offset); }
    OrBranch(0x10 + number, field);
    code := Or(code, field);
  }

  lemma BranchMask(offset: int)
    ensures And(U32(offset), 0x3FF) == offset % 1024
  {
    hide Bitwise, And, U32;
    MaskTable(U32(offset));
    LowTen(offset);
  }

  lemma LowTen(x: int)
    ensures U32(x) % 0x400 == x % 0x400
  {
    var q := x / 0x1_0000_0000;
    assert x == 0x400 * (0x40_0000 * q) + U32(x);
    LowTenBits(0x40_0000 * q, U32(x));
  }

  lemma LowTenBits(q: int, r: int)
    ensures (0x400 * q + r) % 0x400 == r % 0x400
  {
  }

  lemma OrBranch(high: nat, field: nat)
    requires field < 1024
    ensures Or(0x400 * high, field) == 0x400 * high + field
  {
    hide Bitwise, Or;
    Pow2Table();
    OrMiddle(high, field, 0, 0, 10);
  }

  /** `visit(Inst_shift *)`: nothing is written unless the count evaluates. */
  method EncodeShift(ghost env: Env, i: Instruction, site: Site, r: Reading)
    returns (code: nat, written: bool, error: bool)
    requires env.Acyclic() && i.ShiftBy? && ReadAs(env, i.constant, r)
    ensures (error || Eval(env, i.constant).error) == Faulty(env, i, site)
    ensures !Faulty(env, i, site) ==> written == Writes(env, i) && (written ==> code == Encode(Meaning(env, i, site)))
  {
    hide Eval, Bitwise, Or, And;
    error := i.rn > 7;
    code, written := 0, false;
    if r.ok {
      if r.ty == Absolute {
        var opcode := match i.shift case Lsl => 0xE000 case Lsr => 0xE800 case Asr => 0xF000 case Ror => 0xF800;
        code := opcode + And(r.value, 0xF) * 0x80 + i.rn * 0x10 + i.rd;
        MaskTable(r.value);
        written := true;
      } else {
        error := true;
      }
    }
  }

  /** `visit(Inst_arith *)` with registers */
  method EncodeArithRegisters(ghost env: Env, i: Instruction, site: Site) returns (code: nat, error: bool)
    requires env.Acyclic() && i.ArithRegisters?
    ensures error == Faulty(env, i, site) && (!error ==> code == Encode(Meaning(env, i, site)))
  {
    hide Bitwise, Or;
    error := i.rn > 7;
    code := Or(i.rn * 0x10, i.rd);
    var opcode := match i.arith case Adding => 0x8000 case Subtracting => 0x8800
                                case AddingCarry => 0x9000 case SubtractingBorrow => 0x9800;
    code := Or(code, opcode);
    code := Or(code, i.rm * 0x80);
    if !error {
      OrNibble(i.rn, i.rd);
      OrOpcode(16 + ArithNumber(i.arith), i.rd + 0x10 * i.rn);
      OrFields(16 + ArithNumber(i.arith), i.rd, i.rn, i.rm);
    }
  }

  /** `visit(Inst_arith *)` with a constant: only sums and differences have one. */
  method EncodeArithImmediate(ghost env: Env, i: Instruction, site: Site, r: Reading) returns (code: nat, error: bool)
    requires env.Acyclic() && i.ArithImmediate? && ReadAs(env, i.constant, r)
    ensures (error || Eval(env, i.constant).error) == Faulty(env, i, site)
    ensures !Faulty(env, i, site) ==> code == Encode(Meaning(env, i, site))
  {
    hide Eval, Bitwise, Or, And;
    error := i.rn > 7;
    code := Or(i.rn * 0x10, i.rd);
    if i.arith == Adding {
      code := Or(code, 0xA000);
    } else if i.arith == Subtracting {
      code := Or(code, 0xA800);
    } else {
      error := true;
    }
    var constant := r.value;
    if r.ok {
      if r.ty == Absolute {
        code := Or(code, And(constant, 0xF) * 0x80);
      } else {
        error := true;
      }
    }
    if !Faulty(env, i, site) {
      var high := if i.arith == Subtracting then 21 else 20;
      OrNibble(i.rn, i.rd);
      OrOpcode(high, i.rd + 0x10 * i.rn);
      MaskTable(constant);
      OrFields(high, i.rd, i.rn, if r.ok then constant % 0x10 else 0);
    }
  }

  /** `visit(Inst_mov *)` with a constant or a label */
  method EncodeMoveImmediate(ghost env: Env, i: Instruction, site: Site, r: Reading)
    returns (code: nat, links: seq<Relocation>, error: bool)
    requires env.Acyclic() && i.MoveImmediate? && ReadAs(env, i.constant, r)
    ensures (error || Eval(env, i.constant).error) == Faulty(env, i, site) && links == Links(env, i, site)
    ensures !Faulty(env, i, site) ==> code == Encode(Meaning(env, i, site))
  {
    hide Eval, BaseSymbol, Bitwise, Or, And;
    code := Or(i.rd, if i.high then 0x7000 else 0x6000);
    OrOpcode(if i.high then 14 else 12, i.rd);
    links := [];
    error := false;
    if r.ok {
      if r.ty == Absolute {
        MaskTable(r.value);
        OrByte(if i.high then 7 else 6, r.value % 0x100, i.rd);
        code := Or(code, And(r.value, 0xFF) * 0x10);
      } else if r.ty == Label {
        links := [Relocation(site.section, site.offset, 4, 8, AbsoluteField, r.symbol, r.value)];
      }
    }
  }

  lemma OrByte(high: nat, byte: nat, low: nat)
    requires byte < 0x100 && low < 0x10
    ensures Or(0x1000 * high + low, 0x10 * byte) == 0x1000 * high + 0x10 * byte + low
  {
    hide Bitwise, Or;
    Pow2Table();
    OrMiddle(high, byte, low, 4, 8);
  }

  /** The visits that add register fields to an opcode. */
  method EncodeSummed(ghost env: Env, i: Instruction, site: Site) returns (code: nat, error: bool)
    requires env.Acyclic() && (i.RotateExtended? || i.LogicRegisters? || i.NotRegister? || i.ReturnStatus?)
    ensures error == Faulty(env, i, site) && (!error ==> code == Encode(Meaning(env, i, site)))
  {
    error := false;
    match i {
      case RotateExtended(rd, rn) =>
        error := rn > 7;
        code := 0xD800 + rn * 0x10 + rd;
      case LogicRegisters(op, rd, rn, rm) =>
        error := rn > 7;
        var opcode := match op case Conjunction => 0xC000 case Disjunction => 0xC800 case ExclusiveOr => 0xD000;
        code := opcode + rm * 0x80 + rn * 0x10 + rd;
      case NotRegister(rd, rn) =>
        code := 0xB010 + rn * 0x80 + rd;
      case ReturnStatus(rd, rn) =>
        error := rd != 15 || rn != 14;
        code := 0xB020;
    }
  }

  /** `visit(Inst_mov *)` with a register */
  method EncodeCopy(ghost env: Env, i: Instruction, site: Site) returns (code: nat, error: bool)
    requires env.Acyclic() && i.CopyRegister?
    ensures error == Faulty(env, i, site) && (!error ==> code == Encode(Meaning(env, i, site)))
  {
    hide Bitwise, Or;
    error := false;
    OrHigh(22, i.rs);
    OrNibble(0xB00 + 8 * i.rs, i.rd);
    code := Or(i.rd, Or(0xB000, i.rs * 0x80));
  }

  /** `visit(Inst_compare *)` */
  method EncodeCompare(ghost env: Env, i: Instruction, site: Site) returns (code: nat, error: bool)
    requires env.Acyclic() && i.CompareRegisters?
    ensures error == Faulty(env, i, site) && (!error ==> code == Encode(Meaning(env, i, site)))
  {
    hide Bitwise, Or;
    error := i.rn > 7;
    code := Or(i.rn * 0x10, Or(0xB800, i.rm * 0x80));
    if !error { CompareWord(i.rn, i.rm); }
  }

  lemma OrHigh(high: nat, operand: Register)
    ensures Or(0x800 * high, operand * 0x80) == 0x800 * high + 0x80 * operand
  {
    hide Bitwise, Or;
    Pow2Table();
    OrMiddle(high, operand, 0, 7, 4);
  }

  lemma CompareWord(rn: LowRegister, rm: Register)
    ensures Or(rn * 0x10, Or(0xB800, rm * 0x80)) == 0xB800 + 0x10 * rn + 0x80 * rm
  {
    hide Bitwise, Or;
    OrHigh(23, rm);
    OrMiddleRn(0x170 + rm, rn);
  }

  /** `visit(Inst_push_pop *)` */
  method EncodeStack(ghost env: Env, i: Instruction, site: Site) returns (code: nat, error: bool)
    requires env.Acyclic() && (i.PushRegister? || i.PopRegister?)
    ensures error == Faulty(env, i, site) && (!error ==> code == Encode(Meaning(env, i, site)))
    ensures code == (if i.PushRegister? then 0x2400 else 0x0400) + i.r
  {
    hide Bitwise, Or;
    error := false;
    OrNibble(if i.PushRegister? then 0x240 else 0x040, i.r);
    code := Or(if i.PushRegister? then 0x2400 else 0x0400, i.r);
  }

  /** `visit(Inst_msr *)` and `visit(Inst_mrs *)` */
  method EncodeStatus(ghost env: Env, i: Instruction, site: Site) returns (code: nat, error: bool)
    requires env.Acyclic() && (i.SetStatus? || i.GetStatus?)
    ensures error == Faulty(env, i, site) && (!error ==> code == Encode(Meaning(env, i, site)))
  {
    hide Bitwise, Or;
    error := false;
    match i {
      case SetStatus(spsr, rs) =>
        OrStatus(0x582, spsr);
        OrFields(22, 0, if spsr then 5 else 4, rs);
        code := Or(Or(0xB040, if spsr then 0x10 else 0), rs * 0x80);
      case GetStatus(rd, spsr) =>
        OrStatus(0x583, spsr);
        OrNibble(if spsr then 0xB07 else 0xB06, rd);
        code := Or(Or(0xB060, if spsr then 0x10 else 0), rd);
    }
  }

  /** What a visit leaves behind: the word if one is written, the relocations, and whether it was an error. */
  datatype Emission = Emission(code: Word, written: bool, links: seq<Relocation>, error: bool)

  /** Instructions that always write their word and leave no relocation. */
  predicate IsPlain(i: Instruction) { !i.LoadLabel? && !i.MoveImmediate? && !i.ShiftBy? }

  lemma NoLinks(env: Env, i: Instruction, site: Site)
    requires env.Acyclic() && !i.LoadLabel? && !i.MoveImmediate?
    ensures Links(env, i, site) == []
  {
  }

  lemma AlwaysWrites(env: Env, i: Instruction)
    requires env.Acyclic()
    ensures !i.ShiftBy? ==> Writes(env, i)
  {
  }

  method EncodePlain(ghost env: Env, i: Instruction, site: Site, r: Reading) returns (code: nat, error: bool)
    requires env.Acyclic() && IsPlain(i) && forall x | x in OperandsIn(i) :: ReadAs(env, x, r)
    ensures (error || OperandError(env, i)) == Faulty(env, i, site)
    ensures !Faulty(env, i, site) ==> code == Encode(Meaning(env, i, site))
  {
    hide Eval, Encode, Meaning, Faulty, ReadAs;
    match i {
      case IndexedBy(_, _, _, x) =>
        assert x in OperandsIn(i);
        code, error := EncodeIndexed(env, i, site, r);
      case IndexedByRegister(_, _, _, _) => code, error := EncodeIndexedByRegister(env, i, site);
      case BranchTo(_, x) =>
        assert x in OperandsIn(i);
        code, error := EncodeBranch(env, i, site, r);
      case ArithRegisters(_, _, _, _) => code, error := EncodeArithRegisters(env, i, site);
      case ArithImmediate(_, _, _, x) =>
        assert x in OperandsIn(i);
        code, error := EncodeArithImmediate(env, i, site, r);
      case RotateExtended(_, _) => code, error := EncodeSummed(env, i, site);
      case LogicRegisters(_, _, _, _) => code, error := EncodeSummed(env, i, site);
      case NotRegister(_, _) => code, error := EncodeSummed(env, i, site);
      case ReturnStatus(_, _) => code, error := EncodeSummed(env, i, site);
      case SetStatus(_, _) => code, error := EncodeStatus(env, i, site);
      case GetStatus(_, _) => code, error := EncodeStatus(env, i, site);
      case CopyRegister(_, _) => code, error := EncodeCopy(env, i, site);
      case CompareRegisters(_, _) => code, error := EncodeCompare(env, i, site);
      case PushRegister(_) => code, error := EncodeStack(env, i, site);
      case PopRegister(_) => code, error := EncodeStack(env, i, site);
    }
  }

  /** The visit of any instruction whose operand has been read. */
  method EncodeInstruction(ghost env: Env, i: Instruction, site: Site, r: Reading) returns (e: Emission)
    requires env.Acyclic() && forall x | x in OperandsIn(i) :: ReadAs(env, x, r)
    ensures (e.error || OperandError(env, i)) == Faulty(env, i, site) && e.links == Links(env, i, site)
    ensures !Faulty(env, i, site)
            ==> e.written == Writes(env, i) && (e.written ==> e.code == Encode(Meaning(env, i, site)))
    ensures !Faulty(env, i, site) && e.written
            ==> Spelled(env, i, site.offset, 0, ConstantOf(env, OperandOr(i)), e.code)
  {
    hide Eval, Encode, Meaning, Faulty, Links, Writes, U16, IsLabel, BaseSymbol, ReadAs, Spelled;
    var code, links, written, error := 0, [], true, false;
    AlwaysWrites(env, i);
    match i {
      case LoadLabel(_, _, x) =>
        assert x in OperandsIn(i);
        code, links, error := EncodeLoadLabel(env, i, site, r);
      case MoveImmediate(_, _, x) =>
        assert x in OperandsIn(i);
        code, links, error := EncodeMoveImmediate(env, i, site, r);
      case ShiftBy(_, _, _, x) =>
        assert x in OperandsIn(i);
        NoLinks(env, i, site);
        code, written, error := EncodeShift(env, i, site, r);
      case _ =>
        NoLinks(env, i, site);
        code, error := EncodePlain(env, i, site, r);
    }
    e := Emission(U16(code), written, links, error);
    if !Faulty(env, i, site) && written {
      SameWord(Encode(Meaning(env, i, site)));
      MeaningSpelled(env, i, site);
    }
  }

  lemma SameWord(w: Word)
    ensures U16(w) == w
  {
  }

  lemma OrMiddleRn(high: nat, rn: nat)
    requires rn < 8
    ensures Or(0x10 * rn, 0x80 * high) == 0x80 * high + 0x10 * rn
  {
    hide Bitwise, Or;
    Pow2Table();
    OrMiddle(high, rn, 0, 4, 3);
  }

  lemma OrStatus(high: nat, spsr: bool)
    ensures Or(0x20 * high, if spsr then 0x10 else 0) == 0x20 * high + if spsr then 0x10 else 0
  {
    hide Bitwise, Or;
    Pow2Table();
    assert Pow2(4 + 1) == 0x20 && Pow2(1) == 2;
    OrMiddle(high, if spsr then 1 else 0, 0, 4, 1);
  }
}
