/** When a program is refused, statement by statement; and what each kind of statement puts into the file. */
module Statements {
  import opened Bits
  import opened Machine
  import opened Expressions
  import opened ExactArithmetic
  import opened Operators
  import opened Sections
  import opened IntelHex
  import opened Assembler
  import opened WholeProgram
  import L = Layout
  import T = TwoPass
  import C = CodeGeneration
  import K = Linking
  import O = ObjectCode
  import R = Relocations
  import I = InstructionSet
  import N = Instructions
  import P = Placement
  import G = PcRelative
  import S = SectionNames
  import Stability

  /** Nothing that evaluating the operands of a statement evaluates is misused. */
  ghost predicate NothingMisused(env: Env, body: L.Body)
    requires env.Acyclic()
  {
    forall e, x | e in L.OperandsOf(body) && Reaches(env, e, x) :: !Misused(env, x)
  }

  predicate IsConstantOrUnknown(env: Env, e: Expr)
    requires env.Acyclic()
  {
    Eval(env, e).ok ==> Eval(env, e).ty == Absolute
  }

  /** The rules for registers and operands, an operand that cannot be evaluated being only warned about. */
  predicate InstructionAllowed(env: Env, i: N.Instruction, section: nat, offset: nat)
    requires env.Acyclic()
  {
    match i
    case LoadLabel(ldst, _, e) =>
      ldst == 0 && (Eval(env, e).ok ==> Located(env, e, section, Eval(env, e).Operand()))
    case IndexedBy(_, _, rn, c) => rn < 8 && IsConstantOrUnknown(env, c)
    case IndexedByRegister(_, _, rn, _) => rn < 8
    case BranchTo(_, e) =>
      Eval(env, e).ok && Eval(env, e).ty == Label
      ==> Located(env, e, section, Eval(env, e).Operand())
          && -1024 <= Eval(env, e).Operand() - (offset + 2) < 1024
    case ShiftBy(_, _, rn, c) => rn < 8 && IsConstantOrUnknown(env, c)
    case RotateExtended(_, rn) => rn < 8
    case ArithRegisters(_, _, rn, _) => rn < 8
    case ArithImmediate(op, _, rn, c) =>
      rn < 8 && (op == I.Adding || op == I.Subtracting) && IsConstantOrUnknown(env, c)
    case LogicRegisters(_, _, rn, _) => rn < 8
    case ReturnStatus(rd, rn) => rd == 15 && rn == 14
    case CompareRegisters(rn, _) => rn < 8
    case _ => true
  }

  /** A statement that the code generator accepts, in a section of that name. */
  ghost predicate Allowed(env: Env, sectionName: string, p: L.Placed)
    requires env.Acyclic()
  {
    && NothingMisused(env, p.body)
    && match p.body
       case Instr(i) => InstructionAllowed(env, i, p.section, p.offset)
       case Values(_, values) =>
         sectionName == ".bss" ==> forall x | x in values && Eval(env, x).ok :: Eval(env, x).Operand() == 0
       case Space(size, initial) => IsConstantOrUnknown(env, size) && IsConstantOrUnknown(env, initial)
       case Aligned(x) => IsConstantOrUnknown(env, x)
       case _ => true
  }

  lemma MisusedIff(env: Env, body: L.Body)
    requires env.Acyclic() && IntEnv(env) && T.IntBody(body)
    ensures NothingMisused(env, body) <==> forall e | e in L.OperandsOf(body) :: !Eval(env, e).error
  {
    hide Eval, Reaches, Misused, IntEnv, L.OperandsOf, IntLiterals;
    forall e | e in L.OperandsOf(body)
      ensures !Eval(env, e).error <==> forall x | Reaches(env, e, x) :: !Misused(env, x)
    {
      ErrorIff(env, e);
    }
  }

  lemma InstructionAllowedIff(env: Env, i: N.Instruction, site: N.Site)
    requires env.Acyclic() && IntEnv(env) && site.offset < 0x7FFF_0000
    requires forall e | e in N.OperandsIn(i) :: IntLiterals(e) && !Eval(env, e).error
    ensures !N.Faulty(env, i, site) <==> InstructionAllowed(env, i, site.section, site.offset)
  {
    hide Eval, BaseSymbol, IntEnv, IntLiterals;
    if N.OperandsIn(i) != [] {
      var e := N.OperandsIn(i)[0];
      assert e in N.OperandsIn(i);
      EvalSane(env, e);
    }
  }

  /** The symbol of an `.equ` is the one it defined, and the operand of `.space` was known in pass one. */
  predicate Defined(env: Env, p: L.Placed)
    requires env.Acyclic()
  {
    && (p.body.Equal? ==> p.body.name in env.defs && env.defs[p.body.name] == Equ(p.section, p.body.expr))
    && (p.body.Space? ==> Eval(env, p.body.size).ok)
  }

  lemma ValuesAllowed(env: Env, name: string, values: seq<Expr>)
    requires env.Acyclic() && forall e | e in values :: !Eval(env, e).error
    ensures C.SomeFaulty(env, KindOf(name), values, |values|)
            <==> name == ".bss" && exists x | x in values && Eval(env, x).ok :: Eval(env, x).Operand() != 0
  {
    hide Eval;
    KindNames(name);
    if C.SomeFaulty(env, KindOf(name), values, |values|) {
      var i :| 0 <= i < |values| && C.ItemFaulty(env, KindOf(name), values[i]);
      assert values[i] in values;
    }
    if x :| x in values && Eval(env, x).ok && Eval(env, x).Operand() != 0 {
      var i :| 0 <= i < |values| && values[i] == x;
      assert name == ".bss" ==> C.ItemFaulty(env, KindOf(name), values[i]);
    }
  }

  /** The code generator reports a statement exactly when it is not allowed. */
  lemma WrongIff(env: Env, name: string, p: L.Placed)
    requires env.Acyclic() && IntEnv(env) && T.IntBody(p.body) && Defined(env, p) && p.offset < 0x7FFF_0000
    ensures C.Wrong(env, KindOf(name), p) <==> !Allowed(env, name, p)
  {
    hide Eval, BaseSymbol, IntEnv, IntLiterals, NothingMisused, InstructionAllowed, N.Faulty, C.SomeFaulty;
    MisusedIff(env, p.body);
    match p.body {
      case Instr(i) =>
        if forall e | e in N.OperandsIn(i) :: !Eval(env, e).error {
          InstructionAllowedIff(env, i, N.Site(p.section, p.offset));
        } else {
          OperandFaults(env, i, N.Site(p.section, p.offset));
        }
      case Values(_, values) =>
        if forall e | e in values :: !Eval(env, e).error {
          ValuesAllowed(env, name, values);
        } else {
          var e :| e in values && Eval(env, e).error;
          ItemFaults(env, name, values, e);
        }
      case Space(size, initial) =>
        assert L.OperandsOf(p.body) == [size, initial];
        assert size in L.OperandsOf(p.body) && initial in L.OperandsOf(p.body);
        EvalSane(env, size);
        EvalSane(env, initial);
      case Equal(_, x) => assert x in L.OperandsOf(p.body);
      case Aligned(x) =>
        assert x in L.OperandsOf(p.body);
        EvalSane(env, x);
      case _ =>
    }
  }

  lemma OperandFaults(env: Env, i: N.Instruction, site: N.Site)
    requires env.Acyclic() && exists e | e in N.OperandsIn(i) :: Eval(env, e).error
    ensures N.Faulty(env, i, site)
  {
    hide Eval, BaseSymbol;
  }

  lemma ItemFaults(env: Env, name: string, values: seq<Expr>, e: Expr)
    requires env.Acyclic() && e in values && Eval(env, e).error
    ensures C.SomeFaulty(env, KindOf(name), values, |values|)
  {
    hide Eval;
    var i :| 0 <= i < |values| && values[i] == e;
    assert C.ItemFaulty(env, KindOf(name), values[i]);
  }

  /** The name of the section a statement is in. */
  ghost function SectionNameOf(program: L.Program, rank: map<string, nat>, j: nat): string
    requires WellFormed(program, rank) && j < |program|
  {
    var s, records := Room(program, rank, j).section, Parsed(program, rank).table.records;
    if s < |records| then records[s].name else ""
  }

  ghost predicate StatementAllowed(program: L.Program, rank: map<string, nat>, j: nat)
    requires WellFormed(program, rank) && j < |program|
  {
    Allowed(Symbols(program, rank), SectionNameOf(program, rank, j), Room(program, rank, j))
  }

  lemma SettledDefined(env: Env, s: L.Statement, p: L.Placed)
    requires env.Acyclic() && T.Settled(env, s, p)
    ensures Defined(env, p) && p.body == s.body
  {
    hide Eval;
  }

  /** What pass one leaves of a statement for the code generator. */
  lemma StatementReady(program: L.Program, rank: map<string, nat>, j: nat)
    requires WellFormed(program, rank) && !Parsed(program, rank).error && j < |program|
    ensures var env, p, a := Symbols(program, rank), Room(program, rank, j), Parsed(program, rank);
            && IntEnv(env) && T.IntBody(p.body) && Defined(env, p) && p.body == program[j].body
            && p.section < |a.table.records| && KindsFor(a)[p.section] == KindOf(SectionNameOf(program, rank, j))
  {
    hide Parsed, IntEnv, T.IntBody, L.Ranked, T.Numbered, Eval, T.Settled, Prepared, Defined;
    StatementSettled(program, rank, j);
    assert program[j] in program;
    SettledDefined(Symbols(program, rank), program[j], Room(program, rank, j));
    ParsedPrepared(program, rank);
    PreparedParts(Parsed(program, rank), Symbols(program, rank));
  }

  /** The code generator reports an error exactly when some statement is not allowed. */
  lemma RejectedIff(program: L.Program, rank: map<string, nat>)
    requires WellFormed(program, rank) && !Parsed(program, rank).error
    requires forall j | 0 <= j < |program| :: Room(program, rank, j).offset < 0x7FFF_0000
    ensures Prepared(Parsed(program, rank), Symbols(program, rank))
    ensures Rejected(Parsed(program, rank), Symbols(program, rank))
            <==> exists j | 0 <= j < |program| :: !StatementAllowed(program, rank, j)
  {
    hide WellFormed, Parsed, Prepared, C.Wrong, Allowed, SectionNameOf, KindsFor, IntEnv, T.IntBody, Defined;
    var a, env := Parsed(program, rank), Symbols(program, rank);
    ParsedPrepared(program, rank);
    PreparedParts(a, env);
    forall j | 0 <= j < |program|
      ensures C.Wrong(env, KindsFor(a)[a.placed[j].section], a.placed[j]) <==> !StatementAllowed(program, rank, j)
    {
      StatementReady(program, rank, j);
      WrongIff(env, SectionNameOf(program, rank, j), a.placed[j]);
    }
  }

  /** The address of a label operand. */
  function AddressOfLabel(env: Env, bases: seq<nat>, e: Expr): int
    requires env.Acyclic()
  {
    var name := BaseSymbol(env, e);
    var known := name in env.defs && env.defs[name].section < |bases|;
    Eval(env, e).Operand() + if known then bases[env.defs[name].section] else 0
  }

  /** The linker's rules: an address must not be greater than two to the field's width, and what `ldr rd, label` loads
      must follow it within 128 bytes of the PC. */
  predicate LinksAllowed(env: Env, bases: seq<nat>, p: L.Placed)
    requires env.Acyclic()
  {
    match p.body
    case Instr(LoadLabel(_, _, e)) => N.IsLabel(env, e) ==> 0 <= Eval(env, e).Operand() - (p.offset + 2) < 128
    case Instr(MoveImmediate(_, _, e)) => N.IsLabel(env, e) ==> AddressOfLabel(env, bases, e) <= 0x100
    case Values(grain, values) =>
      forall e | e in values && N.IsLabel(env, e) ::
        AddressOfLabel(env, bases, e) <= if grain == 1 then 0x100 else 0x1_0000
    case _ => true
  }

  /** An absolute relocation for a label operand. */
  lemma AbsoluteLinkIff(env: Env, bases: seq<nat>, e: Expr, r: R.Relocation)
    requires env.Acyclic() && IntEnv(env) && IntLiterals(e) && N.IsLabel(env, e) && K.KnownSections(env, |bases|)
    requires "" !in env.defs && r.section < |bases| && (forall b | b in bases :: b < 0x7FFF_0000)
    requires r.kind == R.AbsoluteField && r.symbol == BaseSymbol(env, e) && r.addend == Eval(env, e).Operand()
    requires r.width == 8 || r.width == 16
    ensures R.InTable(env, |bases|, r)
    ensures R.Refused(env, bases, r) <==> AddressOfLabel(env, bases, e) > if r.width == 8 then 0x100 else 0x1_0000
  {
    hide Eval, BaseSymbol, IntEnv, IntLiterals;
    Stability.LabelIsDefined(env, e);
    assert bases[env.defs[r.symbol].section] in bases;
    R.AbsoluteRefusedIff(env, bases, r);
    Pow2Table();
  }

  /** The relocations of one item. */
  lemma ItemLinkIff(env: Env, bases: seq<nat>, section: nat, offset: nat, grain: L.Grain, e: Expr)
    requires env.Acyclic() && IntEnv(env) && IntLiterals(e) && K.KnownSections(env, |bases|) && section < |bases|
    requires "" !in env.defs && forall b | b in bases :: b < 0x7FFF_0000
    ensures (forall r | r in C.ItemLinks(env, section, offset, grain, e) ::
               R.InTable(env, |bases|, r) && !R.Refused(env, bases, r))
            <==> (N.IsLabel(env, e) ==> AddressOfLabel(env, bases, e) <= if grain == 1 then 0x100 else 0x1_0000)
  {
    hide Eval, BaseSymbol, IntEnv, IntLiterals, K.KnownSections, R.Refused, R.InTable, AddressOfLabel;
    if N.IsLabel(env, e) {
      var r := R.Relocation(section, offset, 0, 8 * grain, R.AbsoluteField, BaseSymbol(env, e), Eval(env, e).Operand());
      assert C.ItemLinks(env, section, offset, grain, e) == [r];
      AbsoluteLinkIff(env, bases, e, r);
    }
  }

  lemma ItemsLinkIff(env: Env, bases: seq<nat>, p: L.Placed)
    requires env.Acyclic() && IntEnv(env) && T.IntBody(p.body) && K.KnownSections(env, |bases|) && p.section < |bases|
    requires "" !in env.defs && (forall b | b in bases :: b < 0x7FFF_0000) && p.body.Values?
    ensures (forall r | r in C.LinksOf(env, p) :: R.InTable(env, |bases|, r) && !R.Refused(env, bases, r))
            <==> LinksAllowed(env, bases, p)
  {
    hide Eval, BaseSymbol, IntEnv, IntLiterals, K.KnownSections, R.Refused, R.InTable, AddressOfLabel, C.ItemLinks;
    hide N.IsLabel;
    var grain, values := p.body.grain, p.body.values;
    forall i | 0 <= i < |values|
      ensures (forall r | r in C.ItemLinks(env, p.section, p.offset + grain * i, grain, values[i]) ::
                 R.InTable(env, |bases|, r) && !R.Refused(env, bases, r))
              <==> (N.IsLabel(env, values[i])
                    ==> AddressOfLabel(env, bases, values[i]) <= if grain == 1 then 0x100 else 0x1_0000)
    {
      assert values[i] in L.OperandsOf(p.body);
      ItemLinkIff(env, bases, p.section, p.offset + grain * i, grain, values[i]);
    }
    if LinksAllowed(env, bases, p) {
      forall r | r in C.LinksOf(env, p) ensures R.InTable(env, |bases|, r) && !R.Refused(env, bases, r) {
        var i := O.ItemOwner(env, p.section, p.offset, grain, values, |values|, r);
        assert values[i] in values;
      }
    }
    if forall r | r in C.LinksOf(env, p) :: R.InTable(env, |bases|, r) && !R.Refused(env, bases, r) {
      forall e | e in values && N.IsLabel(env, e)
        ensures AddressOfLabel(env, bases, e) <= if grain == 1 then 0x100 else 0x1_0000
      {
        var i :| 0 <= i < |values| && values[i] == e;
        O.ItemOwn(env, p.section, p.offset, grain, values, |values|, i);
      }
    }
  }

  /** The linker accepts a statement's relocations exactly when they are allowed. */
  lemma LinksAllowedIff(env: Env, bases: seq<nat>, p: L.Placed)
    requires env.Acyclic() && IntEnv(env) && T.IntBody(p.body) && K.KnownSections(env, |bases|) && p.section < |bases|
    requires "" !in env.defs && (forall b | b in bases :: b < 0x7FFF_0000) && p.offset < 0x7FFF_0000
    requires p.body.Instr? ==> InstructionAllowed(env, p.body.instruction, p.section, p.offset)
    ensures (forall r | r in C.LinksOf(env, p) :: R.InTable(env, |bases|, r) && !R.Refused(env, bases, r))
            <==> LinksAllowed(env, bases, p)
  {
    hide Eval, BaseSymbol, IntEnv, IntLiterals, K.KnownSections, R.Refused, R.InTable, C.ItemLinks, C.ItemsLinks;
    match p.body {
      case Instr(LoadLabel(ldst, rd, e)) =>
        assert e in L.OperandsOf(p.body);
        if N.IsLabel(env, e) {
          Stability.LabelIsDefined(env, e);
          G.LoadReaches(env, rd, e, N.Site(p.section, p.offset), bases);
        }
      case Instr(MoveImmediate(_, _, e)) =>
        assert e in L.OperandsOf(p.body);
        if N.IsLabel(env, e) {
          AbsoluteLinkIff(env, bases, e, R.Relocation(p.section, p.offset, 4, 8, R.AbsoluteField, BaseSymbol(env, e),
                                                      Eval(env, e).Operand()));
        }
      case Values(_, _) => ItemsLinkIff(env, bases, p);
      case _ =>
    }
  }

  /** No two sections have an address in common, nor is an empty one inside another. */
  ghost predicate SectionsApart(program: L.Program, rank: map<string, nat>, given: map<string, nat>)
    requires WellFormed(program, rank)
  {
    P.Apart(P.Spans(Code(Parsed(program, rank), Symbols(program, rank)), SectionBases(program, rank, given)))
  }

  ghost predicate LinksAccepted(program: L.Program, rank: map<string, nat>, given: map<string, nat>, j: nat)
    requires WellFormed(program, rank) && j < |program|
  {
    LinksAllowed(Symbols(program, rank), SectionBases(program, rank, given), Room(program, rank, j))
  }

  /** Offsets and addresses with which the source's `int` arithmetic does not overflow. */
  ghost predicate Ordinary(program: L.Program, rank: map<string, nat>, given: map<string, nat>)
    requires WellFormed(program, rank)
  {
    && (forall j | 0 <= j < |program| :: Room(program, rank, j).offset < 0x7FFF_0000)
    && (forall b | b in SectionBases(program, rank, given) :: b < 0x7FFF_0000)
  }

  /** A statement's relocations among the program's. */
  lemma LinkedIff(program: L.Program, rank: map<string, nat>, given: map<string, nat>)
    requires WellFormed(program, rank) && !Parsed(program, rank).error && Ordinary(program, rank, given)
    requires forall j | 0 <= j < |program| :: StatementAllowed(program, rank, j)
    ensures Prepared(Parsed(program, rank), Symbols(program, rank))
    ensures Linkable(Parsed(program, rank), Symbols(program, rank), given)
            <==> SectionsApart(program, rank, given)
                 && forall j | 0 <= j < |program| :: LinksAccepted(program, rank, given, j)
  {
    hide WellFormed, Parsed, C.LinksOf, C.AllLinks, R.InTable, R.Refused, Addresses, Code, LinksAllowed, P.Apart;
    hide Eval, L.Laid, T.RightSize, T.EqusPlaced, IntEnv, T.IntBody, K.KnownSections, InstructionAllowed;
    hide NothingMisused, SectionNameOf;
    var a, env, bases := Parsed(program, rank), Symbols(program, rank), SectionBases(program, rank, given);
    ParsedPrepared(program, rank);
    PreparedParts(a, env);
    LinksInTable(a, env);
    forall j | 0 <= j < |program|
      ensures (forall r | r in C.LinksOf(env, a.placed[j]) :: R.InTable(env, |bases|, r) && !R.Refused(env, bases, r))
              <==> LinksAccepted(program, rank, given, j)
    {
      StatementReady(program, rank, j);
      assert StatementAllowed(program, rank, j);
      LinksAllowedIff(env, bases, a.placed[j]);
    }
    if R.AnyRefused(env, bases, Links(a, env)) {
      var r :| r in Links(a, env) && R.Refused(env, bases, r);
      var j := O.LinkOwner(env, a.placed, |a.placed|, r);
      assert !LinksAccepted(program, rank, given, j);
    } else {
      forall j | 0 <= j < |program| ensures LinksAccepted(program, rank, given, j) {
        forall r | r in C.LinksOf(env, a.placed[j]) ensures R.InTable(env, |bases|, r) && !R.Refused(env, bases, r) {
          O.OwnLink(env, a.placed, |a.placed|, j, r);
        }
      }
    }
  }

  /** Pass one reports statement `j`: it defines a name again, or is a `.space` of unknown size. */
  ghost predicate FailsFirst(program: L.Program, rank: map<string, nat>, j: nat)
    requires WellFormed(program, rank) && j < |program|
  {
    L.StartLaid(rank);
    T.FailsInPassOne(L.Start(), program, rank, j)
  }

  lemma ParsedErrorIff(program: L.Program, rank: map<string, nat>)
    requires WellFormed(program, rank)
    ensures Parsed(program, rank).error <==> exists j | 0 <= j < |program| :: FailsFirst(program, rank, j)
  {
    hide L.Ready, L.PassOne, T.IntProgram, T.Numbered, T.FailsInPassOne;
    L.StartLaid(rank);
    T.PassOneErrorIff(L.Start(), program, rank, |program|);
    assert program[..|program|] == program;
    assert forall j | 0 <= j < |program| ::
             FailsFirst(program, rank, j) <==> T.FailsInPassOne(L.Start(), program, rank, j);
  }

  /** A program is assembled exactly when no statement fails in pass one, every statement is allowed, no two sections
      overlap where they are put, and every relocation is accepted. */
  lemma SucceedsIff(program: L.Program, rank: map<string, nat>, given: map<string, nat>)
    requires WellFormed(program, rank) && Ordinary(program, rank, given)
    ensures Succeeds(program, rank, given)
            <==> SectionsApart(program, rank, given)
                 && (forall j | 0 <= j < |program| :: !FailsFirst(program, rank, j))
                 && (forall j | 0 <= j < |program| :: StatementAllowed(program, rank, j))
                 && (forall j | 0 <= j < |program| :: LinksAccepted(program, rank, given, j))
  {
    hide WellFormed, Parsed, Prepared, Rejected, Linkable, StatementAllowed, LinksAccepted, SectionsApart, FailsFirst;
    ParsedErrorIff(program, rank);
    if !Parsed(program, rank).error {
      RejectedIff(program, rank);
      if forall j | 0 <= j < |program| :: StatementAllowed(program, rank, j) { LinkedIff(program, rank, given); }
    }
  }

  /** In a program that is assembled nothing that is evaluated is misused: no unknown name, no sum of 2^16 or more,
      no division by zero, no label where there may be none. */
  lemma MisuseRefused(program: L.Program, rank: map<string, nat>, given: map<string, nat>, j: nat, e: Expr, x: Expr)
    requires WellFormed(program, rank) && j < |program| && e in L.OperandsOf(program[j].body)
    requires Ordinary(program, rank, given)
    requires Reaches(Symbols(program, rank), e, x)
    ensures Misused(Symbols(program, rank), x) ==> !Succeeds(program, rank, given)
  {
    hide WellFormed, Parsed, Reaches, Misused, Succeeds, LinksAccepted, SectionsApart, Ordinary;
    hide FailsFirst;
    SucceedsIff(program, rank, given);
    if Succeeds(program, rank, given) {
      assert StatementAllowed(program, rank, j);
      SucceedsParsed(program, rank, given);
      StatementReady(program, rank, j);
      assert NothingMisused(Symbols(program, rank), program[j].body);
    }
  }

  lemma SucceedsParsed(program: L.Program, rank: map<string, nat>, given: map<string, nat>)
    requires WellFormed(program, rank) && Succeeds(program, rank, given)
    ensures !Parsed(program, rank).error
  {
  }

  /** Which section a statement is in: the one selected last before it; but everything before the first statement that
      takes room (`m`) is in the section selected there, since selecting renames a lone empty section. */
  lemma SectionSelected(program: L.Program, rank: map<string, nat>, j: nat, m: nat)
    requires WellFormed(program, rank) && j < |program| && S.FirstRoom(Parsed(program, rank).placed, 0, m)
    ensures SectionNameOf(program, rank, j) == S.FinalName(".text", program, m, j)
  {
    hide L.Ready, L.PassOne, T.IntProgram, T.Numbered;
    L.StartLaid(rank);
    S.LooseNames(L.Start(), program, rank, ".text", m);
    assert S.InNamed(Parsed(program, rank), 0 + j, S.FinalName(".text", program, m, j));
  }

  /** A statement is loaded unless its section is `.bss` or `.stack`. */
  lemma LoadedByName(program: L.Program, rank: map<string, nat>, j: nat)
    requires WellFormed(program, rank) && !Parsed(program, rank).error && j < |program|
    ensures IsLoaded(program, rank, j) <==> SectionNameOf(program, rank, j) !in {".bss", ".stack"}
  {
    hide Parsed, WellFormed;
    StatementReady(program, rank, j);
    KindNames(SectionNameOf(program, rank, j));
  }

  /** Byte `x` is one of section `k`, in its place. */
  ghost predicate OfSection(program: L.Program, rank: map<string, nat>, given: map<string, nat>, k: nat, x: LoadedByte)
    requires WellFormed(program, rank) && Succeeds(program, rank, given)
  {
    var image := ProgramImage(program, rank, given);
    && k < |image| && image[k].base <= x.address < image[k].base + |image[k].contents|
    && x.value == image[k].contents[x.address - image[k].base]
  }

  ghost function NameOfSection(program: L.Program, rank: map<string, nat>, k: nat): string
    requires WellFormed(program, rank)
  {
    if k < |Parsed(program, rank).table.records| then Parsed(program, rank).table.records[k].name else ""
  }

  lemma ImageKinds(program: L.Program, rank: map<string, nat>, given: map<string, nat>, k: nat)
    requires WellFormed(program, rank) && Succeeds(program, rank, given)
    ensures var image := ProgramImage(program, rank, given);
            k < |image| ==> image[k].kind == KindOf(NameOfSection(program, rank, k))
  {
    hide WellFormed, Parsed, Prepared, Accepted, C.Images, L.Gather, Addresses, R.ApplyAll, R.Fixes;
    ParsedPrepared(program, rank);
    PreparedParts(Parsed(program, rank), Symbols(program, rank));
  }

  /** The file of a program that fits has every byte of every section but `.bss` and `.stack`, and no other byte. */
  lemma SectionsInFile(program: L.Program, rank: map<string, nat>, given: map<string, nat>, lines: seq<Line>,
                       x: LoadedByte)
    requires Assembled(program, rank, given, lines)
    ensures x in Decode(lines)
            <==> exists k: nat :: OfSection(program, rank, given, k, x)
                                  && NameOfSection(program, rank, k) !in {".bss", ".stack"}
  {
    hide WellFormed, Parsed, Succeeds, Fitting, Decode, ProgramImage, NoRepeats, NameOfSection;
    var image := ProgramImage(program, rank, given);
    forall k: nat
      ensures k < |image| && image[k].Covers(x.address) && x.value == image[k].contents[x.address - image[k].base]
              <==> OfSection(program, rank, given, k, x) && NameOfSection(program, rank, k) !in {".bss", ".stack"}
    {
      ImageKinds(program, rank, given, k);
      KindNames(NameOfSection(program, rank, k));
    }
  }

  /** After `.align n` the next statement of the section is at a multiple of 2^n, and less than 2^n bytes were left out;
      short of the 32-bit top. */
  lemma AlignAligns(program: L.Program, rank: map<string, nat>, j: nat, n: Word)
    requires WellFormed(program, rank) && !Parsed(program, rank).error && j < |program|
    requires program[j].body == L.Aligned(Value(n)) && Room(program, rank, j).offset + Pow2(n) <= 0x1_0000_0000
    ensures var p := Room(program, rank, j); LowBits(p.offset + p.size, n) == 0 && p.size < Pow2(n)
  {
    hide Parsed, WellFormed, Pow2, LowBits, L.AlignSize;
    StatementSettled(program, rank, j);
    L.AlignSizeAligns(Room(program, rank, j).offset, n);
  }

  lemma NextIsAligned(program: L.Program, rank: map<string, nat>, j: nat, k: nat, n: Word)
    requires WellFormed(program, rank) && !Parsed(program, rank).error && j < k < |program|
    requires program[j].body == L.Aligned(Value(n)) && Room(program, rank, j).offset + Pow2(n) <= 0x1_0000_0000
    requires Room(program, rank, k).section == Room(program, rank, j).section
    requires forall i | j < i < k :: Room(program, rank, i).section != Room(program, rank, j).section
    ensures LowBits(Room(program, rank, k).offset, n) == 0
  {
    hide Parsed, WellFormed, Pow2, LowBits, Prepared, L.Fitted;
    AlignAligns(program, rank, j, n);
    ParsedPrepared(program, rank);
    PreparedParts(Parsed(program, rank), Symbols(program, rank));
    forall i | j < i < k ensures Parsed(program, rank).placed[i].section != Parsed(program, rank).placed[j].section {
      assert Room(program, rank, i).section != Room(program, rank, j).section;
    }
    L.NextInSection(Parsed(program, rank).placed, |Parsed(program, rank).table.records|, j, k);
  }

  /** Each string of `.ascii` and `.asciz` is in the file, after those before it, and for `.asciz` a zero after it. */
  lemma StringInFile(program: L.Program, rank: map<string, nat>, given: map<string, nat>, lines: seq<Line>, j: nat,
                     k: nat, u: nat)
    requires Assembled(program, rank, given, lines) && j < |program| && IsLoaded(program, rank, j)
    requires program[j].body.Text? && k < |program[j].body.strings|
    ensures var zero, strings := program[j].body.zero, program[j].body.strings;
            var start := WholeProgram.AddressOf(program, rank, given, j) + L.TextLength(zero, strings, k);
            && (u < |strings[k]| ==> LoadedByte(start + u, strings[k][u]) in Decode(lines))
            && (zero ==> LoadedByte(start + |strings[k]|, 0) in Decode(lines))
  {
    hide WellFormed, Parsed, Decode, WholeProgram.AddressOf, IsLoaded, L.TextBytes, L.TextLength, Assembled, Exact;
    var zero, strings := program[j].body.zero, program[j].body.strings;
    var t, at := L.TextBytes(zero, strings, |strings|), L.TextLength(zero, strings, k);
    L.TextAt(zero, strings, |strings|, k);
    if u < |strings[k]| {
      assert t[at + u] == t[at..at + |strings[k]|][u];
      FillInFile(program, rank, given, lines, j, at + u);
    }
    if zero { FillInFile(program, rank, given, lines, j, at + |strings[k]|); }
  }

  /** A statement whose room is reserved and not written, with a warning only. */
  predicate Unwritten(env: Env, body: L.Body)
    requires env.Acyclic()
  {
    match body
    case Instr(i) => i.ShiftBy? && !Eval(env, i.constant).ok
    case Space(_, initial) => !Eval(env, initial).ok
    case Aligned(x) => !Eval(env, x).ok
    case _ => false
  }

  /** Room that is not written holds 0x55 in the file. */
  lemma FillerInFile(program: L.Program, rank: map<string, nat>, given: map<string, nat>, lines: seq<Line>, j: nat,
                     u: nat)
    requires Assembled(program, rank, given, lines) && j < |program| && IsLoaded(program, rank, j)
    requires Unwritten(Symbols(program, rank), program[j].body) && u < Room(program, rank, j).size
    ensures LoadedByte(WholeProgram.AddressOf(program, rank, given, j) + u, 0x55) in Decode(lines)
  {
    hide WellFormed, Parsed, Decode, O.Linkage, O.Final, C.Image, Addresses, Code, Exact, Fitting, Succeeds, C.LinksOf;
    hide Eval, T.RightSize;
    var env, bases, placed, contents := Symbols(program, rank), SectionBases(program, rank, given),
                                        Parsed(program, rank).placed, Unlinked(program, rank);
    ProgramLinked(program, rank, given, lines);
    StatementSettled(program, rank, j);
    StatementAccepted(program, rank, given, j);
    UnwrittenImage(env, placed[j]);
    O.PlainByte(env, bases, placed, contents, j, u);
    var o := placed[j].offset + u;
    assert LoadedByte(bases[placed[j].section] + o, O.Final(env, bases, placed, contents)[placed[j].section][o])
           in Decode(lines);
  }

  lemma UnwrittenImage(env: Env, p: L.Placed)
    requires env.Acyclic() && Unwritten(env, p.body)
    ensures C.LinksOf(env, p) == [] && |C.Image(env, p)| == p.size
    ensures forall u | 0 <= u < p.size :: C.Image(env, p)[u] == 0x55
  {
    hide Eval, BaseSymbol;
  }

  /** The bytes of an item, low byte first. */
  lemma ItemLiteral(grain: L.Grain, v: Word)
    ensures C.ItemBytes(grain, v) == if grain == 1 then [v % 0x100] else [v % 0x100, v / 0x100]
  {
    SplitWord(v);
  }

  /** Where each section is: at the address given for its name; or else the first at zero, and any other at the first
      even address from the end of the one before it. */
  lemma SectionAddress(program: L.Program, rank: map<string, nat>, given: map<string, nat>, k: nat)
    requires WellFormed(program, rank) && k < |Parsed(program, rank).table.records|
    ensures var bases, name := SectionBases(program, rank, given), NameOfSection(program, rank, k);
            && |bases| == |Parsed(program, rank).table.records| == |Unlinked(program, rank)|
            && (name in given ==> bases[k] == given[name])
            && (name !in given && k == 0 ==> bases[k] == 0)
            && (name !in given && k > 0
                ==> var end := bases[k - 1] + |Unlinked(program, rank)[k - 1]|;
                    end + 1 < 0x1_0000_0000 ==> bases[k] == end + end % 2)
  {
    hide Parsed, WellFormed, P.Bases, C.Images, L.Gather;
    P.BaseOfSection(Code(Parsed(program, rank), Symbols(program, rank)), given, 0, k);
  }

  lemma SplitWord(v: Word)
    ensures WordBytes(v) == [v % 0x100, v / 0x100]
  {
    var s := WordBytes(v);
    assert s[0] as int + 0x100 * s[1] as int == v;
  }
}
