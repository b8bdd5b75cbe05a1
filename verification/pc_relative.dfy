/** Branches and `ldr rd, label` reach their targets wherever the section is placed. */
module PcRelative {
  import opened Bits
  import opened Machine
  import opened Expressions
  import opened Relocations
  import opened InstructionSet
  import opened Instructions

  /** A branch field as a signed count of instructions. */
  function Signed10(field: nat): int { if field < 512 then field else field - 1024 }

  /** Where a code word at `address` jumps or loads from; the PC is two past the instruction. */
  function TargetOf(c: Code, address: nat): int
    requires c.Branch? || c.LoadRelative?
  {
    address + 2 + 2 * (if c.Branch? then Signed10(c.field) else c.field)
  }

  /** A branch to a label of its own section is accepted exactly when the displacement is in
      [-1024, 1024); the word then reads back as that branch, and at every base it reaches the label. */
  lemma BranchReaches(env: Env, m: Mnemonic, e: Expr, site: Site, base: nat)
    requires env.Acyclic() && site.offset < 0x7FFF_0000 && IsLabel(env, e) && !Eval(env, e).error
    requires SameSectionLabel(env, e, site.section)
    ensures var d := Eval(env, e).Operand() - site.offset - 2;
            var i := BranchTo(m, e);
            && (Faulty(env, i, site) <==> !(-1024 <= d < 1024))
            && (!Faulty(env, i, site) ==>
                  var read := Decode(Encode(Meaning(env, i, site)));
                  && read == Some(Branch(ConditionOf(m), d / 2 % 1024))
                  && (d % 2 == 0 ==> TargetOf(read.value, base + site.offset) == base + Eval(env, e).Operand()))
  {
    hide Eval, BaseSymbol, Encode, Decode;
    var i := BranchTo(m, e);
    assert Displacement(env, e, site.offset) == Eval(env, e).Operand() - site.offset - 2;
    if !Faulty(env, i, site) {
      DecodeEncode(Meaning(env, i, site));
    }
  }

  /** The relocation of `ldr rd, label` is accepted exactly when the label is 0 to 127 bytes past the
      PC; reading the field then gives the label's address, at every base. */
  lemma LoadReaches(env: Env, rd: Register, e: Expr, site: Site, bases: seq<nat>)
    requires env.Acyclic() && site.offset < 0x7FFF_0000 && IsLabel(env, e)
    requires SameSectionLabel(env, e, site.section) && site.section < |bases|
    requires BaseSymbol(env, e) != "" && BaseSymbol(env, e) in env.defs
    ensures Links(env, LoadLabel(0, rd, e), site) != []
    ensures var r := Links(env, LoadLabel(0, rd, e), site)[0];
            var d := Eval(env, e).Operand() - site.offset - 2;
            && InTable(env, |bases|, r) && Resolved(env, r)
            && (Refused(env, bases, r) <==> !(0 <= d < 128))
            && FixOf(env, bases, r) == Fix(site.section, site.offset, 4, 6, d / 2)
            && (0 <= d < 128 && d % 2 == 0 ==>
                  TargetOf(LoadRelative(rd, d / 2), bases[site.section] + site.offset)
                  == bases[site.section] + Eval(env, e).Operand())
  {
    hide Eval, BaseSymbol;
    var r := Links(env, LoadLabel(0, rd, e), site)[0];
    var d: int := Eval(env, e).Operand() - site.offset - 2;
    SubtractBase(bases[site.section], r.addend, site.offset);
    assert TargetValue(env, bases, r) == d;
    assert Pow2(7) == 128 by { Pow2Table(); }
  }

  /** Adding a section's base and taking it away again, in 32 bits. */
  lemma SubtractBase(base: nat, addend: int, offset: nat)
    requires -2 <= addend < 0x1_0000 && offset < 0x7FFF_0000
    ensures I32(I32(base + addend) - (base + offset)) == addend - offset
  {
  }
}
