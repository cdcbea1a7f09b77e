/**
 * IR argument vocabulary: value types, immediates, SSA value references,
 * uniform-buffer slots, locals, condition codes, flag sets, operand
 * operators, lambdas, parameter lists and the tagged argument union
 * `ArgClass`/`Arg`.
 *
 * `Arg` is the tagged union: one constructor per `ArgType` tag.  A `Value`
 * refers to its defining instruction by index into the instruction arena
 * (module IrInst); -1 is the null definition.
 */
module IrArgs {
  import opened Wrappers
  import Bits

  /** `ArgType`; the header's enum stops at Lambda, the code also tags Params. */
  datatype ArgType = Void | ValueTag | ImmTag | UniformTag | LocalTag | CondTag | FlagsTag | OperandTag | LambdaTag | ParamsTag

  datatype ValueType = VOID | BOOL | U8 | U16 | U32 | U64 | U128 | S8 | S16 | S32 | S64 | S128
                     | V8 | V16 | V32 | V64 | V128 | V256

  /** The enumerator's position, used where the source compares value types with < and >=. */
  function Ordinal(t: ValueType): nat
  {
    match t
    case VOID => 0 case BOOL => 1 case U8 => 2 case U16 => 3 case U32 => 4 case U64 => 5
    case U128 => 6 case S8 => 7 case S16 => 8 case S32 => 9 case S64 => 10 case S128 => 11
    case V8 => 12 case V16 => 13 case V32 => 14 case V64 => 15 case V128 => 16 case V256 => 17
  }

  /** Distinct enumerators have distinct positions, so ordinal comparisons are comparisons of types. */
  lemma OrdinalInjective(a: ValueType, b: ValueType)
    ensures Ordinal(a) == Ordinal(b) <==> a == b
  {
  }

  // ---------------------------------------------------------------- Cond

  /** Condition codes in enum order; HS and LO are aliases of CS and CC. */
  datatype Cond = EQ | NE | CS | CC | MI | PL | VS | VC | HI | LS | GE | LT | GT | LE | AL | NV

  const HS: Cond := CS
  const LO: Cond := CC

  function CondValue(c: Cond): (r: nat)
    ensures r < 16
  {
    match c
    case EQ => 0 case NE => 1 case CS => 2 case CC => 3 case MI => 4 case PL => 5 case VS => 6 case VC => 7
    case HI => 8 case LS => 9 case GE => 10 case LT => 11 case GT => 12 case LE => 13 case AL => 14 case NV => 15
  }

  /** The encoding is one-to-one on the sixteen conditions; the aliases share their targets' values. */
  lemma CondValueInjective(a: Cond, b: Cond)
    ensures CondValue(a) == CondValue(b) <==> a == b
    ensures CondValue(HS) == 2 && CondValue(LO) == 3
  {
  }

  // ---------------------------------------------------------------- Imm

  const Two8: nat := 0x100
  const Two16: nat := 0x1_0000
  const Two32: nat := 0x1_0000_0000
  const Two64: nat := 0x1_0000_0000_0000_0000
  const Half64: int := 0x8000_0000_0000_0000

  /**
   * An immediate: its type tag and the raw bits of the packed union.  The
   * union members are read from its low bytes, so a narrower member reads
   * the raw bits modulo its width.
   */
  datatype Imm = Imm(ty: ValueType, raw: nat)

  /** The union member width that `Get` reads for an unsigned tag, 0 for every other tag. */
  function UnsignedRange(t: ValueType): nat
  {
    match t
    case U8 => Two8 case U16 => Two16 case U32 => Two32 case U64 => Two64
    case _ => 0
  }

  /** The union member width that `GetSigned` reads for a signed tag, 0 for every other tag. */
  function SignedRange(t: ValueType): nat
  {
    match t
    case S8 => Two8 case S16 => Two16 case S32 => Two32 case S64 => Two64
    case _ => 0
  }

  /** Two's-complement reading of `x < range` (range a power of two). */
  function Signed(x: nat, range: nat): int
  {
    if 2 * x >= range then x - range else x
  }

  /** `Imm::Get`: the stored unsigned value for U8..U64, and 0 for any other tag, BOOL included. */
  function Get(i: Imm): (r: nat)
    ensures r < Two64
  {
    if UnsignedRange(i.ty) == 0 then 0 else i.raw % UnsignedRange(i.ty)
  }

  /** `Imm::IsSigned`: the tag lies in S8..S64. */
  predicate IsSigned(i: Imm)
  {
    Ordinal(S8) <= Ordinal(i.ty) <= Ordinal(S64)
  }

  /** `Imm::GetSigned`: `static_cast<s64>(Get())` for unsigned tags, else the signed member. */
  function GetSigned(i: Imm): (r: int)
    ensures -Half64 <= r < Half64
  {
    if !IsSigned(i) then Signed(Get(i), Two64)
    else Signed(i.raw % SignedRange(i.ty), SignedRange(i.ty))
  }

  /** `Imm::IsNegate`. */
  predicate IsNegate(i: Imm)
  {
    if IsSigned(i) then GetSigned(i) < 0 else false
  }

  /** The five constructors tag their own type and `Get` reads back what they stored. */
  function ImmBool(b: bool): (r: Imm)
    ensures r.ty == BOOL && Get(r) == 0 && !IsSigned(r)
  {
    Imm(BOOL, if b then 1 else 0)
  }

  function ImmU8(v: nat): (r: Imm)
    requires v < Two8
    ensures r.ty == U8 && Get(r) == v && GetSigned(r) == v
  {
    Imm(U8, v)
  }

  function ImmU16(v: nat): (r: Imm)
    requires v < Two16
    ensures r.ty == U16 && Get(r) == v && GetSigned(r) == v
  {
    Imm(U16, v)
  }

  function ImmU32(v: nat): (r: Imm)
    requires v < Two32
    ensures r.ty == U32 && Get(r) == v && GetSigned(r) == v
  {
    Imm(U32, v)
  }

  function ImmU64(v: nat): (r: Imm)
    requires v < Two64
    ensures r.ty == U64 && Get(r) == v
    ensures GetSigned(r) == if v < Half64 then v else v - Two64
  {
    Imm(U64, v)
  }

  /** Only the four signed tags read as signed, and the unsigned ones never read negative below 64 bits. */
  lemma SignedTags(i: Imm)
    ensures IsSigned(i) <==> i.ty in {S8, S16, S32, S64}
    ensures i.ty in {U8, U16, U32} ==> GetSigned(i) == Get(i) >= 0
    ensures UnsignedRange(i.ty) == 0 ==> Get(i) == 0
  {
    if i.ty in {U8, U16, U32} {
      assert Get(i) < Two32;
    }
  }

  /** IsNegate holds exactly for a signed tag whose member has its top bit set. */
  lemma IsNegateIffTopBit(i: Imm)
    ensures IsNegate(i) <==> IsSigned(i) && 2 * (i.raw % SignedRange(i.ty)) >= SignedRange(i.ty)
  {
  }

  // ---------------------------------------------------------------- Value, Uniform, Local

  /** A reference to the defining instruction (arena index, -1 for null) and the cast type. */
  datatype Value = Value(def: int, castType: ValueType)

  const NullValue: Value := Value(-1, VOID)

  predicate Defined(v: Value)
  {
    v.def >= 0
  }

  /** `Value::operator==` compares the definitions only. */
  predicate ValueEq(a: Value, b: Value)
  {
    a.def == b.def
  }

  /** Value equality is an equivalence that ignores the cast type. */
  lemma ValueEqIsDefEquality(a: Value, b: Value, c: Value, t: ValueType)
    ensures ValueEq(a, a)
    ensures ValueEq(a, b) ==> ValueEq(b, a)
    ensures ValueEq(a, b) && ValueEq(b, c) ==> ValueEq(a, c)
    ensures ValueEq(a, a.(castType := t))
    ensures ValueEq(a, b) && a.castType == b.castType ==> a == b
  {
  }

  datatype Uniform = Uniform(offset: nat, ty: ValueType)

  /** `Uniform::operator==` compares the offsets only. */
  predicate UniformEq(a: Uniform, b: Uniform)
  {
    a.offset == b.offset
  }

  /**
   * Uniform equality is an equivalence that forgets the type: two uniforms
   * are equal exactly when they agree once their types are made the same.
   */
  lemma UniformEqIgnoresType(a: Uniform, b: Uniform, c: Uniform, t: ValueType)
    ensures UniformEq(a, a.(ty := t))
    ensures UniformEq(a, b) ==> UniformEq(b, a)
    ensures UniformEq(a, b) && UniformEq(b, c) ==> UniformEq(a, c)
    ensures UniformEq(a, b) <==> a.(ty := t) == b.(ty := t)
  {
  }

  datatype Local = Local(id: nat, ty: ValueType)

  // ---------------------------------------------------------------- Flags

  const Carry: nat := 1
  const Overflow: nat := 2
  const Zero: nat := 4
  const Negate: nat := 8
  const Parity: nat := 16
  /** Referenced by FlagsString but absent from the header's enum; taken as the next free bit. */
  const AuxiliaryCarry: nat := 32
  const NegZero: nat := 12
  const NZCV: nat := 15
  const All: nat := 31

  /** The composite flag sets are the ORs of their parts. */
  lemma FlagComposites()
    ensures NegZero == Bits.Or(Zero, Negate)
    ensures NZCV == Bits.Or(Bits.Or(Bits.Or(Carry, Overflow), Zero), Negate)
    ensures All == Bits.Or(NZCV, Parity)
  {
    Bits.OrDisjoint(4, 8);
    assert Bits.Or(1, 2) == 3 by { Bits.OrDisjoint(1, 2); }
    assert Bits.Or(3, 4) == 7 by { Bits.OrDisjoint(3, 4); }
    assert Bits.Or(7, 8) == 15 by { Bits.OrDisjoint(7, 8); }
    assert Bits.Or(15, 16) == 31 by { Bits.OrDisjoint(15, 16); }
  }

  /** `True(flags & bit)`. */
  predicate HasFlag(flags: nat, bit: nat)
  {
    Bits.And(flags, bit) != 0
  }

  /** The six flags FlagsString names, in the order it names them. */
  const FlagOrder: seq<(nat, string)> :=
    [(Carry, "CF"), (Overflow, "OF"), (Zero, "ZF"), (Negate, "SF"), (AuxiliaryCarry, "AF"), (Parity, "PF")]

  /** The string before trimming: "XF, " for each set flag of `order`. */
  function Untrimmed(flags: nat, order: seq<(nat, string)>): string
  {
    if order == [] then ""
    else (if HasFlag(flags, order[0].0) then order[0].1 + ", " else "") + Untrimmed(flags, order[1..])
  }

  /** `result.substr(0, result.find_last_not_of(", ") + 1)`: trailing commas and spaces removed. */
  function TrimSeparators(s: string): (r: string)
    ensures |r| <= |s| && r == s[..|r|]
    ensures r == [] || (r[|r| - 1] != ',' && r[|r| - 1] != ' ')
  {
    if s == [] then []
    else if s[|s| - 1] == ',' || s[|s| - 1] == ' ' then TrimSeparators(s[..|s| - 1])
    else s
  }

  /** `FlagsString`. */
  function FlagsString(flags: nat): string
  {
    TrimSeparators(Untrimmed(flags, FlagOrder))
  }

  /** The names of the set flags, in order. */
  function SetNames(flags: nat, order: seq<(nat, string)>): seq<string>
  {
    if order == [] then []
    else (if HasFlag(flags, order[0].0) then [order[0].1] else []) + SetNames(flags, order[1..])
  }

  /** Names joined with ", ", no separator after the last one. */
  function Join(names: seq<string>): string
  {
    if names == [] then ""
    else if |names| == 1 then names[0]
    else names[0] + ", " + Join(names[1..])
  }

  predicate NamesEndInLetter(order: seq<(nat, string)>)
  {
    forall k :: 0 <= k < |order| ==> |order[k].1| > 0 && order[k].1[|order[k].1| - 1] == 'F'
  }

  /** The untrimmed string is each set name followed by ", ". */
  lemma {:induction false} UntrimmedIsJoinPlusSeparator(flags: nat, order: seq<(nat, string)>)
    requires NamesEndInLetter(order)
    ensures SetNames(flags, order) == [] ==> Untrimmed(flags, order) == ""
    ensures SetNames(flags, order) != [] ==> Untrimmed(flags, order) == Join(SetNames(flags, order)) + ", "
  {
    if order != [] {
      UntrimmedIsJoinPlusSeparator(flags, order[1..]);
      var name, rest := order[0].1, SetNames(flags, order[1..]);
      var tail := Untrimmed(flags, order[1..]);
      if HasFlag(flags, order[0].0) {
        assert SetNames(flags, order) == [name] + rest;
        assert Untrimmed(flags, order) == name + ", " + tail;
        if rest == [] {
          assert Join([name] + rest) == name;
        } else {
          assert ([name] + rest)[1..] == rest;
          assert Join([name] + rest) == name + ", " + Join(rest);
          assert tail == Join(rest) + ", ";
        }
      } else {
        assert SetNames(flags, order) == rest;
        assert Untrimmed(flags, order) == tail;
      }
    }
  }

  /** Trimming a name that ends in a letter, followed by ", ", gives back the name. */
  lemma TrimJoin(s: string)
    requires |s| > 0 && s[|s| - 1] == 'F'
    ensures TrimSeparators(s + ", ") == s
  {
    var t := s + ", ";
    assert t[|t| - 1] == ' ' && t[..|t| - 1] == s + ",";
    assert TrimSeparators(t) == TrimSeparators(s + ",");
    var u := s + ",";
    assert u[|u| - 1] == ',' && u[..|u| - 1] == s;
    assert TrimSeparators(u) == TrimSeparators(s);
  }

  lemma {:induction false} JoinEndsInLetter(names: seq<string>)
    requires names != []
    requires forall k :: 0 <= k < |names| ==> |names[k]| > 0 && names[k][|names[k]| - 1] == 'F'
    ensures |Join(names)| > 0 && Join(names)[|Join(names)| - 1] == 'F'
  {
    if |names| > 1 {
      JoinEndsInLetter(names[1..]);
    }
  }

  lemma {:induction false} SetNamesFromOrder(flags: nat, order: seq<(nat, string)>)
    requires NamesEndInLetter(order)
    ensures forall k :: 0 <= k < |SetNames(flags, order)| ==>
      |SetNames(flags, order)[k]| > 0 && SetNames(flags, order)[k][|SetNames(flags, order)[k]| - 1] == 'F'
  {
    if order != [] {
      SetNamesFromOrder(flags, order[1..]);
    }
  }

  /**
   * FlagsString lists the set flags as CF, OF, ZF, SF, AF, PF in that
   * order, joined by ", " with no trailing separator, and is empty when
   * none of the six is set.
   */
  lemma FlagsStringIsJoin(flags: nat)
    ensures FlagsString(flags) == Join(SetNames(flags, FlagOrder))
    ensures FlagsString(flags) == "" <==> SetNames(flags, FlagOrder) == []
  {
    assert NamesEndInLetter(FlagOrder);
    UntrimmedIsJoinPlusSeparator(flags, FlagOrder);
    var names := SetNames(flags, FlagOrder);
    if names != [] {
      SetNamesFromOrder(flags, FlagOrder);
      JoinEndsInLetter(names);
      TrimJoin(Join(names));
    }
  }

  // ---------------------------------------------------------------- Operand operators

  datatype OperandKind = Plus | Minus | LSL | LSR | EXT

  /** `OperandOp`; the default is Plus with no shift or extension. */
  datatype OperandOp = OperandOp(kind: OperandKind, shiftExt: nat)

  const DefaultOperandOp: OperandOp := OperandOp(Plus, 0)

  // ---------------------------------------------------------------- DataClass, Lambda, Params

  /** `DataClass`: a tagged Value-or-Imm (the default tag is Void). */
  datatype DataClass = DVoid | DValue(value: Value) | DImm(imm: Imm)

  function DataTag(d: DataClass): ArgType
  {
    match d
    case DVoid => Void
    case DValue(_) => ValueTag
    case DImm(_) => ImmTag
  }

  /** A lambda's address: a Value or an Imm. */
  datatype Lambda = Lambda(address: DataClass)

  predicate LambdaIsValue(l: Lambda)
  {
    l.address.DValue?
  }

  // ---------------------------------------------------------------- ArgClass / Arg

  /** `ArgClass`: the tag together with the member it selects. */
  datatype Arg =
    | AVoid
    | AValue(value: Value)
    | AImm(imm: Imm)
    | AUniform(uniform: Uniform)
    | ALocal(local: Local)
    | ACond(cond: Cond)
    | AFlags(flags: nat)
    | AOperand(op: OperandOp)
    | ALambda(lambda: Lambda)
    | AParams(params: seq<DataClass>)

  /** `GetType()`: the tag each ArgClass constructor sets. */
  function Tag(a: Arg): (r: ArgType)
    ensures r == Void <==> a.AVoid?
    ensures r == ValueTag <==> a.AValue?
    ensures r == ImmTag <==> a.AImm?
    ensures r == OperandTag <==> a.AOperand?
    ensures r == LambdaTag <==> a.ALambda?
    ensures r == ParamsTag <==> a.AParams?
  {
    match a
    case AVoid => Void
    case AValue(_) => ValueTag
    case AImm(_) => ImmTag
    case AUniform(_) => UniformTag
    case ALocal(_) => LocalTag
    case ACond(_) => CondTag
    case AFlags(_) => FlagsTag
    case AOperand(_) => OperandTag
    case ALambda(_) => LambdaTag
    case AParams(_) => ParamsTag
  }

  /** `DataClass::ToArgClass`: keeps a Value or Imm and its tag; any other tag panics (None). */
  function ToArgClass(d: DataClass): (r: Option<Arg>)
    ensures r.Some? <==> DataTag(d) in {ValueTag, ImmTag}
    ensures r.Some? ==> Tag(r.value) == DataTag(d)
  {
    match d
    case DValue(v) => Some(AValue(v))
    case DImm(i) => Some(AImm(i))
    case DVoid => None
  }

  /**
   * The frontend `Operand`: an operator and its two sides, each a tagged
   * Value-or-Imm.  The one-sided constructors leave the right side Void.
   */
  datatype Operand = Operand(op: OperandOp, left: DataClass, right: DataClass)

  /** `Operand(left)` and `Operand(left, right, op)`. */
  function OneSided(left: DataClass): (r: Operand)
    ensures r.right.DVoid? && r.op == DefaultOperandOp
  {
    Operand(DefaultOperandOp, left, DVoid)
  }

  // ---------------------------------------------------------------- Params as a linked list

  /** A `Param` node: its data and the index of the next node (-1 for none). */
  datatype ParamNode = ParamNode(data: DataClass, next: int)

  /**
   * `Params`: a singly linked list of Param nodes reached from
   * `first_param`.  Nodes are kept in a sequence in allocation order; since
   * Push only ever links a new node at the tail, list order is allocation
   * order, which Valid states.
   */
  class ParamList {
    var nodes: seq<ParamNode>
    var first: int

    ghost predicate Valid()
      reads this
    {
      && (|nodes| == 0 <==> first == -1)
      && (|nodes| > 0 ==> first == 0)
      && forall k :: 0 <= k < |nodes| ==> nodes[k].next == (if k + 1 < |nodes| then k + 1 else -1)
    }

    /** The parameters in iteration order. */
    ghost function Contents(): seq<DataClass>
      reads this
    {
      seq(|nodes|, k requires 0 <= k < |nodes| reads this => nodes[k].data)
    }

    constructor()
      ensures Valid() && Contents() == []
    {
      nodes := [];
      first := -1;
    }

    /** `Params::Push`: walk to the tail and link a fresh node after it. */
    method Push(d: DataClass)
      requires Valid()
      modifies this
      ensures Valid() && Contents() == old(Contents()) + [d]
    {
      if first != -1 {
        var at := first;
        while nodes[at].next != -1
          invariant 0 <= at < |nodes|
          decreases |nodes| - at
        {
          at := nodes[at].next;
        }
        nodes := nodes[at := nodes[at].(next := |nodes|)] + [ParamNode(d, -1)];
      } else {
        nodes := [ParamNode(d, -1)];
        first := 0;
      }
    }

    /**
     * `first_param` names a node that is no longer allocated: a walk from
     * `begin()` would read freed memory.
     */
    predicate Dangling()
      reads this
    {
      first != -1 && !(0 <= first < |nodes|)
    }

    /**
     * The walk `for (auto param : params)` from `first_param` along
     * `next_node`, as GetValues and DestroyArg do it: the parameters in
     * list order.
     */
    method Values() returns (ds: seq<DataClass>)
      requires Valid()
      ensures ds == Contents()
    {
      ds := [];
      var at := first;
      while at != -1
        invariant (at == -1 && |ds| == |nodes|) || (0 <= at < |nodes| && at == |ds|)
        invariant ds == Contents()[..|ds|]
        decreases |nodes| - |ds|
      {
        assert Contents()[..|ds| + 1] == Contents()[..|ds|] + [nodes[at].data];
        ds := ds + [nodes[at].data];
        at := nodes[at].next;
      }
    }

    /**
     * `Params::Destroy`: deletes every node in list order.  `first_param`
     * is left pointing at the freed head, so a non-empty list is left
     * dangling and no longer Valid: a later walk of it reads freed nodes.
     */
    method Destroy() returns (freed: nat)
      requires Valid()
      modifies this
      ensures freed == |old(nodes)| && nodes == [] && first == old(first)
      ensures Dangling() <==> |old(nodes)| > 0
      ensures |old(nodes)| > 0 ==> !Valid()
    {
      freed := 0;
      if first == -1 {
        return;
      }
      var at := first;
      ghost var n := |nodes|;
      while at != -1
        invariant 0 <= at < n ==> at == freed
        invariant at == -1 ==> freed == n
        invariant freed <= n
        invariant at == -1 || 0 <= at < n
        invariant nodes == old(nodes) && first == old(first)
        decreases n - freed
      {
        at := nodes[at].next;
        freed := freed + 1;
      }
      nodes := [];
    }
  }

  /** Pushing onto a list gives push order: the contents after pushes `ds` end with `ds`. */
  method PushAll(p: ParamList, ds: seq<DataClass>)
    requires p.Valid()
    modifies p
    ensures p.Valid() && p.Contents() == old(p.Contents()) + ds
  {
    var k := 0;
    while k < |ds|
      invariant 0 <= k <= |ds|
      invariant p.Valid() && p.Contents() == old(p.Contents()) + ds[..k]
    {
      p.Push(ds[k]);
      assert ds[..k + 1] == ds[..k] + [ds[k]];
      k := k + 1;
    }
    assert ds[..|ds|] == ds;
  }
}
