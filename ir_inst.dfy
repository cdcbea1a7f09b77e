/**
 * IR instructions (`Inst`).  All instructions live in one arena, a
 * sequence indexed by instruction; a `Value` names its definition by index.
 * Each instruction has four argument slots, a use count (`num_use`, a u8),
 * an id, a return type and `next_pseudo_inst`, the link of the chain of
 * pseudo operations (GetFlags, SaveFlags) hanging off a definition.
 *
 * Every operation is a function from the arena to `Option` of the new
 * arena: None where the source dereferences null, reads outside an array
 * or panics.  Class `InstPool` holds the arena and runs the operations as
 * methods, each proved equal to its function.
 */
module IrInst {
  import opened Wrappers
  import opened IrArgs

  /** The opcodes the model distinguishes; `Other` stands for the rest of the generated table. */
  datatype OpCode =
    | OpVoid | SetLocation | GetFlags | SaveFlags
    | GetHostGPR | GetHostFPR | SetHostGPR | SetHostFPR
    | BitCast | BitExtract | LoadLocal | StoreLocal | LoadUniform | StoreUniform
    | CallLambda | CallLocation | CallDynamic
    | Other(code: nat)

  /** `IRMeta`: the kind of result an opcode has and its public argument types. */
  datatype IRMeta = IRMeta(returnType: ArgType, argTypes: seq<ArgType>)

  /** `GetIRMetaInfo`, given as a table since the generated opcode list is not part of this model. */
  type MetaTable = OpCode -> IRMeta

  const MaxArgs: nat := 4
  const NoPseudo: int := -1

  datatype Inst = Inst(op: OpCode, args: seq<Arg>, numUse: nat, id: nat, retType: ValueType, nextPseudo: int)

  /** `new Inst(op)`: Void arguments, no uses, no pseudo link. */
  function NewInst(op: OpCode): (r: Inst)
    ensures |r.args| == MaxArgs && r.numUse == 0 && r.nextPseudo == NoPseudo
    ensures forall k :: 0 <= k < MaxArgs ==> r.args[k] == AVoid
  {
    Inst(op, [AVoid, AVoid, AVoid, AVoid], 0, 0, VOID, NoPseudo)
  }

  /** Every instruction has exactly `max_args` slots and a u8 use count. */
  ghost predicate WellFormed(s: seq<Inst>)
  {
    forall k :: 0 <= k < |s| ==> |s[k].args| == MaxArgs && s[k].numUse < 256
  }

  /** Two arenas that differ at most in use counts and pseudo links. */
  ghost predicate SameShape(s: seq<Inst>, t: seq<Inst>)
  {
    && |s| == |t|
    && forall k :: 0 <= k < |s| ==>
         s[k].op == t[k].op && s[k].args == t[k].args && s[k].id == t[k].id && s[k].retType == t[k].retType
  }

  predicate IsPseudoOperation(op: OpCode)
  {
    op == GetFlags || op == SaveFlags
  }

  predicate HasValue(meta: MetaTable, i: Inst)
  {
    meta(i.op).returnType == ValueTag
  }

  /** `HasSideEffects`: used, or an opcode without a result. */
  predicate HasSideEffects(meta: MetaTable, i: Inst)
  {
    i.numUse != 0 || meta(i.op).returnType == Void
  }

  predicate IsBitCastOperation(i: Inst)
  {
    i.op == BitCast
  }

  /** `IsGetHostRegOperation`: a GetHostGPR/FPR whose offset immediate (arg 1) is 0. */
  predicate IsGetHostRegOperation(i: Inst)
    requires |i.args| == MaxArgs
    requires (i.op == GetHostGPR || i.op == GetHostFPR) ==> i.args[1].AImm?
  {
    if i.op == GetHostGPR || i.op == GetHostFPR then Get(i.args[1].imm) == 0 else false
  }

  /** `IsSetHostRegOperation`: a SetHostGPR/FPR whose offset immediate (arg 2) is 0. */
  predicate IsSetHostRegOperation(i: Inst)
    requires |i.args| == MaxArgs
    requires (i.op == SetHostGPR || i.op == SetHostFPR) ==> i.args[2].AImm?
  {
    if i.op == SetHostGPR || i.op == SetHostFPR then Get(i.args[2].imm) == 0 else false
  }

  /** `Value::Type`: the cast type when set, else the definition's return type. */
  function TypeOf(s: seq<Inst>, v: Value): (r: ValueType)
    requires 0 <= v.def < |s|
    ensures v.castType != VOID ==> r == v.castType
    ensures v.castType == VOID ==> r == s[v.def].retType
  {
    if v.castType == VOID then s[v.def].retType else v.castType
  }

  // ---------------------------------------------------------------- pseudo chains

  /** The walk of `Use`: from `x`, follow links to the last instruction of the chain. */
  function TailFrom(s: seq<Inst>, x: nat, fuel: nat): (r: Option<nat>)
    requires x < |s|
    ensures r.Some? ==> r.value < |s| && s[r.value].nextPseudo == NoPseudo
    decreases fuel
  {
    var n := s[x].nextPseudo;
    if n == NoPseudo then Some(x)
    else if n < 0 || n >= |s| || fuel == 0 then None
    else TailFrom(s, n, fuel - 1)
  }

  /** The walk of `UnUse`: from `x`, follow links to the instruction whose link is `target`. */
  function PredFrom(s: seq<Inst>, x: nat, target: nat, fuel: nat): (r: Option<nat>)
    requires x < |s|
    ensures r.Some? ==> r.value < |s| && s[r.value].nextPseudo == target
    decreases fuel
  {
    var n := s[x].nextPseudo;
    if n == target then Some(x)
    else if n < 0 || n >= |s| || fuel == 0 then None
    else PredFrom(s, n, target, fuel - 1)
  }

  /** The walk of `GetUses(true)`: the number of instructions linked after `x`. */
  function CountFrom(s: seq<Inst>, x: nat, fuel: nat): Option<nat>
    requires x < |s|
    decreases fuel
  {
    var n := s[x].nextPseudo;
    if n == NoPseudo then Some(0)
    else if n < 0 || n >= |s| || fuel == 0 then None
    else match CountFrom(s, n, fuel - 1)
      case None => None
      case Some(k) => Some(k + 1)
  }

  ghost predicate Distinct(c: seq<nat>)
  {
    forall i, j :: 0 <= i < j < |c| ==> c[i] != c[j]
  }

  /**
   * `c` is the pseudo chain of `d`: `d` links to c[0], each element to the
   * next, the last one to null, with no instruction twice.
   */
  ghost predicate IsChain(s: seq<Inst>, d: nat, c: seq<nat>)
  {
    && d < |s|
    && s[d].nextPseudo == (if c == [] then NoPseudo else c[0])
    && Linked(s, c)
    && d !in c
    && Distinct(c)
  }

  function LastOf(d: nat, c: seq<nat>): nat
  {
    if c == [] then d else c[|c| - 1]
  }

  lemma ChainLink(s: seq<Inst>, d: nat, c: seq<nat>, k: nat)
    requires IsChain(s, d, c) && k < |c|
    ensures s[c[k]].nextPseudo == (if k + 1 < |c| then c[k + 1] else NoPseudo)
  {
  }

  lemma ChainRest(s: seq<Inst>, d: nat, c: seq<nat>)
    requires IsChain(s, d, c) && c != []
    ensures IsChain(s, c[0], c[1..])
  {
    var r := c[1..];
    ChainLink(s, d, c, 0);
    forall k | 0 <= k < |r|
      ensures s[r[k]].nextPseudo == (if k + 1 < |r| then r[k + 1] else NoPseudo)
    {
      assert r[k] == c[k + 1];
      ChainLink(s, d, c, k + 1);
    }
    forall j | 0 <= j < |r| ensures r[j] != c[0] {
      assert r[j] == c[j + 1];
    }
    forall a, b | 0 <= a < b < |r| ensures r[a] != r[b] {
      assert r[a] == c[a + 1] && r[b] == c[b + 1];
    }
    if r != [] {
      assert r[0] == c[1];
    }
    assert IsChain(s, c[0], r);
  }

  /** A chain is determined by the arena: two chains of the same definition are equal. */
  lemma {:induction false} ChainUnique(s: seq<Inst>, d: nat, c1: seq<nat>, c2: seq<nat>)
    requires IsChain(s, d, c1) && IsChain(s, d, c2)
    ensures c1 == c2
    decreases |c1|
  {
    if c1 != [] {
      assert c2 != [] && c1[0] == c2[0];
      ChainRest(s, d, c1);
      ChainRest(s, d, c2);
      ChainUnique(s, c1[0], c1[1..], c2[1..]);
      assert c1 == [c1[0]] + c1[1..];
      assert c2 == [c2[0]] + c2[1..];
    }
  }

  /** A distinct sequence of arena indices is no longer than the arena. */
  lemma {:induction false} DistinctBound(c: seq<nat>, n: nat)
    requires Distinct(c) && forall k :: 0 <= k < |c| ==> c[k] < n
    ensures |c| <= n
    decreases n
  {
    if c != [] {
      var m := n - 1;
      var i :| 0 <= i < |c| && (c[i] == m || forall k :: 0 <= k < |c| ==> c[k] != m);
      var rest := if c[i] == m then c[..i] + c[i + 1..] else c;
      forall k | 0 <= k < |rest| ensures rest[k] < m {
        if c[i] == m {
          if k < i { assert rest[k] == c[k]; } else { assert rest[k] == c[k + 1]; }
        }
      }
      forall a, b | 0 <= a < b < |rest| ensures rest[a] != rest[b] {
        if c[i] == m {
          var a', b' := if a < i then a else a + 1, if b < i then b else b + 1;
          assert rest[a] == c[a'] && rest[b] == c[b'];
        }
      }
      DistinctBound(rest, m);
    }
  }

  /** A chain is shorter than the arena (its definition is not on it). */
  lemma ChainShorter(s: seq<Inst>, d: nat, c: seq<nat>)
    requires IsChain(s, d, c)
    ensures |c| < |s|
  {
    var e := c + [d];
    forall a, b | 0 <= a < b < |e| ensures e[a] != e[b] {
      if b == |c| { assert e[a] == c[a]; }
    }
    DistinctBound(e, |s|);
  }

  lemma {:induction false} TailFromChain(s: seq<Inst>, d: nat, c: seq<nat>, fuel: nat)
    requires IsChain(s, d, c) && fuel >= |c|
    ensures TailFrom(s, d, fuel) == Some(LastOf(d, c))
    decreases |c|
  {
    if c != [] {
      ChainRest(s, d, c);
      TailFromChain(s, c[0], c[1..], fuel - 1);
      if |c| > 1 { assert LastOf(c[0], c[1..]) == c[|c| - 1]; }
    }
  }

  lemma {:induction false} PredFromChain(s: seq<Inst>, d: nat, c: seq<nat>, k: nat, fuel: nat)
    requires IsChain(s, d, c) && k < |c| && fuel >= k
    ensures PredFrom(s, d, c[k], fuel) == Some(if k == 0 then d else c[k - 1])
    decreases k
  {
    if k > 0 {
      assert s[d].nextPseudo == c[0] != c[k];
      ChainRest(s, d, c);
      PredFromChain(s, c[0], c[1..], k - 1, fuel - 1);
    }
  }

  lemma {:induction false} CountFromChain(s: seq<Inst>, d: nat, c: seq<nat>, fuel: nat)
    requires IsChain(s, d, c) && fuel >= |c|
    ensures CountFrom(s, d, fuel) == Some(|c|)
    decreases |c|
  {
    if c != [] {
      ChainRest(s, d, c);
      CountFromChain(s, c[0], c[1..], fuel - 1);
    }
  }

  // ---------------------------------------------------------------- Use / UnUse / GetUses

  /**
   * `Inst::Use(value)` run by instruction `user`: the definition's use
   * count goes up by one (u8), and a pseudo operation links itself at the
   * end of the definition's chain.
   */
  function UseSpec(s: seq<Inst>, user: nat, v: Value): (r: Option<seq<Inst>>)
    requires user < |s|
    ensures r.Some? ==> SameShape(s, r.value)
  {
    if !(0 <= v.def < |s|) then None
    else
      var d := v.def;
      var s1 := s[d := s[d].(numUse := (s[d].numUse + 1) % 256)];
      if !IsPseudoOperation(s[user].op) then Some(s1)
      else match TailFrom(s1, d, |s1|)
        case None => None
        case Some(t) => Some(s1[t := s1[t].(nextPseudo := user)])
  }

  /**
   * `Inst::UnUse(value)` run by `user`: the use count goes down by one
   * (u8), and a pseudo operation unlinks itself from the chain.
   */
  function UnUseSpec(s: seq<Inst>, user: nat, v: Value): (r: Option<seq<Inst>>)
    requires user < |s|
    ensures r.Some? ==> SameShape(s, r.value)
  {
    if !(0 <= v.def < |s|) then None
    else
      var d := v.def;
      var s1 := s[d := s[d].(numUse := (s[d].numUse + 255) % 256)];
      if !IsPseudoOperation(s[user].op) then Some(s1)
      else match PredFrom(s1, d, user, |s1|)
        case None => None
        case Some(p) =>
          var s2 := s1[p := s1[p].(nextPseudo := s1[user].nextPseudo)];
          Some(s2[user := s2[user].(nextPseudo := NoPseudo)])
  }

  /** `GetUses(exclude_pseudo)` of instruction `x`. */
  function GetUsesSpec(s: seq<Inst>, x: nat, excludePseudo: bool): Option<nat>
    requires x < |s|
  {
    if !excludePseudo then Some(s[x].numUse)
    else match CountFrom(s, x, |s|)
      case None => None
      case Some(k) => Some((s[x].numUse - k % 256) % 256)
  }

  /** A pseudo operation that uses `d` is appended to the end of d's chain, and d gains one use. */
  lemma UseAppendsToChain(s: seq<Inst>, user: nat, v: Value, c: seq<nat>)
    requires 0 <= v.def < |s| && user < |s| && IsPseudoOperation(s[user].op)
    requires IsChain(s, v.def, c) && user != v.def && user !in c && s[user].nextPseudo == NoPseudo
    ensures UseSpec(s, user, v).Some?
    ensures IsChain(UseSpec(s, user, v).value, v.def, c + [user])
    ensures UseSpec(s, user, v).value[v.def].numUse == (s[v.def].numUse + 1) % 256
  {
    var d := v.def;
    var s1 := s[d := s[d].(numUse := (s[d].numUse + 1) % 256)];
    assert IsChain(s1, d, c);
    ChainShorter(s1, d, c);
    TailFromChain(s1, d, c, |s1|);
    var t := LastOf(d, c);
    var s2 := s1[t := s1[t].(nextPseudo := user)];
    assert UseSpec(s, user, v) == Some(s2);
    var e := c + [user];
    forall k | 0 <= k < |e|
      ensures s2[e[k]].nextPseudo == (if k + 1 < |e| then e[k + 1] else NoPseudo)
    {
      if k < |c| {
        assert e[k] == c[k];
        if k + 1 < |c| { assert c[k] != t; }
      }
    }
    forall a, b | 0 <= a < b < |e| ensures e[a] != e[b] {
      if b == |c| { assert e[a] == c[a]; }
    }
  }

  /** Use by any other instruction only raises the definition's use count. */
  lemma UseCountsOnly(s: seq<Inst>, user: nat, v: Value)
    requires 0 <= v.def < |s| && user < |s| && !IsPseudoOperation(s[user].op)
    ensures UseSpec(s, user, v) == Some(s[v.def := s[v.def].(numUse := (s[v.def].numUse + 1) % 256)])
  {
  }

  /** The two writes of UnUse: `p`, the link before `user`, skips it, and `user` is cut loose. */
  function Unlink(s: seq<Inst>, p: nat, user: nat): (r: seq<Inst>)
    requires p < |s| && user < |s|
    ensures |r| == |s|
  {
    var s2 := s[p := s[p].(nextPseudo := s[user].nextPseudo)];
    s2[user := s2[user].(nextPseudo := NoPseudo)]
  }

  /** Unlinking the k-th element of a chain leaves the chain without it. */
  lemma UnlinkChain(s: seq<Inst>, d: nat, c: seq<nat>, k: nat)
    requires IsChain(s, d, c) && k < |c|
    ensures IsChain(Unlink(s, if k == 0 then d else c[k - 1], c[k]), d, c[..k] + c[k + 1..])
    ensures Unlink(s, if k == 0 then d else c[k - 1], c[k])[c[k]].nextPseudo == NoPseudo
  {
    var p, user := if k == 0 then d else c[k - 1], c[k];
    var t := Unlink(s, p, user);
    var e := c[..k] + c[k + 1..];
    RemoveAtShape(c, k);
    UnlinkLinks(s, d, c, k);
    if k > 0 {
      assert d != p && d != user;
      assert t[d].nextPseudo == c[0] == e[0];
    } else {
      assert d == p && d != user;
      ChainLink(s, d, c, 0);
      assert t[d].nextPseudo == (if e == [] then NoPseudo else e[0]);
    }
    assert IsChain(t, d, e);
  }

  /** Removing the k-th element of a distinct sequence keeps it distinct and shifts the tail. */
  lemma RemoveAtShape(c: seq<nat>, k: nat)
    requires k < |c| && Distinct(c)
    ensures var e := c[..k] + c[k + 1..];
      && |e| == |c| - 1
      && (forall j :: 0 <= j < |e| ==> e[j] == (if j < k then c[j] else c[j + 1]))
      && Distinct(e)
      && (forall x :: x in e ==> x in c)
  {
    var e := c[..k] + c[k + 1..];
    forall j | 0 <= j < |e| ensures e[j] == (if j < k then c[j] else c[j + 1]) {
    }
    forall a, b | 0 <= a < b < |e| ensures e[a] != e[b] {
      var a', b' := if a < k then a else a + 1, if b < k then b else b + 1;
      assert e[a] == c[a'] && e[b] == c[b'] && a' < b';
    }
  }

  /** Every element of `e` points to the next one, the last one to null. */
  ghost predicate Linked(t: seq<Inst>, e: seq<nat>)
  {
    forall j :: 0 <= j < |e| ==> e[j] < |t| && t[e[j]].nextPseudo == (if j + 1 < |e| then e[j + 1] else NoPseudo)
  }

  /** After unlinking the k-th element, every remaining element points to the next remaining one. */
  lemma UnlinkLinks(s: seq<Inst>, d: nat, c: seq<nat>, k: nat)
    requires IsChain(s, d, c) && k < |c|
    ensures Linked(Unlink(s, if k == 0 then d else c[k - 1], c[k]), c[..k] + c[k + 1..])
  {
    var p, user := if k == 0 then d else c[k - 1], c[k];
    var t := Unlink(s, p, user);
    var e := c[..k] + c[k + 1..];
    RemoveAtShape(c, k);
    ChainLink(s, d, c, k);
    forall j | 0 <= j < |e|
      ensures t[e[j]].nextPseudo == (if j + 1 < |e| then e[j + 1] else NoPseudo)
    {
      if j < k {
        assert e[j] == c[j] && c[j] != user;
        if j + 1 < k {
          assert c[j] != p && e[j + 1] == c[j + 1];
          ChainLink(s, d, c, j);
        } else {
          assert c[j] == p && p != user;
          assert t[p].nextPseudo == s[user].nextPseudo;
          if j + 1 < |e| {
            assert e[j + 1] == c[k + 1];
          }
        }
      } else {
        assert e[j] == c[j + 1] && c[j + 1] != user && c[j + 1] != p;
        ChainLink(s, d, c, j + 1);
        if j + 1 < |e| {
          assert e[j + 1] == c[j + 2];
        }
      }
    }
    assert Linked(t, e);
  }

  /** A pseudo operation that un-uses `d` leaves d's chain without itself, the rest in order. */
  lemma UnUseUnlinks(s: seq<Inst>, user: nat, v: Value, c: seq<nat>, k: nat)
    requires 0 <= v.def < |s| && user < |s| && IsPseudoOperation(s[user].op)
    requires IsChain(s, v.def, c) && k < |c| && c[k] == user
    ensures UnUseSpec(s, user, v).Some?
    ensures IsChain(UnUseSpec(s, user, v).value, v.def, c[..k] + c[k + 1..])
    ensures UnUseSpec(s, user, v).value[user].nextPseudo == NoPseudo
    ensures UnUseSpec(s, user, v).value[v.def].numUse == (s[v.def].numUse + 255) % 256
  {
    var d := v.def;
    var s1 := s[d := s[d].(numUse := (s[d].numUse + 255) % 256)];
    assert IsChain(s1, d, c);
    ChainShorter(s1, d, c);
    PredFromChain(s1, d, c, k, |s1|);
    var p := if k == 0 then d else c[k - 1];
    assert UnUseSpec(s, user, v) == Some(Unlink(s1, p, user));
    UnlinkChain(s1, d, c, k);
  }

  /** The u8 use count survives one increment followed by one decrement. */
  lemma CountRoundTrip(n: nat)
    requires n < 256
    ensures ((n + 1) % 256 + 255) % 256 == n
  {
    if n == 255 { } else { assert (n + 1) % 256 == n + 1; }
  }

  /** The writes of Use and UnUse at the sequence level cancel out. */
  lemma RelinkRestores(s: seq<Inst>, d: nat, t: nat, user: nat)
    requires d < |s| && t < |s| && user < |s| && user != t && user != d
    requires s[t].nextPseudo == NoPseudo && s[user].nextPseudo == NoPseudo && s[d].numUse < 256
    ensures var s1 := s[d := s[d].(numUse := (s[d].numUse + 1) % 256)];
      var s2 := s1[t := s1[t].(nextPseudo := user)];
      Unlink(s2[d := s2[d].(numUse := (s2[d].numUse + 255) % 256)], t, user) == s
  {
    CountRoundTrip(s[d].numUse);
    var s1 := s[d := s[d].(numUse := (s[d].numUse + 1) % 256)];
    var s2 := s1[t := s1[t].(nextPseudo := user)];
    var s3 := s2[d := s2[d].(numUse := (s2[d].numUse + 255) % 256)];
    var s5 := Unlink(s3, t, user);
    forall k | 0 <= k < |s| ensures s5[k] == s[k] {
    }
    assert s5 == s;
  }

  /** Use by a pseudo operation writes the count of `d` and the link of the chain's last element. */
  lemma UseAtTail(s: seq<Inst>, user: nat, v: Value, c: seq<nat>)
    requires 0 <= v.def < |s| && user < |s| && IsPseudoOperation(s[user].op) && IsChain(s, v.def, c)
    ensures var d := v.def;
      var s1 := s[d := s[d].(numUse := (s[d].numUse + 1) % 256)];
      UseSpec(s, user, v) == Some(s1[LastOf(d, c) := s1[LastOf(d, c)].(nextPseudo := user)])
  {
    var d := v.def;
    var s1 := s[d := s[d].(numUse := (s[d].numUse + 1) % 256)];
    assert IsChain(s1, d, c);
    ChainShorter(s1, d, c);
    TailFromChain(s1, d, c, |s1|);
  }

  /** Use counts do not take part in chains. */
  lemma ChainIgnoresCount(s: seq<Inst>, d: nat, c: seq<nat>, x: nat, n: nat)
    requires IsChain(s, d, c) && x < |s|
    ensures IsChain(s[x := s[x].(numUse := n)], d, c)
  {
    var t := s[x := s[x].(numUse := n)];
    forall k | 0 <= k < |c| ensures t[c[k]].nextPseudo == s[c[k]].nextPseudo {
    }
  }

  /** UnUse by the last element of a chain writes the count of `d` and unlinks it from its predecessor. */
  lemma UnUseAtTail(s: seq<Inst>, user: nat, v: Value, c: seq<nat>)
    requires 0 <= v.def < |s| && user < |s| && IsPseudoOperation(s[user].op) && IsChain(s, v.def, c + [user])
    requires LastOf(v.def, c) < |s|
    ensures var d := v.def;
      var s3 := s[d := s[d].(numUse := (s[d].numUse + 255) % 256)];
      UnUseSpec(s, user, v) == Some(Unlink(s3, LastOf(d, c), user))
  {
    var d := v.def;
    var s3 := s[d := s[d].(numUse := (s[d].numUse + 255) % 256)];
    ChainIgnoresCount(s, d, c + [user], d, (s[d].numUse + 255) % 256);
    ChainShorter(s3, d, c + [user]);
    PredFromChain(s3, d, c + [user], |c|, |s3|);
    assert (c + [user])[|c|] == user;
    assert |c| > 0 ==> (c + [user])[|c| - 1] == LastOf(d, c);
  }

  /** Round trip for a pseudo operation: it is appended to the chain and unlinked again. */
  lemma UseUnUsePseudo(s: seq<Inst>, user: nat, v: Value, c: seq<nat>)
    requires 0 <= v.def < |s| && user < |s| && s[v.def].numUse < 256 && IsPseudoOperation(s[user].op)
    requires IsChain(s, v.def, c) && user != v.def && user !in c && s[user].nextPseudo == NoPseudo
    ensures UseSpec(s, user, v).Some?
    ensures UnUseSpec(UseSpec(s, user, v).value, user, v) == Some(s)
  {
    UseAppendsToChain(s, user, v, c);
    UseAtTail(s, user, v, c);
    var s2 := UseSpec(s, user, v).value;
    assert s2[user].op == s[user].op;
    UnUseAtTail(s2, user, v, c);
    RelinkRestores(s, v.def, LastOf(v.def, c), user);
  }

  /** Use followed by UnUse of the same value by the same instruction restores the arena. */
  lemma UseUnUseRoundTrip(s: seq<Inst>, user: nat, v: Value, c: seq<nat>)
    requires 0 <= v.def < |s| && user < |s| && s[v.def].numUse < 256
    requires IsPseudoOperation(s[user].op) ==>
      IsChain(s, v.def, c) && user != v.def && user !in c && s[user].nextPseudo == NoPseudo
    ensures UseSpec(s, user, v).Some?
    ensures UnUseSpec(UseSpec(s, user, v).value, user, v) == Some(s)
  {
    if IsPseudoOperation(s[user].op) {
      UseUnUsePseudo(s, user, v, c);
    } else {
      var d := v.def;
      CountRoundTrip(s[d].numUse);
      var s1 := s[d := s[d].(numUse := (s[d].numUse + 1) % 256)];
      assert UseSpec(s, user, v) == Some(s1);
      assert s1[user].op == s[user].op;
      assert s1[d := s1[d].(numUse := (s1[d].numUse + 255) % 256)] == s;
    }
  }

  /** GetUses(true) is the use count less the length of the chain (u8 arithmetic). */
  lemma GetUsesExcludesChain(s: seq<Inst>, x: nat, c: seq<nat>)
    requires IsChain(s, x, c)
    ensures GetUsesSpec(s, x, false) == Some(s[x].numUse)
    ensures GetUsesSpec(s, x, true) == Some((s[x].numUse - |c| % 256) % 256)
  {
    ChainShorter(s, x, c);
    CountFromChain(s, x, c, |s|);
  }

  // ---------------------------------------------------------------- values held by arguments

  /** The Value entries of a parameter list, in push order. */
  function ParamValues(ps: seq<DataClass>): (r: seq<Value>)
    ensures |r| <= |ps|
  {
    if ps == [] then []
    else (if ps[0].DValue? then [ps[0].value] else []) + ParamValues(ps[1..])
  }

  /**
   * The values an argument uses (and `GetValues` collects): a Value, the
   * Value address of a Lambda, or the Value parameters.
   */
  function ArgValues(a: Arg): seq<Value>
  {
    match a
    case AValue(v) => [v]
    case ALambda(l) => if LambdaIsValue(l) then [l.address.value] else []
    case AParams(ps) => ParamValues(ps)
    case _ => []
  }

  ghost predicate AllDefined(s: seq<Inst>, vs: seq<Value>)
  {
    forall k :: 0 <= k < |vs| ==> 0 <= vs[k].def < |s|
  }

  /** How many of `vs` are defined by instruction `x`. */
  function UsesOf(vs: seq<Value>, x: nat): nat
  {
    if vs == [] then 0 else (if vs[0].def == x then 1 else 0) + UsesOf(vs[1..], x)
  }

  /** `Use` of each value in turn; a failure stops the sequence. */
  function UseAll(s: seq<Inst>, user: nat, vs: seq<Value>): (r: Option<seq<Inst>>)
    requires user < |s|
    ensures r.Some? ==> SameShape(s, r.value) && AllDefined(s, vs)
    decreases |vs|
  {
    if vs == [] then Some(s)
    else
      var s1 :- UseSpec(s, user, vs[0]);
      UseAll(s1, user, vs[1..])
  }

  /** `UnUse` of each value in turn; a failure stops the sequence. */
  function UnUseAll(s: seq<Inst>, user: nat, vs: seq<Value>): (r: Option<seq<Inst>>)
    requires user < |s|
    ensures r.Some? ==> SameShape(s, r.value) && AllDefined(s, vs)
    decreases |vs|
  {
    if vs == [] then Some(s)
    else
      var s1 :- UnUseSpec(s, user, vs[0]);
      UnUseAll(s1, user, vs[1..])
  }

  lemma ModAddLeft(a: nat, b: nat)
    ensures (a % 256 + b) % 256 == (a + b) % 256
  {
    var q := a / 256;
    assert a == 256 * q + a % 256;
    assert a + b == 256 * q + (a % 256 + b);
  }

  lemma AllDefinedRest(s: seq<Inst>, t: seq<Inst>, vs: seq<Value>)
    requires AllDefined(s, vs) && vs != [] && |t| == |s|
    ensures AllDefined(t, vs[1..])
  {
    forall k | 0 <= k < |vs| - 1 ensures 0 <= vs[1..][k].def < |t| { assert vs[1..][k] == vs[k + 1]; }
  }

  /** Instruction `i` with k more uses (u8). */
  function Bump(i: Inst, k: nat): Inst
  {
    i.(numUse := (i.numUse + k) % 256)
  }

  /** Bumping instruction d by c and then x by u is bumping x by u, plus c when x is d. */
  lemma BumpStep(s: seq<Inst>, d: nat, x: nat, c: nat, u: nat)
    requires d < |s| && x < |s|
    ensures Bump(s[d := s[d].(numUse := (s[d].numUse + c) % 256)][x], u) == Bump(s[x], (if d == x then c else 0) + u)
  {
    if x == d {
      ModAddLeft(s[x].numUse + c, u);
    }
  }

  /** For an ordinary user, UseAll adds to instruction x the number of its uses (u8). */
  lemma {:induction false} UseAllCounts(s: seq<Inst>, user: nat, vs: seq<Value>, x: nat)
    requires user < |s| && !IsPseudoOperation(s[user].op) && AllDefined(s, vs)
    requires x < |s| && s[x].numUse < 256
    ensures UseAll(s, user, vs).Some?
    ensures UseAll(s, user, vs).value[x] == Bump(s[x], UsesOf(vs, x))
    decreases |vs|
  {
    if vs != [] {
      var d := vs[0].def;
      var s1 := s[d := s[d].(numUse := (s[d].numUse + 1) % 256)];
      assert UseSpec(s, user, vs[0]) == Some(s1);
      AllDefinedRest(s, s1, vs);
      UseAllCounts(s1, user, vs[1..], x);
      BumpStep(s, d, x, 1, UsesOf(vs[1..], x));
    } else {
      assert s[x].(numUse := s[x].numUse) == s[x];
    }
  }

  /** For an ordinary user, UnUseAll takes from instruction x the number of its uses (u8). */
  lemma {:induction false} UnUseAllCounts(s: seq<Inst>, user: nat, vs: seq<Value>, x: nat)
    requires user < |s| && !IsPseudoOperation(s[user].op) && AllDefined(s, vs)
    requires x < |s| && s[x].numUse < 256
    ensures UnUseAll(s, user, vs).Some?
    ensures UnUseAll(s, user, vs).value[x] == Bump(s[x], 255 * UsesOf(vs, x))
    decreases |vs|
  {
    if vs != [] {
      var d := vs[0].def;
      var s1 := s[d := s[d].(numUse := (s[d].numUse + 255) % 256)];
      assert UnUseSpec(s, user, vs[0]) == Some(s1);
      AllDefinedRest(s, s1, vs);
      UnUseAllCounts(s1, user, vs[1..], x);
      BumpStep(s, d, x, 255, 255 * UsesOf(vs[1..], x));
    } else {
      assert s[x].(numUse := s[x].numUse) == s[x];
    }
  }

  /** u + 255u uses cancel out in u8 arithmetic. */
  lemma CountCancel(n: nat, u: nat)
    requires n < 256
    ensures ((n + u) % 256 + 255 * u) % 256 == n
  {
    ModAddLeft(n + u, 255 * u);
    assert n + u + 255 * u == n + 256 * u;
  }

  /** Pointwise: bumping each count by u and then by 255u gives the counts back. */
  lemma CountsCancel(s: seq<Inst>, s1: seq<Inst>, s2: seq<Inst>, vs: seq<Value>)
    requires WellFormed(s) && |s1| == |s| && |s2| == |s|
    requires forall x :: 0 <= x < |s| ==> s1[x] == Bump(s[x], UsesOf(vs, x))
    requires forall x :: 0 <= x < |s| ==> s2[x] == Bump(s1[x], 255 * UsesOf(vs, x))
    ensures s2 == s
  {
    forall x | 0 <= x < |s| ensures s2[x] == s[x] {
      CountCancel(s[x].numUse, UsesOf(vs, x));
    }
  }

  /** UnUse of the values just used restores every count, for an ordinary user. */
  lemma UseAllUnUseAll(s: seq<Inst>, user: nat, vs: seq<Value>)
    requires WellFormed(s) && user < |s| && !IsPseudoOperation(s[user].op) && AllDefined(s, vs)
    ensures UseAll(s, user, vs).Some?
    ensures UnUseAll(UseAll(s, user, vs).value, user, vs) == Some(s)
  {
    UseAllCounts(s, user, vs, user);
    var s1 := UseAll(s, user, vs).value;
    forall x | 0 <= x < |s| ensures s1[x] == Bump(s[x], UsesOf(vs, x)) {
      UseAllCounts(s, user, vs, x);
    }
    assert AllDefined(s1, vs) && s1[user].op == s[user].op;
    UnUseAllCounts(s1, user, vs, user);
    var s2 := UnUseAll(s1, user, vs).value;
    forall x | 0 <= x < |s| ensures s2[x] == Bump(s1[x], 255 * UsesOf(vs, x)) {
      UnUseAllCounts(s1, user, vs, x);
    }
    CountsCancel(s, s1, s2, vs);
  }

  // ---------------------------------------------------------------- SetArg / DestroyArg

  /** `DestroyArg(idx)`: un-use every value the slot holds, then reset the slot to Void. */
  function DestroyArgSpec(s: seq<Inst>, user: nat, idx: nat): (r: Option<seq<Inst>>)
    requires user < |s| && idx < |s[user].args|
    ensures r.Some? ==> |r.value| == |s| && r.value[user].args == s[user].args[idx := AVoid]
    ensures r.Some? ==> forall x :: 0 <= x < |s| && x != user ==> r.value[x].args == s[x].args
    ensures r.Some? ==> forall x :: 0 <= x < |s| ==> r.value[x].op == s[x].op && r.value[x].retType == s[x].retType
  {
    var s1 :- UnUseAll(s, user, ArgValues(s[user].args[idx]));
    Some(s1[user := s1[user].(args := s1[user].args[idx := AVoid])])
  }

  /** `DestroyArg` followed by the plain store `arguments[idx] = a`. */
  function Overwrite(s: seq<Inst>, user: nat, idx: nat, a: Arg): (r: Option<seq<Inst>>)
    requires user < |s| && idx < |s[user].args|
    ensures r.Some? ==> |r.value| == |s| && r.value[user].args == s[user].args[idx := a]
    ensures r.Some? ==> forall x :: 0 <= x < |s| && x != user ==> r.value[x].args == s[x].args
    ensures r.Some? ==> forall x :: 0 <= x < |s| ==> r.value[x].op == s[x].op && r.value[x].retType == s[x].retType
  {
    var s1 :- DestroyArgSpec(s, user, idx);
    Some(s1[user := s1[user].(args := s1[user].args[idx := a])])
  }

  /**
   * The default return type of the SetArg overloads: a Value, Imm or
   * Uniform on a value-producing instruction without a type lends it its
   * type; a Local does so on any instruction whose opcode has a result.
   */
  function Adopt(meta: MetaTable, s: seq<Inst>, user: nat, a: Arg): Inst
    requires user < |s|
    requires a.AValue? ==> 0 <= a.value.def < |s|
  {
    var i := s[user];
    var untyped := i.retType == VOID;
    match a
    case AValue(v) => if HasValue(meta, i) && untyped then i.(retType := TypeOf(s, v)) else i
    case AImm(m) => if HasValue(meta, i) && untyped then i.(retType := m.ty) else i
    case AUniform(u) => if HasValue(meta, i) && untyped then i.(retType := u.ty) else i
    case ALocal(l) => if untyped && meta(i.op).returnType != Void then i.(retType := l.ty) else i
    case _ => i
  }

  /**
   * `SetArg(idx, a)` for every argument kind but Operand: destroy the old
   * slot, store `a`, use the values it holds, then adopt a return type.
   */
  function SetArgSpec(meta: MetaTable, s: seq<Inst>, user: nat, idx: nat, a: Arg): (r: Option<seq<Inst>>)
    requires user < |s| && idx < |s[user].args|
    ensures r.Some? ==> |r.value| == |s| && r.value[user].args == s[user].args[idx := a]
    ensures r.Some? ==> r.value[user].op == s[user].op
  {
    var s1 :- Overwrite(s, user, idx, a);
    var s2 :- UseAll(s1, user, ArgValues(a));
    assert a.AValue? ==> ArgValues(a)[0] == a.value;
    Some(s2[user := Adopt(meta, s2, user, a)])
  }

  /** SetArg writes slot `idx` of `user` and no other slot of any instruction. */
  lemma SetArgPlaces(meta: MetaTable, s: seq<Inst>, user: nat, idx: nat, a: Arg)
    requires user < |s| && idx < |s[user].args| && SetArgSpec(meta, s, user, idx, a).Some?
    ensures var r := SetArgSpec(meta, s, user, idx, a).value;
      && |r| == |s| && r[user].args == s[user].args[idx := a]
      && (forall x :: 0 <= x < |s| && x != user ==> r[x].args == s[x].args && r[x].retType == s[x].retType)
      && (forall x :: 0 <= x < |s| ==> r[x].op == s[x].op && r[x].id == s[x].id)
  {
    var s1 := Overwrite(s, user, idx, a).value;
    assert SameShape(s1, UseAll(s1, user, ArgValues(a)).value);
  }

  /**
   * The return type after SetArg: once set it never changes; an untyped
   * value-producing instruction takes the type of an Imm, Uniform or Value
   * argument, any untyped instruction with a result that of a Local.
   */
  lemma SetArgReturnType(meta: MetaTable, s: seq<Inst>, user: nat, idx: nat, a: Arg)
    requires user < |s| && idx < |s[user].args| && SetArgSpec(meta, s, user, idx, a).Some?
    ensures var t := SetArgSpec(meta, s, user, idx, a).value[user].retType;
      && (s[user].retType != VOID ==> t == s[user].retType)
      && (s[user].retType == VOID && HasValue(meta, s[user]) && a.AImm? ==> t == a.imm.ty)
      && (s[user].retType == VOID && HasValue(meta, s[user]) && a.AUniform? ==> t == a.uniform.ty)
      && (s[user].retType == VOID && meta(s[user].op).returnType != Void && a.ALocal? ==> t == a.local.ty)
      && (s[user].retType == VOID && HasValue(meta, s[user]) && a.AValue? && a.value.castType != VOID ==>
            t == a.value.castType)
      && (!(a.AValue? || a.AImm? || a.AUniform? || a.ALocal?) ==> t == s[user].retType)
      && (!HasValue(meta, s[user]) && !a.ALocal? ==> t == s[user].retType)
  {
    var s1 := Overwrite(s, user, idx, a).value;
    var s2 := UseAll(s1, user, ArgValues(a)).value;
    assert SameShape(s1, s2);
    assert s2[user].retType == s[user].retType && s2[user].op == s[user].op;
  }

  /**
   * For an ordinary user, SetArg moves the uses: each definition loses the
   * uses of the old slot and gains those of the new argument (u8).
   */
  lemma SetArgCounts(meta: MetaTable, s: seq<Inst>, user: nat, idx: nat, a: Arg, x: nat)
    requires user < |s| && idx < |s[user].args| && !IsPseudoOperation(s[user].op)
    requires AllDefined(s, ArgValues(s[user].args[idx])) && AllDefined(s, ArgValues(a))
    requires x < |s| && s[x].numUse < 256
    ensures SetArgSpec(meta, s, user, idx, a).Some?
    ensures SetArgSpec(meta, s, user, idx, a).value[x].numUse ==
      ((s[x].numUse + 255 * UsesOf(ArgValues(s[user].args[idx]), x)) % 256 + UsesOf(ArgValues(a), x)) % 256
  {
    var s1, s2 := OverwriteThenUseCounts(s, user, idx, a, x);
    SetArgSpecIs(meta, s, user, idx, a, x, s1, s2);
  }

  /** The overwrite, then the new uses: both succeed, and x gains its uses among the new values. */
  lemma OverwriteThenUseCounts(s: seq<Inst>, user: nat, idx: nat, a: Arg, x: nat) returns (s1: seq<Inst>, s2: seq<Inst>)
    requires user < |s| && idx < |s[user].args| && !IsPseudoOperation(s[user].op)
    requires AllDefined(s, ArgValues(s[user].args[idx])) && AllDefined(s, ArgValues(a))
    requires x < |s| && s[x].numUse < 256
    ensures Overwrite(s, user, idx, a) == Some(s1) && UseAll(s1, user, ArgValues(a)) == Some(s2) && x < |s2|
    ensures s2[x].numUse ==
      ((s[x].numUse + 255 * UsesOf(ArgValues(s[user].args[idx]), x)) % 256 + UsesOf(ArgValues(a), x)) % 256
  {
    OverwriteCounts(s, user, idx, a, x);
    s1 := Overwrite(s, user, idx, a).value;
    UseAllCounts(s1, user, ArgValues(a), x);
    s2 := UseAll(s1, user, ArgValues(a)).value;
  }

  /** SetArg's use counts, when both the overwrite and the new uses succeed, are those UseAll leaves. */
  lemma SetArgSpecIs(meta: MetaTable, s: seq<Inst>, user: nat, idx: nat, a: Arg, x: nat, s1: seq<Inst>, s2: seq<Inst>)
    requires user < |s| && idx < |s[user].args| && x < |s2|
    requires Overwrite(s, user, idx, a) == Some(s1) && UseAll(s1, user, ArgValues(a)) == Some(s2)
    ensures SetArgSpec(meta, s, user, idx, a).Some?
    ensures SetArgSpec(meta, s, user, idx, a).value[x].numUse == s2[x].numUse
  {
    AdoptKeepsUses(meta, s2, user, a);
  }

  /** Overwriting slot `idx` drops one use of each old value (u8). */
  lemma OverwriteCounts(s: seq<Inst>, user: nat, idx: nat, a: Arg, x: nat)
    requires user < |s| && idx < |s[user].args| && !IsPseudoOperation(s[user].op)
    requires AllDefined(s, ArgValues(s[user].args[idx])) && AllDefined(s, ArgValues(a))
    requires x < |s| && s[x].numUse < 256
    ensures Overwrite(s, user, idx, a).Some?
    ensures var s1 := Overwrite(s, user, idx, a).value;
      && s1[x].numUse == (s[x].numUse + 255 * UsesOf(ArgValues(s[user].args[idx]), x)) % 256
      && AllDefined(s1, ArgValues(a)) && s1[user].op == s[user].op && s1[x].numUse < 256
  {
    var old_ := ArgValues(s[user].args[idx]);
    UnUseAllCounts(s, user, old_, x);
    var s0 := UnUseAll(s, user, old_).value;
    OverwriteIs(s, user, idx, a);
    var s1 := s0[user := SetSlot(s0[user], idx, AVoid)][user := SetSlot(s0[user], idx, a)];
    assert s1[x].numUse == s0[x].numUse;
  }

  lemma AdoptKeepsUses(meta: MetaTable, s: seq<Inst>, user: nat, a: Arg)
    requires user < |s|
    requires a.AValue? ==> 0 <= a.value.def < |s|
    ensures Adopt(meta, s, user, a).numUse == s[user].numUse
  {
  }

  /** Overwrite is UnUseAll of the old slot's values followed by the two stores. */
  lemma OverwriteIs(s: seq<Inst>, user: nat, idx: nat, a: Arg)
    requires user < |s| && idx < |s[user].args| && UnUseAll(s, user, ArgValues(s[user].args[idx])).Some?
    ensures var s0 := UnUseAll(s, user, ArgValues(s[user].args[idx])).value;
      Overwrite(s, user, idx, a) == Some(s0[user := SetSlot(s0[user], idx, AVoid)][user := SetSlot(s0[user], idx, a)])
  {
    var s0 := UnUseAll(s, user, ArgValues(s[user].args[idx])).value;
    assert s0[user].args == s[user].args;
    assert s0[user].args[idx := AVoid][idx := a] == s0[user].args[idx := a];
  }

  function SetSlot(i: Inst, idx: nat, a: Arg): Inst
    requires idx < |i.args|
  {
    i.(args := i.args[idx := a])
  }

  function SetRet(i: Inst, t: ValueType): Inst
  {
    i.(retType := t)
  }

  /** The round trip on the user itself: slot and count come back, the return type stays adopted. */
  lemma InstRoundTrip(i: Inst, u: nat, t: ValueType, idx: nat, a: Arg)
    requires i.numUse < 256 && idx < |i.args| && i.args[idx] == AVoid
    ensures SetSlot(Bump(SetRet(Bump(SetSlot(i, idx, a), u), t), 255 * u), idx, AVoid) == SetRet(i, t)
  {
    CountCancel(i.numUse, u);
    assert i.args[idx := a][idx := AVoid] == i.args;
  }

  /** Pointwise part of the SetArg/DestroyArg round trip. */
  lemma RoundTripPointwise(s: seq<Inst>, s2: seq<Inst>, r1: seq<Inst>, user: nat, idx: nat, a: Arg, vs: seq<Value>, t: ValueType)
    requires WellFormed(s) && user < |s| && idx < |s[user].args| && s[user].args[idx] == AVoid
    requires |s2| == |s| && |r1| == |s| && idx < |r1[user].args|
    requires forall x :: 0 <= x < |s| ==> s2[x] == Bump(s[user := SetSlot(s[user], idx, a)][x], UsesOf(vs, x))
    requires forall x :: 0 <= x < |s| ==> r1[x] == Bump(s2[user := SetRet(s2[user], t)][x], 255 * UsesOf(vs, x))
    ensures r1[user := SetSlot(r1[user], idx, AVoid)] == s[user := SetRet(s[user], t)]
  {
    var r2 := r1[user := SetSlot(r1[user], idx, AVoid)];
    var goal := s[user := SetRet(s[user], t)];
    forall x | 0 <= x < |s| ensures r2[x] == goal[x] {
      if x == user {
        InstRoundTrip(s[x], UsesOf(vs, x), t, idx, a);
      } else {
        CountCancel(s[x].numUse, UsesOf(vs, x));
      }
    }
  }

  /** On an empty slot, SetArg is the store, the uses, and the adopted return type. */
  lemma SetArgOnEmptySlot(meta: MetaTable, s: seq<Inst>, user: nat, idx: nat, a: Arg)
    requires user < |s| && idx < |s[user].args| && s[user].args[idx] == AVoid
    requires UseAll(s[user := SetSlot(s[user], idx, a)], user, ArgValues(a)).Some?
    ensures SetArgSpec(meta, s, user, idx, a).Some?
    ensures var s2 := UseAll(s[user := SetSlot(s[user], idx, a)], user, ArgValues(a)).value;
      var r := SetArgSpec(meta, s, user, idx, a).value;
      r == s2[user := SetRet(s2[user], r[user].retType)]
  {
    assert ArgValues(AVoid) == [] && UnUseAll(s, user, []) == Some(s);
    assert s[user].args[idx := AVoid] == s[user].args;
    assert s[user := s[user].(args := s[user].args)] == s;
    assert DestroyArgSpec(s, user, idx) == Some(s);
  }

  /**
   * Round trip: on an empty slot of an ordinary user, SetArg then DestroyArg
   * leaves every instruction as it was, but for the return type SetArg adopted.
   */
  lemma SetArgDestroyArg(meta: MetaTable, s: seq<Inst>, user: nat, idx: nat, a: Arg)
    requires WellFormed(s) && user < |s| && idx < |s[user].args| && s[user].args[idx] == AVoid
    requires !IsPseudoOperation(s[user].op) && AllDefined(s, ArgValues(a))
    ensures SetArgSpec(meta, s, user, idx, a).Some?
    ensures var r := SetArgSpec(meta, s, user, idx, a).value;
      DestroyArgSpec(r, user, idx) == Some(s[user := SetRet(s[user], r[user].retType)])
  {
    var vs := ArgValues(a);
    var s1 := s[user := SetSlot(s[user], idx, a)];
    UseAllCounts(s1, user, vs, user);
    SetArgOnEmptySlot(meta, s, user, idx, a);
    var s2 := UseAll(s1, user, vs).value;
    forall x | 0 <= x < |s| ensures s2[x] == Bump(s1[x], UsesOf(vs, x)) {
      UseAllCounts(s1, user, vs, x);
    }
    var r := SetArgSpec(meta, s, user, idx, a).value;
    var t := r[user].retType;
    assert r[user].args[idx] == a && r[user].op == s[user].op && AllDefined(r, vs);
    UnUseAllCounts(r, user, vs, user);
    var r1 := UnUseAll(r, user, vs).value;
    forall x | 0 <= x < |s| ensures r1[x] == Bump(r[x], 255 * UsesOf(vs, x)) {
      UnUseAllCounts(r, user, vs, x);
    }
    RoundTripPointwise(s, s2, r1, user, idx, a, vs, t);
  }

  // ---------------------------------------------------------------- Operand arguments

  /** The values an Operand's sides use, left first. */
  function SideValues(o: Operand): seq<Value>
  {
    (if o.left.DValue? then [o.left.value] else []) + (if o.right.DValue? then [o.right.value] else [])
  }

  /**
   * `SetArg(idx, Operand)` as written: slot idx takes the operator, idx+1 and
   * idx+2 the sides through `ToArgClass`, which panics on a Void side, and
   * then each Value side is used.  Writing past the last slot is None.
   */
  function SetOperandAsWritten(s: seq<Inst>, user: nat, idx: nat, o: Operand): (r: Option<seq<Inst>>)
    requires user < |s| && |s[user].args| == MaxArgs
  {
    if idx + 3 > MaxArgs then None
    else
      var s1 :- Overwrite(s, user, idx, AOperand(o.op));
      var l :- ToArgClass(o.left);
      var s2 :- Overwrite(s1, user, idx + 1, l);
      var rt :- ToArgClass(o.right);
      var s3 :- Overwrite(s2, user, idx + 2, rt);
      UseAll(s3, user, SideValues(o))
  }

  /** An operand side as an argument slot, a Void side becoming a Void slot. */
  function SideArg(d: DataClass): (r: Arg)
    ensures ToArgClass(d).Some? ==> r == ToArgClass(d).value
    ensures d.DVoid? <==> r.AVoid?
  {
    match d
    case DVoid => AVoid
    case DValue(v) => AValue(v)
    case DImm(i) => AImm(i)
  }

  /** `SetArg(idx, Operand)` with Void sides stored as Void slots. */
  function SetOperand(s: seq<Inst>, user: nat, idx: nat, o: Operand): (r: Option<seq<Inst>>)
    requires user < |s| && |s[user].args| == MaxArgs
    ensures r.Some? ==> |r.value| == |s| && idx + 3 <= MaxArgs && r.value[user].op == s[user].op
    ensures r.Some? ==>
      r.value[user].args == s[user].args[idx := AOperand(o.op)][idx + 1 := SideArg(o.left)][idx + 2 := SideArg(o.right)]
  {
    if idx + 3 > MaxArgs then None
    else
      var s1 :- Overwrite(s, user, idx, AOperand(o.op));
      var s2 :- Overwrite(s1, user, idx + 1, SideArg(o.left));
      var s3 :- Overwrite(s2, user, idx + 2, SideArg(o.right));
      var s4 :- UseAll(s3, user, SideValues(o));
      assert SameShape(s3, s4);
      Some(s4)
  }

  /** A slot read back as an operand side: `arguments[i].value`. */
  function FromArg(a: Arg): DataClass
  {
    match a
    case AValue(v) => DValue(v)
    case AImm(i) => DImm(i)
    case _ => DVoid
  }

  /** `GetArg<Operand>(idx)`: slots idx, idx+1, idx+2 as operator, left and right. */
  function GetOperand(args: seq<Arg>, idx: nat): (r: Option<Operand>)
    ensures r.Some? <==> idx + 2 < |args| && args[idx].AOperand?
  {
    if idx + 2 < |args| && args[idx].AOperand? then
      Some(Operand(args[idx].op, FromArg(args[idx + 1]), FromArg(args[idx + 2])))
    else None
  }

  /** The one-sided operands the frontend builds (`Operand{imm}`) make SetArg panic as written. */
  lemma OneSidedOperandPanics(s: seq<Inst>, user: nat, idx: nat, x: DataClass)
    requires user < |s| && |s[user].args| == MaxArgs
    ensures SetOperandAsWritten(s, user, idx, OneSided(x)) == None
  {
    assert ToArgClass(OneSided(x).right) == None;
  }

  /** Whatever SetOperand stored, GetArg<Operand> reads back the same operand. */
  lemma SetOperandGetOperand(s: seq<Inst>, user: nat, idx: nat, o: Operand)
    requires user < |s| && |s[user].args| == MaxArgs && SetOperand(s, user, idx, o).Some?
    ensures GetOperand(SetOperand(s, user, idx, o).value[user].args, idx) == Some(o)
  {
    var args := SetOperand(s, user, idx, o).value[user].args;
    assert args[idx] == AOperand(o.op) && args[idx + 1] == SideArg(o.left) && args[idx + 2] == SideArg(o.right);
    assert FromArg(SideArg(o.left)) == o.left && FromArg(SideArg(o.right)) == o.right;
  }

  /** On two-sided operands the corrected SetOperand does what the original does. */
  lemma SetOperandAgrees(s: seq<Inst>, user: nat, idx: nat, o: Operand)
    requires user < |s| && |s[user].args| == MaxArgs && !o.left.DVoid? && !o.right.DVoid?
    ensures SetOperand(s, user, idx, o) == SetOperandAsWritten(s, user, idx, o)
  {
  }

  /**
   * On three empty slots of an ordinary user whose side values are defined,
   * the corrected SetOperand succeeds, also for one-sided operands.
   */
  lemma SetOperandSucceeds(s: seq<Inst>, user: nat, idx: nat, o: Operand)
    requires user < |s| && |s[user].args| == MaxArgs && idx + 3 <= MaxArgs && !IsPseudoOperation(s[user].op)
    requires s[user].args[idx] == AVoid && s[user].args[idx + 1] == AVoid && s[user].args[idx + 2] == AVoid
    requires AllDefined(s, SideValues(o))
    ensures SetOperand(s, user, idx, o).Some?
  {
    EmptyOverwrite(s, user, idx, AOperand(o.op));
    var s1 := Overwrite(s, user, idx, AOperand(o.op)).value;
    EmptyOverwrite(s1, user, idx + 1, SideArg(o.left));
    var s2 := Overwrite(s1, user, idx + 1, SideArg(o.left)).value;
    EmptyOverwrite(s2, user, idx + 2, SideArg(o.right));
    var s3 := Overwrite(s2, user, idx + 2, SideArg(o.right)).value;
    assert s3[user].op == s[user].op && |s3| == |s|;
    UseAllSucceeds(s3, user, SideValues(o));
  }

  /** Overwriting an empty slot cannot fail: there is nothing to un-use. */
  lemma EmptyOverwrite(s: seq<Inst>, user: nat, idx: nat, a: Arg)
    requires user < |s| && idx < |s[user].args| && s[user].args[idx] == AVoid
    ensures Overwrite(s, user, idx, a) == Some(s[user := SetSlot(s[user], idx, a)])
  {
    assert ArgValues(AVoid) == [] && UnUseAll(s, user, []) == Some(s);
    assert s[user].args[idx := AVoid] == s[user].args;
    assert s[user := s[user].(args := s[user].args)] == s;
  }

  /** For an ordinary user, UseAll succeeds exactly when every value is defined. */
  lemma {:induction false} UseAllSucceeds(s: seq<Inst>, user: nat, vs: seq<Value>)
    requires user < |s| && !IsPseudoOperation(s[user].op)
    ensures UseAll(s, user, vs).Some? <==> AllDefined(s, vs)
    decreases |vs|
  {
    if vs != [] && 0 <= vs[0].def < |s| {
      var d := vs[0].def;
      var s1 := s[d := s[d].(numUse := (s[d].numUse + 1) % 256)];
      assert UseSpec(s, user, vs[0]) == Some(s1);
      UseAllSucceeds(s1, user, vs[1..]);
      if AllDefined(s, vs) { AllDefinedRest(s, s1, vs); }
      if AllDefined(s1, vs[1..]) {
        forall k | 0 <= k < |vs| ensures 0 <= vs[k].def < |s| {
          if k > 0 { assert vs[k] == vs[1..][k - 1]; }
        }
      }
    }
  }

  // ---------------------------------------------------------------- SetArgs and Create

  /** One argument of `SetArgs`: a plain argument or an Operand. */
  datatype ArgInput = Plain(arg: Arg) | Op(operand: Operand)

  /** Slots an argument takes: three for an Operand, one otherwise. */
  function Width(x: ArgInput): (r: nat)
    ensures 1 <= r <= 3
  {
    if x.Op? then 3 else 1
  }

  function TotalWidth(xs: seq<ArgInput>): (r: nat)
    ensures r >= |xs|
  {
    if xs == [] then 0 else Width(xs[0]) + TotalWidth(xs[1..])
  }

  /** One SetArg call of `SetArgs`, at slot `idx`. */
  function SetOne(meta: MetaTable, s: seq<Inst>, user: nat, idx: nat, x: ArgInput): (r: Option<seq<Inst>>)
    requires user < |s| && |s[user].args| == MaxArgs
    ensures r.Some? ==> |r.value| == |s| && |r.value[user].args| == MaxArgs && idx + Width(x) <= MaxArgs
    ensures r.Some? ==> r.value[user].op == s[user].op && PlacedAt(r.value[user].args, idx, x)
    ensures r.Some? ==> forall k :: 0 <= k < MaxArgs && !(idx <= k < idx + Width(x)) ==>
      r.value[user].args[k] == s[user].args[k]
  {
    match x
    case Plain(a) => if idx < MaxArgs then SetArgSpec(meta, s, user, idx, a) else None
    case Op(o) => SetOperand(s, user, idx, o)
  }

  /**
   * `SetArgs(args...)` from slot `idx` on: each argument at the running
   * index, which advances by its width.  A write past the last slot is None.
   */
  function SetArgsFrom(meta: MetaTable, s: seq<Inst>, user: nat, xs: seq<ArgInput>, idx: nat): (r: Option<seq<Inst>>)
    requires user < |s| && |s[user].args| == MaxArgs && idx <= MaxArgs
    ensures r.Some? ==> |r.value| == |s| && |r.value[user].args| == MaxArgs && idx + TotalWidth(xs) <= MaxArgs
    ensures r.Some? ==> r.value[user].op == s[user].op
    ensures r.Some? ==> forall k :: 0 <= k < idx ==> r.value[user].args[k] == s[user].args[k]
    decreases |xs|
  {
    if xs == [] then Some(s)
    else
      var s1 :- SetOne(meta, s, user, idx, xs[0]);
      SetArgsFrom(meta, s1, user, xs[1..], idx + Width(xs[0]))
  }

  /** The compile-time check of `SetArgs` as written: it counts arguments, not slots. */
  predicate SetArgsCheckAsWritten(xs: seq<ArgInput>)
  {
    |xs| <= MaxArgs
  }

  /** The check that keeps every write inside the four slots. */
  predicate SetArgsCheck(xs: seq<ArgInput>)
  {
    TotalWidth(xs) <= MaxArgs
  }

  /** The running index of `SetArgs` at argument j. */
  function Offset(xs: seq<ArgInput>, j: nat): nat
    requires j <= |xs|
  {
    TotalWidth(xs[..j])
  }

  /** The slot an input puts first: the argument itself, or the Operand's operator. */
  function Head(x: ArgInput): Arg
  {
    match x
    case Plain(a) => a
    case Op(o) => AOperand(o.op)
  }

  /** Input x sits in `args` from slot k on. */
  predicate PlacedAt(args: seq<Arg>, k: nat, x: ArgInput)
  {
    && k + Width(x) <= |args|
    && args[k] == Head(x)
    && (x.Op? ==> args[k + 1] == SideArg(x.operand.left) && args[k + 2] == SideArg(x.operand.right))
  }

  lemma {:induction false} TotalWidthSplit(xs: seq<ArgInput>, j: nat)
    requires j < |xs|
    ensures TotalWidth(xs[..j + 1]) == TotalWidth(xs[..j]) + Width(xs[j])
    ensures TotalWidth(xs) >= TotalWidth(xs[..j + 1])
    decreases j
  {
    var t := xs[1..];
    assert TotalWidth(xs) == Width(xs[0]) + TotalWidth(t);
    if j > 0 {
      TotalWidthSplit(t, j - 1);
      assert xs[..j + 1][0] == xs[0] && xs[..j + 1][1..] == t[..j];
      assert xs[..j][0] == xs[0] && xs[..j][1..] == t[..j - 1];
      assert TotalWidth(xs[..j + 1]) == Width(xs[0]) + TotalWidth(t[..j]);
      assert TotalWidth(xs[..j]) == Width(xs[0]) + TotalWidth(t[..j - 1]);
    } else {
      assert xs[..1][0] == xs[0] && xs[..1][1..] == [];
      assert xs[..0] == [];
    }
  }

  /** Under the corrected check every argument's slots lie within the four. */
  lemma SetArgsCheckBounds(xs: seq<ArgInput>, j: nat)
    requires SetArgsCheck(xs) && j < |xs|
    ensures Offset(xs, j) + Width(xs[j]) <= MaxArgs
  {
    TotalWidthSplit(xs, j);
  }

  /** Three arguments, the last an Operand, pass the check as written yet need five slots. */
  lemma SetArgsCheckAsWrittenOverflows(o: Operand)
    ensures var xs := [Plain(AVoid), Plain(AVoid), Op(o)];
      SetArgsCheckAsWritten(xs) && !SetArgsCheck(xs) && TotalWidth(xs) == 5 && Offset(xs, 2) == 2
  {
    var xs := [Plain(AVoid), Plain(AVoid), Op(o)];
    var p := xs[..2];
    assert p == [Plain(AVoid), Plain(AVoid)];
    assert p[1..] == [Plain(AVoid)];
    assert p[1..][1..] == [];
    assert TotalWidth(p[1..]) == 1;
    assert xs[1..] == [Plain(AVoid), Op(o)];
    assert xs[1..][1..] == [Op(o)];
    assert xs[1..][1..][1..] == [];
    assert TotalWidth(xs[1..][1..]) == 3;
    assert TotalWidth(xs[1..]) == 4;
    assert TotalWidth(p) == 2;
  }

  /** SetArgs on a new instruction with that input fails: the Operand's slots run past the last. */
  lemma SetArgsAsWrittenFails(meta: MetaTable, s: seq<Inst>, op: OpCode, o: Operand)
    ensures SetArgsFrom(meta, s + [NewInst(op)], |s|, [Plain(AVoid), Plain(AVoid), Op(o)], 0) == None
  {
    SetArgsCheckAsWrittenOverflows(o);
  }

  lemma PlacedAtFrame(a: seq<Arg>, b: seq<Arg>, k: nat, x: ArgInput)
    requires PlacedAt(a, k, x) && |b| == |a|
    requires forall i :: 0 <= i < k + Width(x) ==> b[i] == a[i]
    ensures PlacedAt(b, k, x)
  {
    assert b[k] == a[k];
    if x.Op? { assert b[k + 1] == a[k + 1] && b[k + 2] == a[k + 2]; }
  }

  /** A successful SetArgs is its first write followed by SetArgs of the rest. */
  lemma SetArgsFromFirst(meta: MetaTable, s: seq<Inst>, user: nat, xs: seq<ArgInput>, idx: nat)
    requires user < |s| && |s[user].args| == MaxArgs && idx <= MaxArgs && SetArgsFrom(meta, s, user, xs, idx).Some?
    requires xs != []
    ensures SetOne(meta, s, user, idx, xs[0]).Some?
    ensures user < |SetOne(meta, s, user, idx, xs[0]).value| && |SetOne(meta, s, user, idx, xs[0]).value[user].args| == MaxArgs
    ensures idx + Width(xs[0]) <= MaxArgs
    ensures SetArgsFrom(meta, SetOne(meta, s, user, idx, xs[0]).value, user, xs[1..], idx + Width(xs[0])) == SetArgsFrom(meta, s, user, xs, idx)
    ensures SetArgsFrom(meta, SetOne(meta, s, user, idx, xs[0]).value, user, xs[1..], idx + Width(xs[0])).value[user].args
      == SetArgsFrom(meta, s, user, xs, idx).value[user].args
  {
  }

  /** What SetArgs stored: input j sits from its running index on, no later write touching it. */
  lemma SetArgsPlaces(meta: MetaTable, s: seq<Inst>, user: nat, xs: seq<ArgInput>, idx: nat, j: nat)
    requires user < |s| && |s[user].args| == MaxArgs && idx <= MaxArgs && SetArgsFrom(meta, s, user, xs, idx).Some?
    requires j < |xs|
    ensures PlacedAt(SetArgsFrom(meta, s, user, xs, idx).value[user].args, idx + Offset(xs, j), xs[j])
  {
    PlacedIn(meta, s, user, xs, idx, j, SetArgsFrom(meta, s, user, xs, idx).value);
  }

  /** SetArgs from slot idx of user, on well-formed arguments, gives the arena r. */
  ghost predicate SetsArgs(meta: MetaTable, s: seq<Inst>, user: nat, xs: seq<ArgInput>, idx: nat, r: seq<Inst>)
  {
    user < |s| && |s[user].args| == MaxArgs && idx <= MaxArgs && SetArgsFrom(meta, s, user, xs, idx) == Some(r)
  }

  /** SetArgsPlaces for a named result r of SetArgs. */
  lemma PlacedIn(meta: MetaTable, s: seq<Inst>, user: nat, xs: seq<ArgInput>, idx: nat, j: nat, r: seq<Inst>)
    requires SetsArgs(meta, s, user, xs, idx, r) && j < |xs|
    ensures user < |r| && PlacedAt(r[user].args, idx + Offset(xs, j), xs[j])
  {
    SetArgsPlacesAll(meta, s, user, xs, idx, r);
    PlacedAllAt(r[user].args, xs, idx, j);
  }

  /** Every input sits at the running index, the first at idx and the rest after its slots. */
  ghost predicate PlacedAll(a: seq<Arg>, xs: seq<ArgInput>, idx: nat)
    decreases |xs|
  {
    xs == [] || (PlacedAt(a, idx, xs[0]) && PlacedAll(a, xs[1..], idx + Width(xs[0])))
  }

  /** The arguments SetArgs leaves hold all its inputs, by induction on the inputs. */
  lemma {:induction false} SetArgsPlacesAll(meta: MetaTable, s: seq<Inst>, user: nat, xs: seq<ArgInput>, idx: nat, r: seq<Inst>)
    requires SetsArgs(meta, s, user, xs, idx, r)
    ensures user < |r| && PlacedAll(r[user].args, xs, idx)
    decreases |xs|
  {
    if xs != [] {
      PlacedHead(meta, s, user, xs, idx, r);
      var s1 := SetArgsFromRest(meta, s, user, xs, idx, r);
      SetArgsPlacesAll(meta, s1, user, xs[1..], idx + Width(xs[0]), r);
    }
  }

  /** PlacedAll puts input j at its offset. */
  lemma {:induction false} PlacedAllAt(a: seq<Arg>, xs: seq<ArgInput>, idx: nat, j: nat)
    requires PlacedAll(a, xs, idx) && j < |xs|
    ensures PlacedAt(a, idx + Offset(xs, j), xs[j])
    decreases j
  {
    if j == 0 {
      assert xs[..0] == [];
    } else {
      PlacedAllAt(a, xs[1..], idx + Width(xs[0]), j - 1);
      PlacedStep(xs, j, a, idx);
    }
  }

  lemma SetArgsFromRest(meta: MetaTable, s: seq<Inst>, user: nat, xs: seq<ArgInput>, idx: nat, r: seq<Inst>) returns (s1: seq<Inst>)
    requires SetsArgs(meta, s, user, xs, idx, r) && xs != []
    ensures SetOne(meta, s, user, idx, xs[0]) == Some(s1)
    ensures SetsArgs(meta, s1, user, xs[1..], idx + Width(xs[0]), r)
  {
    SetArgsFromFirst(meta, s, user, xs, idx);
    s1 := SetOne(meta, s, user, idx, xs[0]).value;
  }

  /** SetArgsPlacesHead for a named result r of SetArgs. */
  lemma PlacedHead(meta: MetaTable, s: seq<Inst>, user: nat, xs: seq<ArgInput>, idx: nat, r: seq<Inst>)
    requires SetsArgs(meta, s, user, xs, idx, r) && xs != []
    ensures user < |r| && PlacedAt(r[user].args, idx, xs[0])
  {
    SetArgsPlacesHead(meta, s, user, xs, idx);
    assert xs[..0] == [];
  }

  /** Input j - 1 of the rest, placed after the first input's slots, is input j placed at its offset. */
  lemma PlacedStep(xs: seq<ArgInput>, j: nat, a: seq<Arg>, p: nat)
    requires 0 < j < |xs| && PlacedAt(a, p + Width(xs[0]) + Offset(xs[1..], j - 1), xs[1..][j - 1])
    ensures PlacedAt(a, p + Offset(xs, j), xs[j])
  {
    OffsetStep(xs, j);
    assert xs[1..][j - 1] == xs[j];
  }

  /** The first input of SetArgs sits at the starting index. */
  lemma SetArgsPlacesHead(meta: MetaTable, s: seq<Inst>, user: nat, xs: seq<ArgInput>, idx: nat)
    requires user < |s| && |s[user].args| == MaxArgs && idx <= MaxArgs && SetArgsFrom(meta, s, user, xs, idx).Some?
    requires xs != []
    ensures PlacedAt(SetArgsFrom(meta, s, user, xs, idx).value[user].args, idx + Offset(xs, 0), xs[0])
  {
    SetArgsFromFirst(meta, s, user, xs, idx);
    var s1 := SetOne(meta, s, user, idx, xs[0]).value;
    var r := SetArgsFrom(meta, s, user, xs, idx).value;
    assert xs[..0] == [];
    PlacedAtFrame(s1[user].args, r[user].args, idx, xs[0]);
  }

  lemma OffsetStep(xs: seq<ArgInput>, j: nat)
    requires 0 < j <= |xs|
    ensures Offset(xs, j) == Width(xs[0]) + Offset(xs[1..], j - 1)
  {
    assert xs[..j][1..] == xs[1..][..j - 1];
  }

  /**
   * `Inst::Create(op, args...)`: a new instruction (appended to the arena)
   * followed by SetArgs; None where SetArgs fails.
   */
  function Create(meta: MetaTable, s: seq<Inst>, op: OpCode, xs: seq<ArgInput>): (r: Option<seq<Inst>>)
    ensures r.Some? ==> |r.value| == |s| + 1 && r.value[|s|].op == op
  {
    var t := s + [NewInst(op)];
    SetArgsFrom(meta, t, |s|, xs, 0)
  }

  /** The values an input of SetArgs uses. */
  function InputValues(x: ArgInput): seq<Value>
  {
    match x
    case Plain(a) => ArgValues(a)
    case Op(o) => SideValues(o)
  }

  ghost predicate InputsDefined(s: seq<Inst>, xs: seq<ArgInput>)
  {
    forall j :: 0 <= j < |xs| ==> AllDefined(s, InputValues(xs[j]))
  }

  ghost predicate EmptyFrom(args: seq<Arg>, idx: nat)
  {
    forall k :: idx <= k < |args| ==> args[k] == AVoid
  }

  /**
   * Under the corrected check, SetArgs on empty slots of an ordinary user
   * whose values are all defined succeeds.
   */
  lemma {:induction false} SetArgsSucceeds(meta: MetaTable, s: seq<Inst>, user: nat, xs: seq<ArgInput>, idx: nat)
    requires user < |s| && |s[user].args| == MaxArgs && !IsPseudoOperation(s[user].op)
    requires idx + TotalWidth(xs) <= MaxArgs && EmptyFrom(s[user].args, idx) && InputsDefined(s, xs)
    ensures SetArgsFrom(meta, s, user, xs, idx).Some?
    decreases |xs|
  {
    if xs != [] {
      assert AllDefined(s, InputValues(xs[0]));
      if xs[0].Plain? {
        var a := xs[0].arg;
        EmptyOverwrite(s, user, idx, a);
        var s0 := s[user := SetSlot(s[user], idx, a)];
        assert s0[user].op == s[user].op && |s0| == |s|;
        UseAllSucceeds(s0, user, ArgValues(a));
      } else {
        SetOperandSucceeds(s, user, idx, xs[0].operand);
      }
      var s1 := SetOne(meta, s, user, idx, xs[0]).value;
      assert InputsDefined(s1, xs[1..]) by {
        forall j | 0 <= j < |xs| - 1 ensures AllDefined(s1, InputValues(xs[1..][j])) {
          assert xs[1..][j] == xs[j + 1];
        }
      }
      SetArgsSucceeds(meta, s1, user, xs[1..], idx + Width(xs[0]));
    }
  }

  // ---------------------------------------------------------------- PublicIndex

  /** The number of Operand-typed entries of a type list. */
  function Ops(ts: seq<ArgType>): (r: nat)
    ensures r <= |ts|
  {
    if ts == [] then 0 else Ops(ts[..|ts| - 1]) + (if ts[|ts| - 1] == OperandTag then 1 else 0)
  }

  /** The slot where public argument n starts: two extra slots per Operand before it. */
  function SlotOf(ts: seq<ArgType>, n: nat): nat
    requires n <= |ts|
  {
    n + 2 * Ops(ts[..n])
  }

  /**
   * The loop of `PublicIndex` as written: it runs while `arg_index` is
   * below `max_index`, which itself grows by 2 per Operand, so it can read
   * `arg_types` beyond the argument asked for, and past its end (None).
   */
  function PublicIndexLoop(ts: seq<ArgType>, i: nat, m: nat): Option<nat>
    decreases |ts| - i
  {
    if i >= m then Some(m)
    else if i >= |ts| then None
    else PublicIndexLoop(ts, i + 1, if ts[i] == OperandTag then m + 2 else m)
  }

  /** `PublicIndex(max_index)` as written, None also where its final assert fails. */
  function PublicIndexAsWritten(ts: seq<ArgType>, n: nat): Option<nat>
  {
    var m :- PublicIndexLoop(ts, 0, n);
    if m < MaxArgs then Some(m) else None
  }

  /** `PublicIndex` counting only the Operands before argument n. */
  function PublicIndex(ts: seq<ArgType>, n: nat): (r: Option<nat>)
    requires n <= |ts|
    ensures r.Some? <==> SlotOf(ts, n) < MaxArgs
    ensures r.Some? ==> r.value == SlotOf(ts, n)
  {
    var m := PublicIndexCount(ts, n);
    if m < MaxArgs then Some(m) else None
  }

  /** The counting loop of the corrected PublicIndex. */
  function PublicIndexCount(ts: seq<ArgType>, n: nat): (m: nat)
    requires n <= |ts|
    ensures m == SlotOf(ts, n)
  {
    if n == 0 then 0
    else
      assert ts[..n][..n - 1] == ts[..n - 1];
      PublicIndexCount(ts, n - 1) + (if ts[n - 1] == OperandTag then 3 else 1)
  }

  lemma OpsPrefix(ts: seq<ArgType>, i: nat)
    requires i < |ts|
    ensures Ops(ts[..i + 1]) == Ops(ts[..i]) + (if ts[i] == OperandTag then 1 else 0)
  {
    assert ts[..i + 1][..i] == ts[..i];
  }

  lemma {:induction false} OpsMonotone(ts: seq<ArgType>, a: nat, b: nat)
    requires a <= b <= |ts|
    ensures Ops(ts[..a]) <= Ops(ts[..b])
    decreases b - a
  {
    if a < b {
      OpsPrefix(ts, b - 1);
      OpsMonotone(ts, a, b - 1);
    }
  }

  /** What the as-written loop computes: the first i reaching n + 2*Ops(ts[..i]). */
  lemma {:induction false} PublicIndexLoopFacts(ts: seq<ArgType>, n: nat, i: nat, m: nat)
    requires i <= |ts| && m == n + 2 * Ops(ts[..i]) && i <= m
    requires forall k :: 0 <= k < i ==> k < n + 2 * Ops(ts[..k])
    requires PublicIndexLoop(ts, i, m).Some?
    ensures var f := PublicIndexLoop(ts, i, m).value;
      && f <= |ts| && f == n + 2 * Ops(ts[..f])
      && forall k :: 0 <= k < f ==> k < n + 2 * Ops(ts[..k])
    decreases |ts| - i
  {
    if i < m {
      OpsPrefix(ts, i);
      PublicIndexLoopFacts(ts, n, i + 1, if ts[i] == OperandTag then m + 2 else m);
    }
  }

  /** Where the as-written PublicIndex succeeds it returns the slot of argument n. */
  lemma PublicIndexAsWrittenSound(ts: seq<ArgType>, n: nat)
    requires n <= |ts| && PublicIndexAsWritten(ts, n).Some?
    ensures PublicIndexAsWritten(ts, n) == PublicIndex(ts, n)
  {
    assert ts[..0] == [];
    PublicIndexLoopFacts(ts, n, 0, n);
    var f := PublicIndexLoop(ts, 0, n).value;
    assert f < MaxArgs;
    OpsMonotone(ts, 0, n);
    if f > n {
      OpsMonotone(ts, n, f);
    }
  }

  /** For [Operand, Value] the as-written loop reads arg_types[2]; the count gives slot 3. */
  lemma PublicIndexAsWrittenReadsPast()
    ensures PublicIndexAsWritten([OperandTag, ValueTag], 1) == None
    ensures PublicIndex([OperandTag, ValueTag], 1) == Some(3)
  {
    var ts := [OperandTag, ValueTag];
    assert ts[..1] == [OperandTag] && ts[..1][..0] == [];
  }

  // ---------------------------------------------------------------- Validate

  /**
   * The slot walk of `Validate` as written: slot `inner` must carry public
   * type `ai` and an Operand type skips three slots, and the walk goes on
   * over all four slots even after the listed types run out.  That read
   * past the end of `arg_types` is undefined; it is taken here as a failed
   * check.
   */
  function ValidateSlotsAsWritten(args: seq<Arg>, ts: seq<ArgType>, inner: nat, ai: nat): bool
    requires |args| == MaxArgs
    decreases MaxArgs - inner
  {
    if inner >= MaxArgs then true
    else if ai >= |ts| then false
    else Tag(args[inner]) == ts[ai] && ValidateSlotsAsWritten(args, ts, inner + (if ts[ai] == OperandTag then 3 else 1), ai + 1)
  }

  /**
   * The slot walk of `Validate` as intended: the listed types in order,
   * an Operand type skipping three slots, and every slot after the listed
   * types Void.
   */
  function ValidateSlots(args: seq<Arg>, ts: seq<ArgType>, inner: nat, ai: nat): bool
    requires |args| == MaxArgs
    decreases MaxArgs - inner
  {
    if inner >= MaxArgs then true
    else if ai >= |ts| then args[inner].AVoid? && ValidateSlots(args, ts, inner + 1, ai)
    else Tag(args[inner]) == ts[ai] && ValidateSlots(args, ts, inner + (if ts[ai] == OperandTag then 3 else 1), ai + 1)
  }

  /** Whatever the walk as written accepts, the intended walk accepts. */
  lemma {:induction false} ValidateSlotsAsWrittenSound(args: seq<Arg>, ts: seq<ArgType>, inner: nat, ai: nat)
    requires |args| == MaxArgs && ValidateSlotsAsWritten(args, ts, inner, ai)
    ensures ValidateSlots(args, ts, inner, ai)
    decreases MaxArgs - inner
  {
    if inner < MaxArgs {
      ValidateSlotsAsWrittenSound(args, ts, inner + (if ts[ai] == OperandTag then 3 else 1), ai + 1);
    }
  }

  /**
   * Two Values of an opcode whose meta types are [Value, Value]: the walk
   * as written reads `arg_types[2]` at slot 2 and fails, the intended walk
   * accepts.
   */
  lemma ValidateSlotsReadsPast(v: Value, w: Value)
    ensures !ValidateSlotsAsWritten([AValue(v), AValue(w), AVoid, AVoid], [ValueTag, ValueTag], 0, 0)
    ensures ValidateSlots([AValue(v), AValue(w), AVoid, AVoid], [ValueTag, ValueTag], 0, 0)
  {
    var args := [AValue(v), AValue(w), AVoid, AVoid];
    assert !ValidateSlotsAsWritten(args, [ValueTag, ValueTag], 2, 2);
    assert ValidateSlots(args, [ValueTag, ValueTag], 2, 2);
  }

  /**
   * What the intended walk checks, stated without the walk: public type n
   * at slot SlotOf(ts, n) for every n from `ai` whose slot is inside the
   * four, and Void in every slot after the last public argument.
   */
  ghost predicate SlotsTypedFrom(args: seq<Arg>, ts: seq<ArgType>, ai: nat)
    requires |args| == MaxArgs && ai <= |ts|
  {
    (forall n :: ai <= n < |ts| && SlotOf(ts, n) < MaxArgs ==> Tag(args[SlotOf(ts, n)]) == ts[n]) &&
    (forall k :: SlotOf(ts, |ts|) <= k < MaxArgs ==> args[k].AVoid?)
  }

  /** The intended walk accepts from slot `ai` exactly what SlotsTypedFrom describes. */
  lemma {:induction false} ValidateSlotsIff(args: seq<Arg>, ts: seq<ArgType>, ai: nat)
    requires |args| == MaxArgs && ai <= |ts|
    ensures ValidateSlots(args, ts, SlotOf(ts, ai), ai) <==> SlotsTypedFrom(args, ts, ai)
    decreases |ts| - ai
  {
    if ai == |ts| {
      ValidateSlotsVoidTail(args, ts, SlotOf(ts, ai));
    } else if SlotOf(ts, ai) >= MaxArgs {
      forall n | ai <= n <= |ts|
        ensures SlotOf(ts, n) >= MaxArgs
      {
        SlotOfMonotone(ts, ai, n);
      }
    } else {
      OpsPrefix(ts, ai);
      ValidateSlotsIff(args, ts, ai + 1);
    }
  }

  /** After the listed types, the intended walk accepts exactly all-Void slots. */
  lemma {:induction false} ValidateSlotsVoidTail(args: seq<Arg>, ts: seq<ArgType>, inner: nat)
    requires |args| == MaxArgs
    ensures ValidateSlots(args, ts, inner, |ts|) <==> forall k :: inner <= k < MaxArgs ==> args[k].AVoid?
    decreases MaxArgs - inner
  {
    if inner < MaxArgs {
      ValidateSlotsVoidTail(args, ts, inner + 1);
    }
  }

  /**
   * `Inst::Validate`: a call needs a Lambda in slot 0, SetLocation an Imm
   * there, every other opcode but Void the intended slot walk over its
   * meta types (ValidateSlotsAsWritten is the walk as the original has it).
   */
  function Validate(meta: MetaTable, i: Inst): bool
    requires |i.args| == MaxArgs
  {
    if i.op == CallLambda || i.op == CallLocation || i.op == CallDynamic then i.args[0].ALambda?
    else if i.op == SetLocation then i.args[0].AImm?
    else if i.op == OpVoid then false
    else ValidateSlots(i.args, meta(i.op).argTypes, 0, 0)
  }

  lemma SlotOfMonotone(ts: seq<ArgType>, a: nat, b: nat)
    requires a <= b <= |ts|
    ensures SlotOf(ts, a) <= SlotOf(ts, b)
  {
    OpsMonotone(ts, a, b);
  }

  /**
   * The walk of Validate and the layout of PublicIndex agree: public
   * argument n, wherever it starts inside the four slots, carries its type.
   */
  lemma {:induction false} ValidateSlotsAt(args: seq<Arg>, ts: seq<ArgType>, ai: nat, n: nat)
    requires |args| == MaxArgs && ai <= n < |ts|
    requires ValidateSlots(args, ts, SlotOf(ts, ai), ai) && SlotOf(ts, n) < MaxArgs
    ensures Tag(args[SlotOf(ts, n)]) == ts[n]
    decreases n - ai
  {
    if ai < n {
      SlotOfMonotone(ts, ai, n);
      OpsPrefix(ts, ai);
      ValidateSlotsAt(args, ts, ai + 1, n);
    }
  }

  /** A validated ordinary instruction carries type ts[n] at PublicIndex(n). */
  lemma ValidatePublicIndex(meta: MetaTable, i: Inst, n: nat)
    requires |i.args| == MaxArgs && Validate(meta, i)
    requires !(i.op in {CallLambda, CallLocation, CallDynamic, SetLocation})
    requires n < |meta(i.op).argTypes| && PublicIndex(meta(i.op).argTypes, n).Some?
    ensures Tag(i.args[PublicIndex(meta(i.op).argTypes, n).value]) == meta(i.op).argTypes[n]
  {
    var ts := meta(i.op).argTypes;
    assert ts[..0] == [];
    ValidateSlotsAt(i.args, ts, 0, n);
  }

  // ---------------------------------------------------------------- pseudo-operation queries

  /** The walk of `GetPseudoOperations`: the instructions linked after `x`, in link order. */
  function PseudosFrom(s: seq<Inst>, x: nat, fuel: nat): Option<seq<nat>>
    requires x < |s|
    decreases fuel
  {
    var n := s[x].nextPseudo;
    if n == NoPseudo then Some([])
    else if n < 0 || n >= |s| || fuel == 0 then None
    else match PseudosFrom(s, n, fuel - 1)
      case None => None
      case Some(c) => Some([n] + c)
  }

  /**
   * The walk of `GetPseudoOperation(code)`: the first instruction after `x`
   * with opcode `code`, or NoPseudo (null) when the chain has none.
   */
  function FindPseudoFrom(s: seq<Inst>, x: nat, code: OpCode, fuel: nat): Option<int>
    requires x < |s|
    decreases fuel
  {
    var n := s[x].nextPseudo;
    if n == NoPseudo then Some(NoPseudo)
    else if n < 0 || n >= |s| || fuel == 0 then None
    else if s[n].op == code then Some(n)
    else FindPseudoFrom(s, n, code, fuel - 1)
  }

  function GetPseudoOperation(s: seq<Inst>, x: nat, code: OpCode): Option<int>
    requires x < |s|
  {
    FindPseudoFrom(s, x, code, |s|)
  }

  /** `HasFlagsSavePseudo`: the same walk, looking for a SaveFlags. */
  function HasFlagsSavePseudo(s: seq<Inst>, x: nat): Option<bool>
    requires x < |s|
  {
    match FindPseudoFrom(s, x, SaveFlags, |s|)
    case None => None
    case Some(p) => Some(p != NoPseudo)
  }

  /** On a well-formed chain, GetPseudoOperations lists exactly the chain. */
  lemma {:induction false} PseudosFromChain(s: seq<Inst>, d: nat, c: seq<nat>, fuel: nat)
    requires IsChain(s, d, c) && fuel >= |c|
    ensures PseudosFrom(s, d, fuel) == Some(c)
    decreases |c|
  {
    if c != [] {
      ChainRest(s, d, c);
      PseudosFromChain(s, c[0], c[1..], fuel - 1);
      assert c == [c[0]] + c[1..];
    }
  }

  /** c[k] is the first member of chain c with opcode `code`. */
  ghost predicate FirstWith(s: seq<Inst>, c: seq<nat>, code: OpCode, k: int)
  {
    && 0 <= k < |c| && c[k] < |s| && s[c[k]].op == code
    && forall j :: 0 <= j < k ==> c[j] < |s| && s[c[j]].op != code
  }

  /**
   * On a well-formed chain, GetPseudoOperation(code) returns the first
   * chain member with that opcode, and null exactly when there is none.
   */
  lemma {:induction false} FindPseudoChain(s: seq<Inst>, d: nat, c: seq<nat>, code: OpCode, fuel: nat)
    requires IsChain(s, d, c) && fuel >= |c|
    ensures var r := FindPseudoFrom(s, d, code, fuel);
      && r.Some?
      && (r.value == NoPseudo <==> forall k :: 0 <= k < |c| ==> s[c[k]].op != code)
      && (r.value != NoPseudo ==> exists k :: FirstWith(s, c, code, k) && r.value == c[k])
    decreases |c|
  {
    if c != [] && s[c[0]].op != code {
      ChainRest(s, d, c);
      FindPseudoChain(s, c[0], c[1..], code, fuel - 1);
      var r := FindPseudoFrom(s, d, code, fuel);
      if r.value == NoPseudo {
        forall k | 0 <= k < |c| ensures s[c[k]].op != code {
          if k > 0 { assert c[k] == c[1..][k - 1]; }
        }
      } else {
        var k :| FirstWith(s, c[1..], code, k) && r.value == c[1..][k];
        assert r.value == c[k + 1];
        forall j | 0 <= j < k + 1 ensures s[c[j]].op != code {
          if j > 0 { assert c[j] == c[1..][j - 1]; }
        }
        assert FirstWith(s, c, code, k + 1);
      }
    }
  }

  /** HasFlagsSavePseudo holds exactly when a SaveFlags is on the chain. */
  lemma HasFlagsSaveChain(s: seq<Inst>, d: nat, c: seq<nat>)
    requires IsChain(s, d, c)
    ensures HasFlagsSavePseudo(s, d) == Some(exists k :: 0 <= k < |c| && s[c[k]].op == SaveFlags)
  {
    ChainShorter(s, d, c);
    FindPseudoChain(s, d, c, SaveFlags, |s|);
  }

  // ---------------------------------------------------------------- GetValues

  /** `GetValues`: the values of all arguments, slot by slot. */
  function ArgsValues(args: seq<Arg>): seq<Value>
  {
    if args == [] then [] else ArgsValues(args[..|args| - 1]) + ArgValues(args[|args| - 1])
  }

  /** A value is collected exactly when some argument holds it. */
  lemma {:induction false} ArgsValuesMember(args: seq<Arg>, v: Value)
    ensures v in ArgsValues(args) <==> exists k :: 0 <= k < |args| && v in ArgValues(args[k])
    decreases |args|
  {
    if args != [] {
      ArgsValuesMember(args[..|args| - 1], v);
      ArgsValuesLast(args, v);
      HeldByLast(args, v);
    } else {
      assert ArgsValues(args) == [];
    }
    assert v in ArgsValues(args) <==> HeldBy(args, v);
  }

  ghost predicate HeldBy(args: seq<Arg>, v: Value)
  {
    exists k :: 0 <= k < |args| && v in ArgValues(args[k])
  }

  lemma ArgsValuesLast(args: seq<Arg>, v: Value)
    requires args != []
    ensures v in ArgsValues(args) <==> v in ArgsValues(args[..|args| - 1]) || v in ArgValues(args[|args| - 1])
  {
  }

  lemma HeldByLast(args: seq<Arg>, v: Value)
    requires args != []
    ensures HeldBy(args, v) <==> HeldBy(args[..|args| - 1], v) || v in ArgValues(args[|args| - 1])
  {
    if HeldBy(args, v) {
      HeldByShrinks(args, v);
    }
    if HeldBy(args[..|args| - 1], v) || v in ArgValues(args[|args| - 1]) {
      HeldByGrows(args, v);
    }
  }

  lemma HeldByShrinks(args: seq<Arg>, v: Value)
    requires args != [] && HeldBy(args, v)
    ensures HeldBy(args[..|args| - 1], v) || v in ArgValues(args[|args| - 1])
  {
    var k :| 0 <= k < |args| && v in ArgValues(args[k]);
    if k < |args| - 1 {
      HeldAt(args[..|args| - 1], k, v);
    }
  }

  /** A value an argument at k uses is held by the arguments. */
  lemma HeldAt(args: seq<Arg>, k: nat, v: Value)
    requires k < |args| && v in ArgValues(args[k])
    ensures HeldBy(args, v)
  {
  }

  lemma HeldByGrows(args: seq<Arg>, v: Value)
    requires args != [] && (HeldBy(args[..|args| - 1], v) || v in ArgValues(args[|args| - 1]))
    ensures HeldBy(args, v)
  {
    if HeldBy(args[..|args| - 1], v) {
      var k :| 0 <= k < |args| - 1 && v in ArgValues(args[..|args| - 1][k]);
      assert args[..|args| - 1][k] == args[k];
    }
  }

  lemma {:induction false} ParamValuesSnoc(ps: seq<DataClass>, j: nat)
    requires j < |ps|
    ensures ParamValues(ps[..j + 1]) == ParamValues(ps[..j]) + (if ps[j].DValue? then [ps[j].value] else [])
    decreases j
  {
    if j > 0 {
      ParamValuesSnoc(ps[1..], j - 1);
      assert ps[1..][..j] == ps[..j + 1][1..];
      assert ps[1..][..j - 1] == ps[..j][1..];
    }
  }

  // ---------------------------------------------------------------- the arena as an object

  /** Function plus accumulator: None stays None. */
  function AddTo(o: Option<nat>, k: nat): Option<nat>
  {
    match o
    case None => None
    case Some(m) => Some(m + k)
  }

  /** A walk result with `acc` in front; None stays None. */
  function PrefixWith(acc: seq<nat>, o: Option<seq<nat>>): Option<seq<nat>>
  {
    match o
    case None => None
    case Some(c) => Some(acc + c)
  }

  /** One argument of `GetValues`: appends the values it uses. */
  method AppendArgValues(vs: seq<Value>, a: Arg) returns (r: seq<Value>)
    ensures r == vs + ArgValues(a)
  {
    r := vs;
    if a.AValue? {
      r := r + [a.value];
    } else if a.ALambda? && LambdaIsValue(a.lambda) {
      r := r + [a.lambda.address.value];
    } else if a.AParams? {
      var ps := a.params;
      var j := 0;
      while j < |ps|
        invariant j <= |ps| && r == vs + ParamValues(ps[..j])
      {
        ParamValuesSnoc(ps, j);
        if ps[j].DValue? {
          r := r + [ps[j].value];
        }
        j := j + 1;
      }
      assert ps[..j] == ps;
    }
  }

  /**
   * The instructions as mutable objects: each method performs the loop of
   * its C++ counterpart on the arena and is proved equal to the function
   * above.  A method returning false stands for the panic of the original.
   */
  class InstPool {
    var insts: seq<Inst>

    constructor(s: seq<Inst>)
      ensures insts == s
    {
      insts := s;
    }

    method Use(user: nat, v: Value) returns (ok: bool)
      requires user < |insts|
      modifies this
      ensures ok <==> UseSpec(old(insts), user, v).Some?
      ensures ok ==> insts == UseSpec(old(insts), user, v).value
    {
      if !(0 <= v.def < |insts|) {
        return false;
      }
      var d := v.def;
      insts := insts[d := insts[d].(numUse := (insts[d].numUse + 1) % 256)];
      if IsPseudoOperation(insts[user].op) {
        var t: nat := d;
        var fuel: nat := |insts|;
        while insts[t].nextPseudo != NoPseudo
          invariant t < |insts| && TailFrom(insts, t, fuel) == TailFrom(insts, d, |insts|)
          decreases fuel
        {
          var n := insts[t].nextPseudo;
          if n < 0 || n >= |insts| || fuel == 0 {
            return false;
          }
          t, fuel := n, fuel - 1;
        }
        insts := insts[t := insts[t].(nextPseudo := user)];
      }
      return true;
    }

    method UnUse(user: nat, v: Value) returns (ok: bool)
      requires user < |insts|
      modifies this
      ensures ok <==> UnUseSpec(old(insts), user, v).Some?
      ensures ok ==> insts == UnUseSpec(old(insts), user, v).value
    {
      if !(0 <= v.def < |insts|) {
        return false;
      }
      var d := v.def;
      insts := insts[d := insts[d].(numUse := (insts[d].numUse + 255) % 256)];
      if IsPseudoOperation(insts[user].op) {
        var p: nat := d;
        var fuel: nat := |insts|;
        while insts[p].nextPseudo != user
          invariant p < |insts| && PredFrom(insts, p, user, fuel) == PredFrom(insts, d, user, |insts|)
          decreases fuel
        {
          var n := insts[p].nextPseudo;
          if n < 0 || n >= |insts| || fuel == 0 {
            return false;
          }
          p, fuel := n, fuel - 1;
        }
        insts := insts[p := insts[p].(nextPseudo := insts[user].nextPseudo)];
        insts := insts[user := insts[user].(nextPseudo := NoPseudo)];
      }
      return true;
    }

    method GetUses(x: nat, excludePseudo: bool) returns (r: Option<nat>)
      requires x < |insts|
      ensures r == GetUsesSpec(insts, x, excludePseudo)
    {
      if !excludePseudo {
        return Some(insts[x].numUse);
      }
      var count: nat := 0;
      ghost var k: nat := 0;
      var t: nat := x;
      var fuel: nat := |insts|;
      while insts[t].nextPseudo != NoPseudo
        invariant t < |insts| && CountFrom(insts, x, |insts|) == AddTo(CountFrom(insts, t, fuel), k)
        invariant count == k % 256
        decreases fuel
      {
        var n := insts[t].nextPseudo;
        if n < 0 || n >= |insts| || fuel == 0 {
          return None;
        }
        count := (count + 1) % 256;
        k := k + 1;
        t, fuel := n, fuel - 1;
      }
      return Some((insts[x].numUse - count) % 256);
    }

    method GetPseudoOperations(x: nat) returns (r: Option<seq<nat>>)
      requires x < |insts|
      ensures r == PseudosFrom(insts, x, |insts|)
    {
      var acc: seq<nat> := [];
      assert PseudosFrom(insts, x, |insts|).Some? ==> [] + PseudosFrom(insts, x, |insts|).value == PseudosFrom(insts, x, |insts|).value;
      var t: nat := x;
      var fuel: nat := |insts|;
      while insts[t].nextPseudo != NoPseudo
        invariant t < |insts|
        invariant PseudosFrom(insts, x, |insts|) == PrefixWith(acc, PseudosFrom(insts, t, fuel))
        decreases fuel
      {
        var n := insts[t].nextPseudo;
        if n < 0 || n >= |insts| || fuel == 0 {
          return None;
        }
        ghost var rest := PseudosFrom(insts, n, fuel - 1);
        assert rest.Some? ==> acc + ([n] + rest.value) == (acc + [n]) + rest.value;
        acc := acc + [n];
        t, fuel := n, fuel - 1;
      }
      assert acc + [] == acc;
      return Some(acc);
    }

    method GetPseudoOperation(x: nat, code: OpCode) returns (r: Option<int>)
      requires x < |insts|
      ensures r == FindPseudoFrom(insts, x, code, |insts|)
    {
      var t: nat := x;
      var fuel: nat := |insts|;
      while insts[t].nextPseudo != NoPseudo
        invariant t < |insts| && FindPseudoFrom(insts, t, code, fuel) == FindPseudoFrom(insts, x, code, |insts|)
        decreases fuel
      {
        var n := insts[t].nextPseudo;
        if n < 0 || n >= |insts| || fuel == 0 {
          return None;
        }
        if insts[n].op == code {
          return Some(n);
        }
        t, fuel := n, fuel - 1;
      }
      return Some(NoPseudo);
    }

    method GetValues(x: nat) returns (vs: seq<Value>)
      requires x < |insts|
      ensures vs == ArgsValues(insts[x].args)
    {
      var args := insts[x].args;
      vs := [];
      var i := 0;
      while i < |args|
        invariant i <= |args| && vs == ArgsValues(args[..i])
      {
        assert args[..i + 1][..i] == args[..i];
        vs := AppendArgValues(vs, args[i]);
        i := i + 1;
      }
      assert args[..i] == args;
    }

    /** Un-use each of `vs` in turn, as the loops of DestroyArg and SetArg do. */
    method UnUseEach(user: nat, vs: seq<Value>) returns (ok: bool)
      requires user < |insts|
      modifies this
      ensures ok <==> UnUseAll(old(insts), user, vs).Some?
      ensures ok ==> insts == UnUseAll(old(insts), user, vs).value
    {
      var i := 0;
      while i < |vs|
        invariant i <= |vs| && user < |insts|
        invariant UnUseAll(insts, user, vs[i..]) == UnUseAll(old(insts), user, vs)
      {
        assert vs[i..][1..] == vs[i + 1..];
        ok := UnUse(user, vs[i]);
        if !ok {
          return;
        }
        i := i + 1;
      }
      return true;
    }

    /** Use each of `vs` in turn. */
    method UseEach(user: nat, vs: seq<Value>) returns (ok: bool)
      requires user < |insts|
      modifies this
      ensures ok <==> UseAll(old(insts), user, vs).Some?
      ensures ok ==> insts == UseAll(old(insts), user, vs).value
    {
      var i := 0;
      while i < |vs|
        invariant i <= |vs| && user < |insts|
        invariant UseAll(insts, user, vs[i..]) == UseAll(old(insts), user, vs)
      {
        assert vs[i..][1..] == vs[i + 1..];
        ok := Use(user, vs[i]);
        if !ok {
          return;
        }
        i := i + 1;
      }
      return true;
    }

    method DestroyArg(user: nat, idx: nat) returns (ok: bool)
      requires user < |insts| && idx < |insts[user].args|
      modifies this
      ensures ok <==> DestroyArgSpec(old(insts), user, idx).Some?
      ensures ok ==> insts == DestroyArgSpec(old(insts), user, idx).value
    {
      ok := UnUseEach(user, ArgValues(insts[user].args[idx]));
      if ok {
        insts := insts[user := insts[user].(args := insts[user].args[idx := AVoid])];
      }
    }

    /** `SetArg(idx, a)` for every argument kind but Operand. */
    method SetArg(meta: MetaTable, user: nat, idx: nat, a: Arg) returns (ok: bool)
      requires user < |insts| && idx < |insts[user].args|
      modifies this
      ensures ok <==> SetArgSpec(meta, old(insts), user, idx, a).Some?
      ensures ok ==> insts == SetArgSpec(meta, old(insts), user, idx, a).value
    {
      ok := DestroyArg(user, idx);
      if !ok {
        return;
      }
      insts := insts[user := insts[user].(args := insts[user].args[idx := a])];
      ok := UseEach(user, ArgValues(a));
      if !ok {
        return;
      }
      assert a.AValue? ==> ArgValues(a)[0] == a.value;
      insts := insts[user := Adopt(meta, insts, user, a)];
    }

    /**
     * The loop of `Validate` over `inner_arg_index` and `arg_index`, with
     * the bound on `arg_index` that the intended walk adds: past the
     * listed types a slot must be Void.
     */
    method WalkSlots(args: seq<Arg>, ts: seq<ArgType>) returns (ok: bool)
      requires |args| == MaxArgs
      ensures ok == ValidateSlots(args, ts, 0, 0)
      ensures ok <==> SlotsTypedFrom(args, ts, 0)
    {
      assert ts[..0] == [];
      ValidateSlotsIff(args, ts, 0);
      var inner: nat := 0;
      var ai: nat := 0;
      while inner < MaxArgs
        invariant ValidateSlots(args, ts, inner, ai) == ValidateSlots(args, ts, 0, 0)
        decreases MaxArgs - inner
      {
        if ai >= |ts| {
          if !args[inner].AVoid? {
            return false;
          }
          inner := inner + 1;
        } else {
          if Tag(args[inner]) != ts[ai] {
            return false;
          }
          inner := inner + if ts[ai] == OperandTag then 3 else 1;
          ai := ai + 1;
        }
      }
      return true;
    }

    /** `PublicIndex` as written, with its loop over `max_index`. */
    method PublicIndex(ts: seq<ArgType>, n: nat) returns (r: Option<nat>)
      ensures r == PublicIndexAsWritten(ts, n)
    {
      var i: nat := 0;
      var m: nat := n;
      while i < m
        invariant PublicIndexLoop(ts, i, m) == PublicIndexLoop(ts, 0, n)
        decreases |ts| - i
      {
        if i >= |ts| {
          return None;
        }
        if ts[i] == OperandTag {
          m := m + 2;
        }
        i := i + 1;
      }
      if m < MaxArgs {
        return Some(m);
      }
      return None;
    }
  }
}
