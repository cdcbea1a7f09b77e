/**
 * The CFG analysis pass: DOMINATES flags on sole incoming edges, back
 * edges by depth-first search, and the reverse post order with the
 * dominator of every block.  Dominators are kept as a sequence `dom`
 * indexed by block, -1 standing for a null dominator.
 */
module CfgAnalysis {
  import opened Wrappers
  import opened IrInst
  import opened HirBuilder

  /** Every dominator is null or a block. */
  ghost predicate DomOk(dom: seq<int>)
  {
    forall b :: 0 <= b < |dom| ==> -1 <= dom[b] < |dom|
  }

  /**
   * The dominator chain from b (b first), following at most `fuel` links;
   * None when it has not reached null by then.
   */
  function ChainFrom(dom: seq<int>, b: int, fuel: nat): (r: Option<seq<nat>>)
    requires DomOk(dom) && b < |dom|
    ensures b < 0 ==> r == Some([])
    ensures r.Some? && b >= 0 ==> |r.value| > 0 && r.value[0] == b
    ensures r.Some? ==> forall k :: 0 <= k < |r.value| ==> r.value[k] < |dom|
    decreases fuel
  {
    if b < 0 then Some([])
    else if fuel == 0 then None
    else
      var rest :- ChainFrom(dom, dom[b], fuel - 1);
      Some([b] + rest)
  }

  /**
   * The dominator chain of b.  A chain of distinct blocks has at most |dom|
   * links, so None means the chain runs in a cycle.
   */
  function Chain(dom: seq<int>, b: int): Option<seq<nat>>
    requires DomOk(dom) && b < |dom|
  {
    ChainFrom(dom, b, |dom|)
  }

  /** No dominator chain runs in a cycle. */
  ghost predicate Acyclic(dom: seq<int>)
    requires DomOk(dom)
  {
    forall b :: 0 <= b < |dom| ==> Chain(dom, b).Some?
  }

  lemma {:induction false} FuelMonotone(dom: seq<int>, b: int, f: nat, g: nat)
    requires DomOk(dom) && b < |dom| && f <= g && ChainFrom(dom, b, f).Some?
    ensures ChainFrom(dom, b, g) == ChainFrom(dom, b, f)
    decreases f
  {
    if b >= 0 {
      FuelMonotone(dom, dom[b], f - 1, g - 1);
    }
  }

  /** One link up the chain: the chain of b is b followed by the chain of its dominator. */
  lemma ChainStep(dom: seq<int>, b: nat)
    requires DomOk(dom) && b < |dom| && Chain(dom, b).Some?
    ensures Chain(dom, dom[b]).Some? && Chain(dom, b).value == [b] + Chain(dom, dom[b]).value
  {
    FuelMonotone(dom, dom[b], |dom| - 1, |dom|);
  }

  /** Every block on a chain has the rest of that chain as its own chain. */
  lemma {:induction false} ChainSuffix(dom: seq<int>, b: int, i: nat)
    requires DomOk(dom) && b < |dom| && Chain(dom, b).Some? && i < |Chain(dom, b).value|
    ensures Chain(dom, Chain(dom, b).value[i]) == Some(Chain(dom, b).value[i..])
    decreases i
  {
    var c := Chain(dom, b).value;
    if i == 0 {
      assert c[0..] == c;
    } else {
      ChainStep(dom, b);
      assert c[1..][i - 1] == c[i] && c[1..][i - 1..] == c[i..];
      ChainSuffix(dom, dom[b], i - 1);
    }
  }

  /** A block on a chain sits at the position its own chain length dictates. */
  lemma ChainPosition(dom: seq<int>, b: int, i: nat)
    requires DomOk(dom) && b < |dom| && Chain(dom, b).Some? && i < |Chain(dom, b).value|
    ensures Chain(dom, Chain(dom, b).value[i]).Some?
    ensures |Chain(dom, Chain(dom, b).value[i]).value| == |Chain(dom, b).value| - i
  {
    ChainSuffix(dom, b, i);
  }

  /**
   * The first block of `ca` that also lies on `cb`: the nearest common
   * block seen from the start of `ca`.
   */
  function NearestCommon(ca: seq<nat>, cb: seq<nat>): (r: Option<nat>)
    ensures r.None? <==> forall i :: 0 <= i < |ca| ==> ca[i] !in cb
    ensures r.Some? ==> exists i :: 0 <= i < |ca| && FirstCommonAt(ca, cb, i) && ca[i] == r.value
  {
    if ca == [] then None
    else if ca[0] in cb then
      assert FirstCommonAt(ca, cb, 0);
      Some(ca[0])
    else
      var r := NearestCommon(ca[1..], cb);
      if r.Some? then
        var i :| 0 <= i < |ca| - 1 && FirstCommonAt(ca[1..], cb, i) && ca[1..][i] == r.value;
        assert FirstCommonAt(ca, cb, i + 1);
        r
      else
        assert forall i :: 1 <= i < |ca| ==> ca[i] == ca[1..][i - 1];
        r
  }

  /** Position i of `ca` holds the first block of `ca` that lies on `cb`. */
  predicate FirstCommonAt(ca: seq<nat>, cb: seq<nat>, i: nat)
  {
    i < |ca| && ca[i] in cb && forall j :: 0 <= j < i ==> ca[j] !in cb
  }

  /** Skipping a first block that is not on `cb` does not change the nearest common block. */
  lemma NearestCommonSkip(ca: seq<nat>, cb: seq<nat>)
    requires ca != [] && ca[0] !in cb
    ensures NearestCommon(ca, cb) == NearestCommon(ca[1..], cb)
  {
  }

  /**
   * `ChainLength(block)`: the number of blocks on the chain, 0 for null.
   * None stands for the cyclic case, where the source's loop never ends.
   */
  method ChainLength(dom: seq<int>, b: int) returns (r: Option<nat>)
    requires DomOk(dom) && b < |dom|
    ensures r.Some? <==> Chain(dom, b).Some?
    ensures r.Some? ==> r.value == |Chain(dom, b).value|
  {
    var cur := b;
    var n: nat := 0;
    while cur >= 0
      invariant cur < |dom| && n <= |dom|
      invariant LenOf(Chain(dom, b)) == Shift(n, LenOf(ChainFrom(dom, cur, |dom| - n)))
      decreases |dom| - n
    {
      if n == |dom| {
        return None;
      }
      cur := dom[cur];
      n := n + 1;
    }
    r := Some(n);
  }

  function LenOf(c: Option<seq<nat>>): (r: Option<nat>)
    ensures r.Some? <==> c.Some?
    ensures r.Some? ==> r.value == |c.value|
  {
    if c.Some? then Some(|c.value|) else None
  }

  function Shift(n: nat, o: Option<nat>): Option<nat>
  {
    if o.Some? then Some(n + o.value) else None
  }

  /** A block of `cb` with chain length n is the one at position |cb| - n. */
  lemma OnChainAt(dom: seq<int>, d: int, x: nat)
    requires DomOk(dom) && d < |dom| && Chain(dom, d).Some? && x in Chain(dom, d).value
    ensures Chain(dom, x).Some? && |Chain(dom, x).value| <= |Chain(dom, d).value|
    ensures Chain(dom, d).value[|Chain(dom, d).value| - |Chain(dom, x).value|] == x
  {
    var c := Chain(dom, d).value;
    var i :| 0 <= i < |c| && c[i] == x;
    ChainPosition(dom, d, i);
  }

  /** The first common block of each chain, seen from the other, is the same block. */
  lemma FirstCommonMeet(dom: seq<int>, a: nat, b: nat, i: nat, j: nat)
    requires DomOk(dom) && a < |dom| && b < |dom| && Chain(dom, a).Some? && Chain(dom, b).Some?
    requires FirstCommonAt(Chain(dom, a).value, Chain(dom, b).value, i)
    requires FirstCommonAt(Chain(dom, b).value, Chain(dom, a).value, j)
    ensures Chain(dom, a).value[i] == Chain(dom, b).value[j]
  {
    var ca, cb := Chain(dom, a).value, Chain(dom, b).value;
    ChainPosition(dom, a, i);
    ChainPosition(dom, b, j);
    OnChainAt(dom, b, ca[i]);
    OnChainAt(dom, a, cb[j]);
    var p := |cb| - |Chain(dom, ca[i]).value|;
    var q := |ca| - |Chain(dom, cb[j]).value|;
    assert cb[p] in ca && ca[q] in cb;
    assert j <= p && i <= q;
  }

  /**
   * Seen from either chain the nearest common block is the same: common
   * blocks sit at the same distance from the end of both chains.
   */
  lemma NearestCommonSymmetric(dom: seq<int>, a: nat, b: nat)
    requires DomOk(dom) && a < |dom| && b < |dom| && Chain(dom, a).Some? && Chain(dom, b).Some?
    ensures NearestCommon(Chain(dom, a).value, Chain(dom, b).value) == NearestCommon(Chain(dom, b).value, Chain(dom, a).value)
  {
    var ca, cb := Chain(dom, a).value, Chain(dom, b).value;
    var r1, r2 := NearestCommon(ca, cb), NearestCommon(cb, ca);
    if r1.Some? {
      var i :| 0 <= i < |ca| && FirstCommonAt(ca, cb, i) && ca[i] == r1.value;
      assert ca[i] in cb;
      var j' :| 0 <= j' < |cb| && cb[j'] == ca[i];
      assert r2.Some?;
      var j :| 0 <= j < |cb| && FirstCommonAt(cb, ca, j) && cb[j] == r2.value;
      FirstCommonMeet(dom, a, b, i, j);
    }
  }

  /** Skipping a prefix of `ca` that shares no block with `cb` keeps the nearest common block. */
  lemma {:induction false} NearestCommonFrom(ca: seq<nat>, cb: seq<nat>, k: nat)
    requires k <= |ca| && forall i :: 0 <= i < k ==> ca[i] !in cb
    ensures NearestCommon(ca, cb) == NearestCommon(ca[k..], cb)
    decreases k
  {
    if k == 0 {
      assert ca[0..] == ca;
    } else {
      NearestCommonFrom(ca, cb, k - 1);
      NearestCommonSkip(ca[k - 1..], cb);
      assert ca[k - 1..][1..] == ca[k..];
    }
  }

  /** A block whose chain is longer than the whole of chain `cb` is not on it. */
  lemma FarNotCommon(dom: seq<int>, a: nat, d: nat, i: nat)
    requires DomOk(dom) && a < |dom| && d < |dom| && Chain(dom, a).Some? && Chain(dom, d).Some?
    requires i < |Chain(dom, a).value| && |Chain(dom, a).value| - i > |Chain(dom, d).value|
    ensures Chain(dom, a).value[i] !in Chain(dom, d).value
  {
    ChainPosition(dom, a, i);
    if Chain(dom, a).value[i] in Chain(dom, d).value {
      OnChainAt(dom, d, Chain(dom, a).value[i]);
    }
  }

  /** A block of one chain is on the other only at the position of equal remaining length. */
  lemma AlignedNotCommon(dom: seq<int>, a: nat, d: nat, i: nat)
    requires DomOk(dom) && a < |dom| && d < |dom| && Chain(dom, a).Some? && Chain(dom, d).Some?
    requires i < |Chain(dom, a).value| && |Chain(dom, a).value| - i <= |Chain(dom, d).value|
    requires Chain(dom, a).value[i] != Chain(dom, d).value[|Chain(dom, d).value| - (|Chain(dom, a).value| - i)]
    ensures Chain(dom, a).value[i] !in Chain(dom, d).value
  {
    ChainPosition(dom, a, i);
    if Chain(dom, a).value[i] in Chain(dom, d).value {
      OnChainAt(dom, d, Chain(dom, a).value[i]);
    }
  }

  /** Climb from the block `len` links before the end of the chain of `start` to the one `target` before it. */
  method ClimbTo(dom: seq<int>, ghost start: nat, b: int, len: int, target: nat) returns (b': int)
    requires DomOk(dom) && start < |dom| && Chain(dom, start).Some?
    requires target <= len <= |Chain(dom, start).value| && -1 <= b < |dom|
    requires Chain(dom, b) == Some(Chain(dom, start).value[|Chain(dom, start).value| - len..])
    ensures -1 <= b' < |dom|
    ensures Chain(dom, b') == Some(Chain(dom, start).value[|Chain(dom, start).value| - target..])
  {
    ghost var A := Chain(dom, start).value;
    b' := b;
    var n := len;
    while n > target
      invariant target <= n <= len && -1 <= b' < |dom|
      invariant Chain(dom, b') == Some(A[|A| - n..])
    {
      ChainStep(dom, b');
      assert A[|A| - n..][1..] == A[|A| - (n - 1)..];
      b' := dom[b'];
      n := n - 1;
    }
  }

  /** x is the block n links before the end of the chain of a (-1 when n is 0). */
  ghost predicate Tail(dom: seq<int>, x: int, a: nat, n: int)
  {
    DomOk(dom) && -1 <= x < |dom| && a < |dom| && Chain(dom, a).Some? && 0 <= n <= |Chain(dom, a).value|
    && Chain(dom, x) == Some(Chain(dom, a).value[|Chain(dom, a).value| - n..])
  }

  /** Both blocks of a lockstep move differ, so neither is null and each has a parent one link shorter. */
  lemma LockstepTails(dom: seq<int>, a: nat, d: nat, n: int, x: int, y: int)
    requires DomOk(dom) && a < |dom| && d < |dom| && Chain(dom, a).Some? && Chain(dom, d).Some?
    requires 0 <= n <= |Chain(dom, a).value| && n <= |Chain(dom, d).value| && x != y
    requires -1 <= x < |dom| && -1 <= y < |dom|
    requires Chain(dom, x) == Some(Chain(dom, a).value[|Chain(dom, a).value| - n..])
    requires Chain(dom, y) == Some(Chain(dom, d).value[|Chain(dom, d).value| - n..])
    ensures n > 0 && x >= 0 && y >= 0
    ensures Tail(dom, dom[x], a, n - 1) && Tail(dom, dom[y], d, n - 1)
  {
    var A, B := Chain(dom, a).value, Chain(dom, d).value;
    assert |Chain(dom, x).value| == n && |Chain(dom, y).value| == n;
    assert x >= 0 || y >= 0;
    assert n > 0;
    ChainStep(dom, x);
    ChainStep(dom, y);
    assert A[|A| - n..][1..] == A[|A| - (n - 1)..];
    assert B[|B| - n..][1..] == B[|B| - (n - 1)..];
  }

  /** One lockstep move: both blocks differ, so the one on chain `a` is not on chain `d`. */
  lemma LockstepStep(dom: seq<int>, a: nat, d: nat, n: int, x: int, y: int)
    requires DomOk(dom) && a < |dom| && d < |dom| && Chain(dom, a).Some? && Chain(dom, d).Some?
    requires 0 <= n <= |Chain(dom, a).value| && n <= |Chain(dom, d).value| && x != y
    requires -1 <= x < |dom| && -1 <= y < |dom|
    requires Chain(dom, x) == Some(Chain(dom, a).value[|Chain(dom, a).value| - n..])
    requires Chain(dom, y) == Some(Chain(dom, d).value[|Chain(dom, d).value| - n..])
    ensures n > 0 && x >= 0 && y >= 0
    ensures Tail(dom, dom[x], a, n - 1) && Tail(dom, dom[y], d, n - 1)
    ensures NearestCommon(Chain(dom, a).value[|Chain(dom, a).value| - n..], Chain(dom, d).value)
         == NearestCommon(Chain(dom, a).value[|Chain(dom, a).value| - (n - 1)..], Chain(dom, d).value)
  {
    LockstepTails(dom, a, d, n, x, y);
    var A, B := Chain(dom, a).value, Chain(dom, d).value;
    AlignedNotCommon(dom, a, d, |A| - n);
    NearestCommonSkip(A[|A| - n..], B);
    assert A[|A| - n..][1..] == A[|A| - (n - 1)..];
  }

  /** Where the two climbs meet: the nearest common block, or null when the chains share none. */
  lemma LockstepMeet(dom: seq<int>, a: nat, d: nat, n: int, x: int)
    requires Tail(dom, x, a, n) && Tail(dom, x, d, n)
    ensures x < 0 ==> NearestCommon(Chain(dom, a).value[|Chain(dom, a).value| - n..], Chain(dom, d).value).None?
    ensures x >= 0 ==> NearestCommon(Chain(dom, a).value[|Chain(dom, a).value| - n..], Chain(dom, d).value) == Some(x)
    ensures x >= 0 ==> Chain(dom, x).Some? && n == |Chain(dom, x).value|
  {
    var A, B := Chain(dom, a).value, Chain(dom, d).value;
    if x < 0 {
      assert A[|A| - n..] == [];
    } else {
      assert A[|A| - n..][0] == x && B[|B| - n..][0] == x;
      assert x in B;
    }
  }

  /**
   * The lockstep climb of `Update`: two blocks at equal remaining length
   * step up together until they meet.  -1 where the source's ASSERT fails:
   * at equal remaining length both chains reach null on the same step.
   */
  method Lockstep(dom: seq<int>, ghost a: nat, ghost d: nat, b: int, b2: int, len: int) returns (r: int, rlen: nat)
    requires Tail(dom, b, a, len) && Tail(dom, b2, d, len)
    ensures -1 <= r < |dom|
    ensures r < 0 <==> NearestCommon(Chain(dom, a).value[|Chain(dom, a).value| - len..], Chain(dom, d).value).None?
    ensures r >= 0 ==> NearestCommon(Chain(dom, a).value[|Chain(dom, a).value| - len..], Chain(dom, d).value) == Some(r)
    ensures r >= 0 ==> Chain(dom, r).Some? && rlen == |Chain(dom, r).value|
  {
    ghost var A, B := Chain(dom, a).value, Chain(dom, d).value;
    var x, y, n := b, b2, len;
    while x != y
      invariant 0 <= n <= len && -1 <= x < |dom| && -1 <= y < |dom|
      invariant Tail(dom, x, a, n) && Tail(dom, y, d, n)
      invariant NearestCommon(A[|A| - len..], B) == NearestCommon(A[|A| - n..], B)
      decreases n
    {
      LockstepStep(dom, a, d, n, x, y);
      x := dom[x];
      y := dom[y];
      n := n - 1;
    }
    LockstepMeet(dom, a, d, n, x);
    if x < 0 {
      return -1, 0;
    }
    r, rlen := x, n;
  }

  /** `CommonDominator`: the common dominator found so far and the length of its chain. */
  class CommonDominator {
    var dominator: int
    var chainLength: nat

    ghost predicate Valid(dom: seq<int>)
      reads this
    {
      DomOk(dom) && dominator < |dom| && Chain(dom, dominator).Some? && chainLength == |Chain(dom, dominator).value|
    }

    /** `CommonDominator(block)`: that block, with its chain length. */
    constructor(dom: seq<int>, block: nat)
      requires DomOk(dom) && block < |dom| && Chain(dom, block).Some?
      ensures Valid(dom) && dominator == block
    {
      dominator := block;
      var l := ChainLength(dom, block);
      chainLength := l.value;
    }

    function Get(): int
      reads this
    {
      dominator
    }

    /**
     * `Update(block)`: adopt the block when there is no dominator yet;
     * otherwise equalise the chain lengths and climb both chains in
     * lockstep until they meet.  ok is false where the source's ASSERT
     * fails: the chains share no block.
     */
    method Update(dom: seq<int>, block: nat) returns (ok: bool)
      requires Valid(dom) && block < |dom| && Chain(dom, block).Some?
      modifies this
      ensures old(dominator) < 0 ==> ok && dominator == block && Valid(dom)
      ensures old(dominator) >= 0 ==>
        ok == NearestCommon(Chain(dom, block).value, Chain(dom, old(dominator)).value).Some?
      ensures old(dominator) >= 0 && ok ==>
        dominator == NearestCommon(Chain(dom, block).value, Chain(dom, old(dominator)).value).value && Valid(dom)
    {
      if dominator < 0 {
        dominator := block;
        var l := ChainLength(dom, block);
        chainLength := l.value;
        return true;
      }
      var b2 := dominator;
      ghost var A, B := Chain(dom, block).value, Chain(dom, b2).value;
      if block == b2 {
        assert FirstCommonAt(A, B, 0);
        return true;
      }
      var l1 := ChainLength(dom, block);
      var len: int, len2: int := l1.value, chainLength;
      assert A[0..] == A && B[0..] == B;
      var b := block;
      if len > len2 {
        forall i | 0 <= i < len - len2
          ensures A[i] !in B
        {
          FarNotCommon(dom, block, b2, i);
        }
        NearestCommonFrom(A, B, len - len2);
        b := ClimbTo(dom, block, block, len, len2);
        len := len2;
      } else if len2 > len {
        b2 := ClimbTo(dom, b2, b2, len2, len);
      }
      var r, rlen := Lockstep(dom, block, dominator, b, b2, len);
      if r < 0 {
        return false;
      }
      dominator := r;
      chainLength := rlen;
      return true;
    }
  }

  /** `CommonDominator::ForPair(a, b)`: the nearest block lying on both dominator chains, None when they share none. */
  method ForPair(dom: seq<int>, a: nat, b: nat) returns (r: Option<nat>)
    requires DomOk(dom) && a < |dom| && b < |dom| && Chain(dom, a).Some? && Chain(dom, b).Some?
    ensures r == NearestCommon(Chain(dom, a).value, Chain(dom, b).value)
    ensures r == NearestCommon(Chain(dom, b).value, Chain(dom, a).value)
  {
    var finder := new CommonDominator(dom, a);
    var ok := finder.Update(dom, b);
    NearestCommonSymmetric(dom, a, b);
    r := if ok then Some(finder.Get()) else None;
  }

  // ---------------------------------------------------------------- acyclic dominators

  /** Each block of a chain takes one unit of fuel. */
  lemma {:induction false} ChainFromLength(dom: seq<int>, b: int, f: nat)
    requires DomOk(dom) && b < |dom| && ChainFrom(dom, b, f).Some?
    ensures |ChainFrom(dom, b, f).value| <= f
    decreases f
  {
    if b >= 0 {
      ChainFromLength(dom, dom[b], f - 1);
    }
  }

  /** Every block on a chain has the rest of that chain as its own chain, with the fuel left. */
  lemma {:induction false} ChainFromSuffix(dom: seq<int>, b: int, f: nat, i: nat)
    requires DomOk(dom) && b < |dom| && ChainFrom(dom, b, f).Some? && i < |ChainFrom(dom, b, f).value|
    ensures i <= f && ChainFrom(dom, ChainFrom(dom, b, f).value[i], f - i) == Some(ChainFrom(dom, b, f).value[i..])
    decreases i
  {
    var c := ChainFrom(dom, b, f).value;
    if i == 0 {
      assert c[0..] == c;
    } else {
      assert b >= 0 && f > 0;
      var rest := ChainFrom(dom, dom[b], f - 1).value;
      assert c == [b] + rest;
      ChainFromSuffix(dom, dom[b], f - 1, i - 1);
      assert c[i] == rest[i - 1] && c[i..] == rest[i - 1..];
    }
  }

  /** A chain that reaches null visits no block twice. */
  lemma ChainFromDistinct(dom: seq<int>, b: int, f: nat)
    requires DomOk(dom) && b < |dom| && ChainFrom(dom, b, f).Some?
    ensures Distinct(ChainFrom(dom, b, f).value)
  {
    var c := ChainFrom(dom, b, f).value;
    forall i, j | 0 <= i < j < |c|
      ensures c[i] != c[j]
    {
      ChainFromSuffix(dom, b, f, i);
      ChainFromSuffix(dom, b, f, j);
      FuelMonotone(dom, c[j], f - j, f - i);
      assert |c[i..]| != |c[j..]|;
    }
  }

  /** A chain found with some fuel is found with exactly its length as fuel. */
  lemma {:induction false} FuelShrink(dom: seq<int>, b: int, f: nat)
    requires DomOk(dom) && b < |dom| && ChainFrom(dom, b, f).Some?
    ensures ChainFrom(dom, b, |ChainFrom(dom, b, f).value|) == ChainFrom(dom, b, f)
    decreases f
  {
    if b >= 0 {
      FuelShrink(dom, dom[b], f - 1);
    }
  }

  /** A chain that reaches null with any fuel is the chain of the block. */
  lemma ChainOfSome(dom: seq<int>, b: int, f: nat)
    requires DomOk(dom) && b < |dom| && ChainFrom(dom, b, f).Some?
    ensures Chain(dom, b) == ChainFrom(dom, b, f)
  {
    var c := ChainFrom(dom, b, f).value;
    ChainFromDistinct(dom, b, f);
    DistinctBound(c, |dom|);
    FuelShrink(dom, b, f);
    FuelMonotone(dom, b, |c|, |dom|);
  }

  /** `rank` strictly decreases from every block to its dominator. */
  ghost predicate Ranked(dom: seq<int>, rank: seq<nat>)
  {
    DomOk(dom) && |rank| == |dom| && forall b :: 0 <= b < |dom| && dom[b] >= 0 ==> rank[dom[b]] < rank[b]
  }

  lemma {:induction false} RankedChainFrom(dom: seq<int>, rank: seq<nat>, b: int, f: nat)
    requires Ranked(dom, rank) && b < |dom| && (b < 0 || rank[b] < f)
    ensures ChainFrom(dom, b, f).Some?
    decreases f
  {
    if b >= 0 {
      RankedChainFrom(dom, rank, dom[b], f - 1);
    }
  }

  /** Dominators ranked by a decreasing measure form no cycle. */
  lemma RankedAcyclic(dom: seq<int>, rank: seq<nat>)
    requires Ranked(dom, rank)
    ensures Acyclic(dom)
  {
    forall b | 0 <= b < |dom|
      ensures Chain(dom, b).Some?
    {
      RankedChainFrom(dom, rank, b, rank[b] + 1);
      ChainOfSome(dom, b, rank[b] + 1);
    }
  }

  /** Ranks do not grow along a chain. */
  lemma {:induction false} RankOnChain(dom: seq<int>, rank: seq<nat>, b: nat, i: nat)
    requires Ranked(dom, rank) && b < |dom| && Chain(dom, b).Some? && i < |Chain(dom, b).value|
    ensures rank[Chain(dom, b).value[i]] <= rank[b]
    decreases i
  {
    if i > 0 {
      ChainStep(dom, b);
      var c' := Chain(dom, dom[b]).value;
      assert Chain(dom, b).value[i] == c'[i - 1];
      RankOnChain(dom, rank, dom[b], i - 1);
    }
  }

  /** A block is reached once it is the entry or has a dominator. */
  predicate Reached(dom: seq<int>, b: nat)
    requires b < |dom|
  {
    b == 0 || dom[b] >= 0
  }

  /** A dominator is the entry or a block that has a dominator itself. */
  ghost predicate Closed(dom: seq<int>)
  {
    DomOk(dom) && forall b :: 0 <= b < |dom| && dom[b] >= 0 ==> dom[b] == 0 || dom[dom[b]] >= 0
  }

  /** The dominators form a tree below the entry, whose own dominator is null. */
  ghost predicate Rooted(dom: seq<int>, rank: seq<nat>)
  {
    |dom| > 0 && Ranked(dom, rank) && Closed(dom) && dom[0] == -1
  }

  /** The chain of a reached block runs through reached blocks to the entry. */
  lemma {:induction false} ReachedChainEnds(dom: seq<int>, rank: seq<nat>, b: nat)
    requires Rooted(dom, rank) && b < |dom| && Reached(dom, b)
    ensures Chain(dom, b).Some? && 0 in Chain(dom, b).value
    ensures forall k :: 0 <= k < |Chain(dom, b).value| ==> Reached(dom, Chain(dom, b).value[k])
    decreases rank[b]
  {
    RankedAcyclic(dom, rank);
    ChainStep(dom, b);
    var c := Chain(dom, b).value;
    if dom[b] >= 0 {
      ReachedChainEnds(dom, rank, dom[b]);
      var c' := Chain(dom, dom[b]).value;
      forall k | 0 <= k < |c|
        ensures Reached(dom, c[k])
      {
        if k > 0 {
          assert c[k] == c'[k - 1];
        }
      }
    }
  }

  // ---------------------------------------------------------------- UpdateDominatorOfSuccessor

  /**
   * The new dominator of successor s reached from `block`: the block itself
   * while s has none, otherwise the common dominator of the old one and the
   * block.  None where the source never returns (a cyclic chain) or its
   * ASSERT fails (no common block).
   */
  function DominatorUpdate(dom: seq<int>, block: nat, s: nat): (r: Option<nat>)
    requires DomOk(dom) && block < |dom| && s < |dom|
    ensures dom[s] < 0 ==> r == Some(block)
    ensures dom[s] >= 0 ==>
      (r.Some? <==> (Chain(dom, dom[s]).Some? && Chain(dom, block).Some? &&
                     exists i :: 0 <= i < |Chain(dom, dom[s]).value| && Chain(dom, dom[s]).value[i] in Chain(dom, block).value))
    ensures r.Some? && dom[s] >= 0 ==> r.value in Chain(dom, dom[s]).value && r.value in Chain(dom, block).value
  {
    if dom[s] < 0 then Some(block)
    else if Chain(dom, dom[s]).None? || Chain(dom, block).None? then None
    else NearestCommon(Chain(dom, dom[s]).value, Chain(dom, block).value)
  }

  /**
   * `UpdateDominatorOfSuccessor(block, successor)`: store the new
   * dominator; `changed` is the source's return value.
   */
  method UpdateDominatorOfSuccessor(dom: seq<int>, succs: seq<seq<nat>>, block: nat, s: nat)
    returns (ok: bool, dom': seq<int>, changed: bool)
    requires DomOk(dom) && block < |dom| && s < |dom| && |succs| == |dom| && s in succs[block]
    ensures ok == DominatorUpdate(dom, block, s).Some?
    ensures ok ==> dom' == dom[s := DominatorUpdate(dom, block, s).value]
    ensures ok ==> changed == (dom[s] != DominatorUpdate(dom, block, s).value)
    ensures !ok ==> dom' == dom && !changed
  {
    var prev := dom[s];
    var nd: nat;
    if prev < 0 {
      nd := block;
    } else {
      var l := ChainLength(dom, prev);
      if l.None? {
        return false, dom, false;
      }
      if block != prev {
        var l2 := ChainLength(dom, block);
        if l2.None? {
          return false, dom, false;
        }
      }
      var r := ForPair(dom, prev, block);
      if r.None? {
        return false, dom, false;
      }
      nd := r.value;
    }
    if prev == nd {
      assert dom[s := nd] == dom;
      return true, dom, false;
    }
    return true, dom[s := nd], true;
  }

  /** The first dominator of a block other than the entry keeps the tree rooted. */
  lemma FirstUpdateKeepsRooted(dom: seq<int>, rank: seq<nat>, block: nat, s: nat) returns (rank': seq<nat>)
    requires Rooted(dom, rank) && block < |dom| && s < |dom| && Reached(dom, block) && s != 0 && dom[s] < 0
    ensures Rooted(dom[s := block], rank')
  {
    var d' := dom[s := block];
    rank' := rank[s := rank[block] + 1];
    forall b | 0 <= b < |d'| && d'[b] >= 0
      ensures rank'[d'[b]] < rank'[b]
    {
      if b != s {
        assert dom[b] != s;
      }
    }
    forall b | 0 <= b < |d'| && d'[b] >= 0
      ensures d'[b] == 0 || d'[d'[b]] >= 0
    {
      if b != s {
        assert dom[b] != s;
      }
    }
  }

  /** Moving a dominator up to the common dominator keeps the tree rooted. */
  lemma LaterUpdateKeepsRooted(dom: seq<int>, rank: seq<nat>, block: nat, s: nat)
    requires Rooted(dom, rank) && block < |dom| && s < |dom| && Reached(dom, block) && dom[s] >= 0
    ensures DominatorUpdate(dom, block, s).Some?
    ensures Rooted(dom[s := DominatorUpdate(dom, block, s).value], rank)
  {
    var d := dom[s];
    ReachedChainEnds(dom, rank, block);
    ReachedChainEnds(dom, rank, d);
    var ca, cb := Chain(dom, d).value, Chain(dom, block).value;
    var z :| 0 <= z < |ca| && ca[z] == 0;
    assert ca[z] in cb;
    var r := DominatorUpdate(dom, block, s).value;
    var i :| 0 <= i < |ca| && ca[i] == r;
    RankOnChain(dom, rank, d, i);
    var j :| 0 <= j < |cb| && cb[j] == r;
    assert Reached(dom, cb[j]);
    var d' := dom[s := r];
    forall b | 0 <= b < |d'| && d'[b] >= 0
      ensures d'[b] == 0 || d'[d'[b]] >= 0
    {
      if b != s && dom[b] != s {
        assert d'[d'[b]] == dom[dom[b]];
      }
    }
  }

  /**
   * `UpdateDominatorOfSuccessor` as written, on an edge back into the
   * entry: the entry's null dominator is taken as "no dominator yet", the
   * entry gets the block as dominator, and the chains become a cycle.
   */
  lemma EntryBackEdgeMakesCycle()
    ensures DomOk([-1, 0]) && DominatorUpdate([-1, 0], 1, 0) == Some(1)
    ensures DomOk([1, 0]) && Chain([1, 0], 0).None?
  {
    assert ChainFrom([1, 0], 0, 0).None?;
    assert ChainFrom([1, 0], 1, 1).None?;
  }

  // ---------------------------------------------------------------- ComputeDominanceInformation

  /** Every successor is a block. */
  ghost predicate SuccsOk(succs: seq<seq<nat>>)
  {
    forall b, k :: 0 <= b < |succs| && 0 <= k < |succs[b]| ==> succs[b][k] < |succs|
  }

  /** No block has a dominator yet. */
  predicate AllNull(dom: seq<int>)
  {
    forall b :: 0 <= b < |dom| ==> dom[b] == -1
  }

  /**
   * The state of the dominance walk: the dominators, `successors_visited`
   * and `visits` per block, the worklist and the RPO list.
   */
  datatype Walk = Walk(dom: seq<int>, done: seq<nat>, visits: seq<nat>, worklist: seq<nat>, rpo: seq<nat>)

  ghost predicate Shaped(succs: seq<seq<nat>>, threshold: seq<int>, w: Walk)
  {
    && SuccsOk(succs) && |succs| > 0 && |threshold| == |succs|
    && |w.dom| == |succs| && |w.done| == |succs| && |w.visits| == |succs| && DomOk(w.dom)
    && (forall b :: 0 <= b < |succs| ==> w.done[b] <= |succs[b]|)
    && (forall k :: 0 <= k < |w.worklist| ==> w.worklist[k] < |succs|)
    && (forall k :: 0 <= k < |w.rpo| ==> w.rpo[k] < |succs|)
  }

  /** The successors still to visit, over all blocks: what the walk uses up. */
  function Left(succs: seq<seq<nat>>, done: seq<nat>): nat
    requires |done| == |succs| && forall b :: 0 <= b < |succs| ==> done[b] <= |succs[b]|
  {
    if succs == [] then 0
    else Left(succs[..|succs| - 1], done[..|done| - 1]) + (|succs[|succs| - 1]| - done[|done| - 1])
  }

  /** Visiting one more successor of c uses up one. */
  lemma {:induction false} LeftStep(succs: seq<seq<nat>>, done: seq<nat>, c: nat)
    requires |done| == |succs| && forall b :: 0 <= b < |succs| ==> done[b] <= |succs[b]|
    requires c < |succs| && done[c] < |succs[c]|
    ensures Left(succs, done[c := done[c] + 1]) + 1 == Left(succs, done)
    decreases |succs|
  {
    var n := |succs| - 1;
    var d' := done[c := done[c] + 1];
    if c < n {
      assert d'[..n] == done[..n][c := done[c] + 1];
      LeftStep(succs[..n], done[..n], c);
    } else {
      assert d'[..n] == done[..n];
    }
  }

  function Popped(w: Walk): Walk
    requires |w.worklist| > 0
  {
    w.(worklist := w.worklist[..|w.worklist| - 1])
  }

  function Advanced(w: Walk, c: nat): Walk
    requires c < |w.done|
  {
    w.(done := w.done[c := w.done[c] + 1])
  }

  /**
   * Successor s with its new dominator and one more visit; once the visits
   * reach its threshold it is appended to the RPO and pushed.
   */
  function Visited(w: Walk, s: nat, nd: nat, t: int): Walk
    requires s < |w.dom| && s < |w.visits|
  {
    var w2 := w.(dom := w.dom[s := nd], visits := w.visits[s := w.visits[s] + 1]);
    if w.visits[s] + 1 == t then w2.(rpo := w2.rpo + [s], worklist := w2.worklist + [s]) else w2
  }

  /**
   * One turn of the loop of `ComputeDominanceInformation`: pop a block
   * whose successors are all visited, or visit its next successor.  With
   * `skipEntry` an edge into the entry is passed over.  None where
   * UpdateDominatorOfSuccessor does not return or its ASSERT fails.
   */
  function StepOf(succs: seq<seq<nat>>, threshold: seq<int>, skipEntry: bool, w: Walk): Option<Walk>
    requires Shaped(succs, threshold, w) && |w.worklist| > 0
  {
    var cur := w.worklist[|w.worklist| - 1];
    if w.done[cur] == |succs[cur]| then Some(Popped(w))
    else
      var s := succs[cur][w.done[cur]];
      if skipEntry && s == 0 then Some(Advanced(w, cur))
      else
        var nd :- DominatorUpdate(w.dom, cur, s);
        Some(Visited(Advanced(w, cur), s, nd, threshold[s]))
  }

  /** A turn keeps the state well formed and uses up a successor or pops the worklist. */
  lemma StepShaped(succs: seq<seq<nat>>, threshold: seq<int>, skipEntry: bool, w: Walk)
    requires Shaped(succs, threshold, w) && |w.worklist| > 0 && StepOf(succs, threshold, skipEntry, w).Some?
    ensures Shaped(succs, threshold, StepOf(succs, threshold, skipEntry, w).value)
    ensures Left(succs, StepOf(succs, threshold, skipEntry, w).value.done) < Left(succs, w.done)
         || (Left(succs, StepOf(succs, threshold, skipEntry, w).value.done) == Left(succs, w.done) &&
             |StepOf(succs, threshold, skipEntry, w).value.worklist| < |w.worklist|)
  {
    var cur := w.worklist[|w.worklist| - 1];
    if w.done[cur] < |succs[cur]| {
      AdvancedShaped(succs, threshold, w, cur);
      var s := succs[cur][w.done[cur]];
      if !(skipEntry && s == 0) {
        VisitedShaped(succs, threshold, w, cur, s);
      }
    }
  }

  /** Using up a successor of cur keeps the walk well formed and leaves one successor fewer. */
  lemma AdvancedShaped(succs: seq<seq<nat>>, threshold: seq<int>, w: Walk, cur: nat)
    requires Shaped(succs, threshold, w) && cur < |succs| && w.done[cur] < |succs[cur]|
    ensures Shaped(succs, threshold, Advanced(w, cur))
    ensures Left(succs, Advanced(w, cur).done) < Left(succs, w.done)
  {
    LeftStep(succs, w.done, cur);
  }

  /** Visiting successor s of cur with the dominator the update found keeps the walk well formed. */
  lemma VisitedShaped(succs: seq<seq<nat>>, threshold: seq<int>, w: Walk, cur: nat, s: nat)
    requires Shaped(succs, threshold, w) && cur < |succs| && w.done[cur] < |succs[cur]| && s == succs[cur][w.done[cur]]
    requires DominatorUpdate(w.dom, cur, s).Some?
    ensures Shaped(succs, threshold, Visited(Advanced(w, cur), s, DominatorUpdate(w.dom, cur, s).value, threshold[s]))
  {
  }

  /**
   * What the walk appends to the RPO list: each block at most once, the
   * entry first when it is added up front, and every other block exactly
   * when its visits have reached its threshold (its forward predecessors).
   */
  ghost predicate Counted(succs: seq<seq<nat>>, threshold: seq<int>, skipEntry: bool, rpo0: seq<nat>, w: Walk)
    requires Shaped(succs, threshold, w)
  {
    && |rpo0| <= |w.rpo| && w.rpo[..|rpo0|] == rpo0
    && Distinct(w.rpo[|rpo0|..])
    && (skipEntry ==> |rpo0| < |w.rpo| && w.rpo[|rpo0|] == 0)
    && forall b :: 0 <= b < |succs| && (b != 0 || !skipEntry) ==>
         (b in w.rpo[|rpo0|..] <==> 1 <= threshold[b] <= w.visits[b])
  }

  lemma StepCounted(succs: seq<seq<nat>>, threshold: seq<int>, skipEntry: bool, rpo0: seq<nat>, w: Walk)
    requires Shaped(succs, threshold, w) && |w.worklist| > 0 && StepOf(succs, threshold, skipEntry, w).Some?
    requires Counted(succs, threshold, skipEntry, rpo0, w)
    ensures Counted(succs, threshold, skipEntry, rpo0, StepOf(succs, threshold, skipEntry, w).value)
  {
    StepShaped(succs, threshold, skipEntry, w);
    var w' := StepOf(succs, threshold, skipEntry, w).value;
    var cur := w.worklist[|w.worklist| - 1];
    if w.done[cur] < |succs[cur]| {
      var s := succs[cur][w.done[cur]];
      if !(skipEntry && s == 0) && w.visits[s] + 1 == threshold[s] {
        var app, app' := w.rpo[|rpo0|..], w'.rpo[|rpo0|..];
        assert s !in app;
        assert app' == app + [s];
        assert w'.rpo[..|rpo0|] == w.rpo[..|rpo0|];
        forall i, j | 0 <= i < j < |app'|
          ensures app'[i] != app'[j]
        {
          if j == |app| {
            assert app'[i] == app[i];
          }
        }
      } else {
        assert w'.rpo == w.rpo;
      }
    }
  }

  /**
   * The corrected walk's invariant: a rooted dominator tree, and every
   * block on the worklist or appended to the RPO list is reached.
   */
  ghost predicate Sound(w: Walk, rank: seq<nat>, rpo0: seq<nat>)
  {
    && Rooted(w.dom, rank) && |rpo0| <= |w.rpo|
    && (forall k :: 0 <= k < |w.worklist| ==> w.worklist[k] < |w.dom| && Reached(w.dom, w.worklist[k]))
    && (forall k :: |rpo0| <= k < |w.rpo| ==> w.rpo[k] < |w.dom| && Reached(w.dom, w.rpo[k]))
  }

  /** With edges into the entry passed over, a turn never fails and keeps the tree rooted. */
  lemma StepSound(succs: seq<seq<nat>>, threshold: seq<int>, w: Walk, rank: seq<nat>, rpo0: seq<nat>)
    returns (rank': seq<nat>)
    requires Shaped(succs, threshold, w) && |w.worklist| > 0 && Sound(w, rank, rpo0)
    ensures StepOf(succs, threshold, true, w).Some?
    ensures Sound(StepOf(succs, threshold, true, w).value, rank', rpo0)
  {
    rank' := rank;
    var cur := w.worklist[|w.worklist| - 1];
    assert Reached(w.dom, cur);
    if w.done[cur] < |succs[cur]| {
      var s := succs[cur][w.done[cur]];
      if s != 0 {
        if w.dom[s] < 0 {
          rank' := FirstUpdateKeepsRooted(w.dom, rank, cur, s);
        } else {
          LaterUpdateKeepsRooted(w.dom, rank, cur, s);
        }
        var nd := DominatorUpdate(w.dom, cur, s).value;
        var w' := StepOf(succs, threshold, true, w).value;
        assert w' == Visited(Advanced(w, cur), s, nd, threshold[s]);
        assert w'.dom == w.dom[s := nd];
        forall b | 0 <= b < |w.dom| && Reached(w.dom, b)
          ensures Reached(w'.dom, b)
        {
        }
      }
    }
  }

  /** One turn of the loop, computed as the source does, through UpdateDominatorOfSuccessor. */
  method Step(succs: seq<seq<nat>>, threshold: seq<int>, skipEntry: bool, w: Walk) returns (r: Option<Walk>)
    requires Shaped(succs, threshold, w) && |w.worklist| > 0
    ensures r == StepOf(succs, threshold, skipEntry, w)
  {
    var cur := w.worklist[|w.worklist| - 1];
    if w.done[cur] == |succs[cur]| {
      return Some(Popped(w));
    }
    var s := succs[cur][w.done[cur]];
    var w1 := Advanced(w, cur);
    if skipEntry && s == 0 {
      return Some(w1);
    }
    var ok, dom', _ := UpdateDominatorOfSuccessor(w.dom, succs, cur, s);
    if !ok {
      return None;
    }
    var nd: nat := DominatorUpdate(w.dom, cur, s).value;
    assert dom' == w1.dom[s := nd];
    r := Some(Visited(w1, s, dom'[s], threshold[s]));
  }

  /** The state before the loop: only the entry on the worklist, and first in the RPO list when `skipEntry`. */
  function StartOf(n: nat, skipEntry: bool, dom0: seq<int>, rpo0: seq<nat>): Walk
  {
    Walk(dom0, seq(n, _ => 0), seq(n, _ => 0), [0], if skipEntry then rpo0 + [0] else rpo0)
  }

  lemma StartSound(succs: seq<seq<nat>>, threshold: seq<int>, skipEntry: bool, dom0: seq<int>, rpo0: seq<nat>)
    requires SuccsOk(succs) && |succs| > 0 && |threshold| == |succs| && |dom0| == |succs| && DomOk(dom0)
    requires forall k :: 0 <= k < |rpo0| ==> rpo0[k] < |succs|
    ensures Shaped(succs, threshold, StartOf(|succs|, skipEntry, dom0, rpo0))
    ensures Counted(succs, threshold, skipEntry, rpo0, StartOf(|succs|, skipEntry, dom0, rpo0))
    ensures skipEntry && AllNull(dom0) ==> Sound(StartOf(|succs|, skipEntry, dom0, rpo0), seq(|succs|, _ => 0), rpo0)
  {
    var w := StartOf(|succs|, skipEntry, dom0, rpo0);
    assert w.rpo[..|rpo0|] == rpo0;
    if skipEntry {
      assert w.rpo[|rpo0|..] == [0];
    } else {
      assert w.rpo[|rpo0|..] == [];
    }
  }

  /**
   * The loop of `ComputeDominanceInformation` from the entry (block 0),
   * appending to the RPO list `rpo0`; `skipEntry` chooses between the code
   * as written (false) and the corrected walk (true), which puts the entry
   * first in the RPO list and passes over edges into the entry.  ok is
   * false where UpdateDominatorOfSuccessor does not return or its ASSERT
   * fails.
   */
  method DominanceWalk(succs: seq<seq<nat>>, threshold: seq<int>, skipEntry: bool, dom0: seq<int>, rpo0: seq<nat>)
    returns (ok: bool, w: Walk)
    requires SuccsOk(succs) && |succs| > 0 && |threshold| == |succs| && |dom0| == |succs| && DomOk(dom0)
    requires forall k :: 0 <= k < |rpo0| ==> rpo0[k] < |succs|
    ensures Shaped(succs, threshold, w) && Counted(succs, threshold, skipEntry, rpo0, w)
    ensures ok ==> w.worklist == []
    ensures skipEntry && AllNull(dom0) ==> ok && Acyclic(w.dom) && w.dom[0] == -1
    ensures skipEntry && AllNull(dom0) ==> forall k :: |rpo0| <= k < |w.rpo| ==> Reached(w.dom, w.rpo[k])
  {
    w := StartOf(|succs|, skipEntry, dom0, rpo0);
    ghost var rank: seq<nat> := seq(|succs|, _ => 0);
    ghost var sound := skipEntry && AllNull(dom0);
    StartSound(succs, threshold, skipEntry, dom0, rpo0);
    while |w.worklist| > 0
      invariant Shaped(succs, threshold, w) && Counted(succs, threshold, skipEntry, rpo0, w)
      invariant sound ==> Sound(w, rank, rpo0)
      decreases Left(succs, w.done), |w.worklist|
    {
      var r := Step(succs, threshold, skipEntry, w);
      if sound {
        rank := StepSound(succs, threshold, w, rank, rpo0);
      }
      if r.None? {
        return false, w;
      }
      StepShaped(succs, threshold, skipEntry, w);
      StepCounted(succs, threshold, skipEntry, rpo0, w);
      w := r.value;
    }
    if sound {
      RankedAcyclic(w.dom, rank);
    }
    return true, w;
  }

  // ---------------------------------------------------------------- FindBackEdges

  /** p is a path along successor edges. */
  ghost predicate IsPath(succs: seq<seq<nat>>, p: seq<nat>)
  {
    && (forall k :: 0 <= k < |p| ==> p[k] < |succs|)
    && (forall k :: 0 <= k < |p| - 1 ==> p[k + 1] in succs[p[k]])
  }

  /** Block b can be reached from block a along successor edges. */
  ghost predicate Reaches(succs: seq<seq<nat>>, a: nat, b: nat)
  {
    exists p :: IsPath(succs, p) && |p| > 0 && p[0] == a && p[|p| - 1] == b
  }

  lemma ReachesStep(succs: seq<seq<nat>>, a: nat, b: nat, c: nat)
    requires Reaches(succs, a, b) && b < |succs| && c in succs[b] && c < |succs|
    ensures Reaches(succs, a, c)
  {
    var p :| IsPath(succs, p) && |p| > 0 && p[0] == a && p[|p| - 1] == b;
    var q := p + [c];
    assert q[|q| - 1] == c && q[0] == a;
    assert IsPath(succs, q);
  }

  /** The number of false entries. */
  function CountFalse(v: seq<bool>): (r: nat)
    ensures r <= |v|
  {
    if v == [] then 0 else CountFalse(v[..|v| - 1]) + (if v[|v| - 1] then 0 else 1)
  }

  lemma {:induction false} CountFalseSet(v: seq<bool>, i: nat)
    requires i < |v| && !v[i]
    ensures CountFalse(v[i := true]) + 1 == CountFalse(v)
    decreases |v|
  {
    var n := |v| - 1;
    var v' := v[i := true];
    if i < n {
      assert v'[..n] == v[..n][i := true];
      CountFalseSet(v[..n], i);
    } else {
      assert v'[..n] == v[..n];
    }
  }

  /**
   * The state of the depth-first search of `FindBackEdges`: `visited`,
   * `visiting`, `successors_visited`, the worklist, and per block the
   * sources of its back edges in the order they were added.
   */
  datatype Dfs = Dfs(visited: seq<bool>, visiting: seq<bool>, done: seq<nat>, worklist: seq<nat>, back: seq<seq<nat>>)

  ghost predicate DfsShaped(succs: seq<seq<nat>>, d: Dfs)
  {
    && SuccsOk(succs) && |succs| > 0
    && |d.visited| == |succs| && |d.visiting| == |succs| && |d.done| == |succs| && |d.back| == |succs|
    && (forall b :: 0 <= b < |succs| ==> d.done[b] <= |succs[b]|)
    && (forall k :: 0 <= k < |d.worklist| ==> d.worklist[k] < |succs|)
  }

  function Finished(d: Dfs): Dfs
    requires |d.worklist| > 0 && d.worklist[|d.worklist| - 1] < |d.visiting|
  {
    d.(visiting := d.visiting[d.worklist[|d.worklist| - 1] := false], worklist := d.worklist[..|d.worklist| - 1])
  }

  function NextSuccessor(d: Dfs, c: nat): Dfs
    requires c < |d.done|
  {
    d.(done := d.done[c := d.done[c] + 1])
  }

  function WithBackEdge(d: Dfs, s: nat, c: nat): Dfs
    requires s < |d.back|
  {
    d.(back := d.back[s := d.back[s] + [c]])
  }

  function Discovered(d: Dfs, s: nat): Dfs
    requires s < |d.visited| && s < |d.visiting|
  {
    d.(visited := d.visited[s := true], visiting := d.visiting[s := true], worklist := d.worklist + [s])
  }

  /**
   * One turn of the search: leave a block whose successors are all seen,
   * or take its next successor, which closes a back edge when it is being
   * visited and is pushed when it was never visited.
   */
  function DfsStepOf(succs: seq<seq<nat>>, d: Dfs): Dfs
    requires DfsShaped(succs, d) && |d.worklist| > 0
  {
    var cur := d.worklist[|d.worklist| - 1];
    if d.done[cur] == |succs[cur]| then Finished(d)
    else
      var s := succs[cur][d.done[cur]];
      var d1 := NextSuccessor(d, cur);
      if d.visiting[s] then WithBackEdge(d1, s, cur)
      else if !d.visited[s] then Discovered(d1, s)
      else d1
  }

  /**
   * The search's invariant: the worklist is a path from the entry of
   * distinct blocks, exactly the ones being visited; every visited block is
   * reachable from the entry; a block left behind had all its successors
   * seen; seen successors are visited; every back edge is an edge that
   * closes a cycle.
   */
  ghost predicate DfsInv(succs: seq<seq<nat>>, d: Dfs)
    requires DfsShaped(succs, d)
  {
    && WorkPath(succs, d.visited, d.visiting, d.worklist)
    && Explored(succs, d.visited, d.visiting, d.done)
    && BackOk(succs, d.back)
  }

  ghost predicate WorkPath(succs: seq<seq<nat>>, visited: seq<bool>, visiting: seq<bool>, wl: seq<nat>)
    requires |visited| == |succs| > 0 && |visiting| == |succs|
  {
    && visited[0]
    && (|wl| > 0 ==> wl[0] == 0)
    && IsPath(succs, wl) && Distinct(wl)
    && (forall b :: 0 <= b < |succs| ==> (visiting[b] <==> b in wl))
    && (forall b :: 0 <= b < |succs| && visiting[b] ==> visited[b])
  }

  ghost predicate Explored(succs: seq<seq<nat>>, visited: seq<bool>, visiting: seq<bool>, done: seq<nat>)
    requires SuccsOk(succs) && |visited| == |succs| && |visiting| == |succs| && |done| == |succs|
    requires forall b :: 0 <= b < |succs| ==> done[b] <= |succs[b]|
  {
    && (forall b :: 0 <= b < |succs| && !visited[b] ==> done[b] == 0)
    && (forall b :: 0 <= b < |succs| && visited[b] ==> Reaches(succs, 0, b))
    && (forall b :: 0 <= b < |succs| && visited[b] && !visiting[b] ==> done[b] == |succs[b]|)
    && (forall b, k :: 0 <= b < |succs| && 0 <= k < done[b] ==> visited[succs[b][k]])
  }

  ghost predicate BackOk(succs: seq<seq<nat>>, back: seq<seq<nat>>)
    requires |back| == |succs|
  {
    forall s, k :: 0 <= s < |succs| && 0 <= k < |back[s]| ==>
      back[s][k] < |succs| && s in succs[back[s][k]] && Reaches(succs, s, back[s][k])
  }

  /** The worklist, a path, leads from each of its blocks to its top. */
  lemma PathReaches(succs: seq<seq<nat>>, wl: seq<nat>, i: nat)
    requires IsPath(succs, wl) && i < |wl|
    ensures Reaches(succs, wl[i], wl[|wl| - 1])
  {
    var p := wl[i..];
    assert IsPath(succs, p) by {
      forall k | 0 <= k < |p| - 1 ensures p[k + 1] in succs[p[k]] {
        assert p[k] == wl[i + k] && p[k + 1] == wl[i + k + 1];
      }
    }
    assert p[0] == wl[i] && p[|p| - 1] == wl[|wl| - 1];
  }

  /** A successor of the top that is on the worklist reaches the top. */
  lemma BackEdgeCloses(succs: seq<seq<nat>>, wl: seq<nat>, s: nat)
    requires IsPath(succs, wl) && s in wl
    ensures Reaches(succs, s, wl[|wl| - 1])
  {
    var i :| 0 <= i < |wl| && wl[i] == s;
    PathReaches(succs, wl, i);
  }

  lemma BackOkAdd(succs: seq<seq<nat>>, back: seq<seq<nat>>, s: nat, c: nat)
    requires |back| == |succs| && BackOk(succs, back) && s < |succs| && c < |succs| && s in succs[c] && Reaches(succs, s, c)
    ensures BackOk(succs, back[s := back[s] + [c]])
  {
    var back' := back[s := back[s] + [c]];
    forall t, k | 0 <= t < |succs| && 0 <= k < |back'[t]|
      ensures back'[t][k] < |succs| && t in succs[back'[t][k]] && Reaches(succs, t, back'[t][k])
    {
      if t != s || k < |back[s]| {
        assert back'[t][k] == back[t][k];
      }
    }
  }

  /** Taking the next successor of the top block, already visited, keeps the search explored. */
  lemma SeenKeepsExplored(succs: seq<seq<nat>>, visited: seq<bool>, visiting: seq<bool>, done: seq<nat>, cur: nat)
    requires SuccsOk(succs) && |visited| == |succs| && |visiting| == |succs| && |done| == |succs|
    requires forall b :: 0 <= b < |succs| ==> done[b] <= |succs[b]|
    requires Explored(succs, visited, visiting, done)
    requires cur < |succs| && visiting[cur] && visited[cur] && done[cur] < |succs[cur]| && visited[succs[cur][done[cur]]]
    ensures Explored(succs, visited, visiting, done[cur := done[cur] + 1])
  {
    var done' := done[cur := done[cur] + 1];
    forall b, k | 0 <= b < |succs| && 0 <= k < done'[b]
      ensures visited[succs[b][k]]
    {
      if b != cur || k < done[cur] {
        assert k < done[b];
      }
    }
  }

  lemma PopKeepsWorkPath(succs: seq<seq<nat>>, visited: seq<bool>, visiting: seq<bool>, wl: seq<nat>)
    requires |visited| == |succs| > 0 && |visiting| == |succs| && |wl| > 0 && wl[|wl| - 1] < |succs|
    requires WorkPath(succs, visited, visiting, wl)
    ensures WorkPath(succs, visited, visiting[wl[|wl| - 1] := false], wl[..|wl| - 1])
  {
    var n := |wl| - 1;
    var cur := wl[n];
    var wl' := wl[..n];
    var visiting' := visiting[cur := false];
    assert cur !in wl' by {
      forall k | 0 <= k < n ensures wl[k] != cur {
      }
    }
    forall b | 0 <= b < |succs|
      ensures visiting'[b] <==> b in wl'
    {
      if b in wl && b != cur {
        var k :| 0 <= k < |wl| && wl[k] == b;
        assert wl'[k] == b;
      }
    }
  }

  lemma PopKeepsExplored(succs: seq<seq<nat>>, visited: seq<bool>, visiting: seq<bool>, done: seq<nat>, cur: nat)
    requires SuccsOk(succs) && |visited| == |succs| && |visiting| == |succs| && |done| == |succs|
    requires forall b :: 0 <= b < |succs| ==> done[b] <= |succs[b]|
    requires Explored(succs, visited, visiting, done) && cur < |succs| && done[cur] == |succs[cur]|
    ensures Explored(succs, visited, visiting[cur := false], done)
  {
  }

  lemma PushKeepsWorkPath(succs: seq<seq<nat>>, visited: seq<bool>, visiting: seq<bool>, wl: seq<nat>, s: nat)
    requires |visited| == |succs| > 0 && |visiting| == |succs| && |wl| > 0 && s < |succs|
    requires WorkPath(succs, visited, visiting, wl) && !visited[s] && s in succs[wl[|wl| - 1]]
    ensures WorkPath(succs, visited[s := true], visiting[s := true], wl + [s])
  {
    var wl' := wl + [s];
    var visiting' := visiting[s := true];
    assert s !in wl;
    forall b | 0 <= b < |succs|
      ensures visiting'[b] <==> b in wl'
    {
      if b in wl {
        var k :| 0 <= k < |wl| && wl[k] == b;
        assert wl'[k] == b;
      }
    }
    assert IsPath(succs, wl') by {
      forall k | 0 <= k < |wl'| - 1 ensures wl'[k + 1] in succs[wl'[k]] {
        if k < |wl| - 1 {
          assert wl'[k] == wl[k] && wl'[k + 1] == wl[k + 1];
        }
      }
    }
    assert Distinct(wl') by {
      forall a, b | 0 <= a < b < |wl'| ensures wl'[a] != wl'[b] {
        assert wl'[a] == wl[a];
      }
    }
  }

  lemma PushKeepsExplored(succs: seq<seq<nat>>, visited: seq<bool>, visiting: seq<bool>, done: seq<nat>, cur: nat)
    requires SuccsOk(succs) && |visited| == |succs| && |visiting| == |succs| && |done| == |succs|
    requires forall b :: 0 <= b < |succs| ==> done[b] <= |succs[b]|
    requires Explored(succs, visited, visiting, done)
    requires cur < |succs| && visiting[cur] && visited[cur] && done[cur] < |succs[cur]| && !visited[succs[cur][done[cur]]]
    ensures Explored(succs, visited[succs[cur][done[cur]] := true], visiting[succs[cur][done[cur]] := true], done[cur := done[cur] + 1])
  {
    var s := succs[cur][done[cur]];
    ReachesStep(succs, 0, cur, s);
    var visited', done' := visited[s := true], done[cur := done[cur] + 1];
    assert s != cur;
    forall b, k | 0 <= b < |succs| && 0 <= k < done'[b]
      ensures visited'[succs[b][k]]
    {
      if b != cur || k < done[cur] {
        assert k < done[b];
      }
    }
  }

  /** A turn keeps the state well formed and marks a block, uses up a successor or pops. */
  lemma DfsStepShaped(succs: seq<seq<nat>>, d: Dfs)
    requires DfsShaped(succs, d) && |d.worklist| > 0
    ensures DfsShaped(succs, DfsStepOf(succs, d))
    ensures var d' := DfsStepOf(succs, d);
      || CountFalse(d'.visited) < CountFalse(d.visited)
      || (CountFalse(d'.visited) == CountFalse(d.visited) && Left(succs, d'.done) < Left(succs, d.done))
      || (CountFalse(d'.visited) == CountFalse(d.visited) && Left(succs, d'.done) == Left(succs, d.done) &&
          |d'.worklist| < |d.worklist|)
  {
    var cur := d.worklist[|d.worklist| - 1];
    if d.done[cur] < |succs[cur]| {
      AdvanceShaped(succs, d, cur);
      var s := succs[cur][d.done[cur]];
      if !d.visiting[s] && !d.visited[s] {
        DiscoveredShaped(succs, NextSuccessor(d, cur), s);
      }
    }
  }

  /** Taking the next successor of the top block keeps the shape and uses up one successor. */
  lemma AdvanceShaped(succs: seq<seq<nat>>, d: Dfs, cur: nat)
    requires DfsShaped(succs, d) && cur < |succs| && d.done[cur] < |succs[cur]|
    ensures DfsShaped(succs, NextSuccessor(d, cur))
    ensures Left(succs, NextSuccessor(d, cur).done) < Left(succs, d.done)
  {
    LeftStep(succs, d.done, cur);
  }

  /** Pushing an unvisited successor keeps the shape and marks one more block. */
  lemma DiscoveredShaped(succs: seq<seq<nat>>, d: Dfs, s: nat)
    requires DfsShaped(succs, d) && s < |succs| && !d.visited[s]
    ensures DfsShaped(succs, Discovered(d, s))
    ensures CountFalse(Discovered(d, s).visited) < CountFalse(d.visited)
  {
    CountFalseSet(d.visited, s);
  }

  /** A turn keeps the search's invariant. */
  lemma DfsStepKeeps(succs: seq<seq<nat>>, d: Dfs)
    requires DfsShaped(succs, d) && DfsInv(succs, d) && |d.worklist| > 0
    ensures DfsShaped(succs, DfsStepOf(succs, d)) && DfsInv(succs, DfsStepOf(succs, d))
  {
    DfsStepShaped(succs, d);
    var cur := d.worklist[|d.worklist| - 1];
    if d.done[cur] == |succs[cur]| {
      PopKeeps(succs, d);
    } else {
      VisitKeeps(succs, d);
    }
  }

  lemma PopKeeps(succs: seq<seq<nat>>, d: Dfs)
    requires DfsShaped(succs, d) && DfsInv(succs, d) && |d.worklist| > 0
    requires d.done[d.worklist[|d.worklist| - 1]] == |succs[d.worklist[|d.worklist| - 1]]|
    ensures DfsShaped(succs, DfsStepOf(succs, d)) && DfsInv(succs, DfsStepOf(succs, d))
  {
    DfsStepShaped(succs, d);
    var cur := d.worklist[|d.worklist| - 1];
    PopKeepsWorkPath(succs, d.visited, d.visiting, d.worklist);
    PopKeepsExplored(succs, d.visited, d.visiting, d.done, cur);
    assert DfsStepOf(succs, d) == Finished(d);
  }

  lemma VisitKeeps(succs: seq<seq<nat>>, d: Dfs)
    requires DfsShaped(succs, d) && DfsInv(succs, d) && |d.worklist| > 0
    requires d.done[d.worklist[|d.worklist| - 1]] < |succs[d.worklist[|d.worklist| - 1]]|
    ensures DfsShaped(succs, DfsStepOf(succs, d)) && DfsInv(succs, DfsStepOf(succs, d))
  {
    var cur := d.worklist[|d.worklist| - 1];
    assert cur in d.worklist;
    var s := succs[cur][d.done[cur]];
    if d.visiting[s] {
      BackKeeps(succs, d, cur, s);
    } else if !d.visited[s] {
      PushKeeps(succs, d, cur, s);
    } else {
      SeenKeeps(succs, d, cur, s);
    }
  }

  lemma BackKeeps(succs: seq<seq<nat>>, d: Dfs, cur: nat, s: nat)
    requires DfsShaped(succs, d) && DfsInv(succs, d) && |d.worklist| > 0 && cur == d.worklist[|d.worklist| - 1]
    requires d.done[cur] < |succs[cur]| && s == succs[cur][d.done[cur]] && d.visiting[s]
    ensures DfsShaped(succs, DfsStepOf(succs, d)) && DfsInv(succs, DfsStepOf(succs, d))
  {
    DfsStepShaped(succs, d);
    BackEdgeKeeps(succs, d, cur, s);
    var d' := DfsStepOf(succs, d);
    assert d' == WithBackEdge(NextSuccessor(d, cur), s, cur);
    assert d'.visited == d.visited && d'.visiting == d.visiting && d'.worklist == d.worklist;
  }

  lemma PushKeeps(succs: seq<seq<nat>>, d: Dfs, cur: nat, s: nat)
    requires DfsShaped(succs, d) && DfsInv(succs, d) && |d.worklist| > 0 && cur == d.worklist[|d.worklist| - 1]
    requires d.done[cur] < |succs[cur]| && s == succs[cur][d.done[cur]] && !d.visiting[s] && !d.visited[s]
    ensures DfsShaped(succs, DfsStepOf(succs, d)) && DfsInv(succs, DfsStepOf(succs, d))
  {
    DfsStepShaped(succs, d);
    assert cur in d.worklist;
    PushKeepsWorkPath(succs, d.visited, d.visiting, d.worklist, s);
    PushKeepsExplored(succs, d.visited, d.visiting, d.done, cur);
    var d' := DfsStepOf(succs, d);
    assert d' == Discovered(NextSuccessor(d, cur), s);
    assert d'.back == d.back;
  }

  lemma SeenKeeps(succs: seq<seq<nat>>, d: Dfs, cur: nat, s: nat)
    requires DfsShaped(succs, d) && DfsInv(succs, d) && |d.worklist| > 0 && cur == d.worklist[|d.worklist| - 1]
    requires d.done[cur] < |succs[cur]| && s == succs[cur][d.done[cur]] && !d.visiting[s] && d.visited[s]
    ensures DfsShaped(succs, DfsStepOf(succs, d)) && DfsInv(succs, DfsStepOf(succs, d))
  {
    DfsStepShaped(succs, d);
    assert cur in d.worklist;
    SeenKeepsExplored(succs, d.visited, d.visiting, d.done, cur);
    var d' := DfsStepOf(succs, d);
    assert d' == NextSuccessor(d, cur);
    assert d'.visited == d.visited && d'.visiting == d.visiting && d'.worklist == d.worklist && d'.back == d.back;
  }

  lemma BackEdgeKeeps(succs: seq<seq<nat>>, d: Dfs, cur: nat, s: nat)
    requires DfsShaped(succs, d) && DfsInv(succs, d) && |d.worklist| > 0 && cur == d.worklist[|d.worklist| - 1]
    requires d.done[cur] < |succs[cur]| && s == succs[cur][d.done[cur]] && d.visiting[s]
    ensures BackOk(succs, d.back[s := d.back[s] + [cur]])
    ensures Explored(succs, d.visited, d.visiting, d.done[cur := d.done[cur] + 1])
  {
    assert cur in d.worklist;
    BackEdgeCloses(succs, d.worklist, s);
    BackOkAdd(succs, d.back, s, cur);
    SeenKeepsExplored(succs, d.visited, d.visiting, d.done, cur);
  }

  /** One turn of the loop of `FindBackEdges`, as its body computes it. */
  method DfsStep(succs: seq<seq<nat>>, d: Dfs) returns (r: Dfs)
    requires DfsShaped(succs, d) && DfsInv(succs, d) && |d.worklist| > 0
    ensures r == DfsStepOf(succs, d)
  {
    var cur := d.worklist[|d.worklist| - 1];
    if d.done[cur] == |succs[cur]| {
      return Finished(d);
    }
    var s := succs[cur][d.done[cur]];
    var d1 := NextSuccessor(d, cur);
    if d.visiting[s] {
      // ASSERT(ContainsElement(worklist, successor)) holds: visiting is the worklist.
      assert s in d.worklist;
      r := WithBackEdge(d1, s, cur);
    } else if !d.visited[s] {
      r := Discovered(d1, s);
    } else {
      r := d1;
    }
  }

  /** The state before the loop: the entry visited, visiting and on the worklist. */
  function DfsStart(n: nat): Dfs
  {
    Dfs(seq(n, b => b == 0), seq(n, b => b == 0), seq(n, _ => 0), [0], seq(n, _ => []))
  }

  lemma DfsStartKeeps(succs: seq<seq<nat>>)
    requires SuccsOk(succs) && |succs| > 0
    ensures DfsShaped(succs, DfsStart(|succs|)) && DfsInv(succs, DfsStart(|succs|))
  {
    var d := DfsStart(|succs|);
    assert IsPath(succs, [0]);
    assert Reaches(succs, 0, 0);
  }

  /** Once the worklist is empty, the visited blocks are closed under successors. */
  lemma {:induction false} VisitedReachable(succs: seq<seq<nat>>, d: Dfs, p: seq<nat>)
    requires DfsShaped(succs, d) && DfsInv(succs, d) && d.worklist == []
    requires IsPath(succs, p) && |p| > 0 && p[0] == 0
    ensures d.visited[p[|p| - 1]]
    decreases |p|
  {
    if |p| > 1 {
      var q := p[..|p| - 1];
      assert IsPath(succs, q);
      VisitedReachable(succs, d, q);
      var b := q[|q| - 1];
      assert !d.visiting[b];
      var c := p[|p| - 1];
      var k :| 0 <= k < |succs[b]| && succs[b][k] == c;
      assert k < d.done[b];
    }
  }

  /**
   * `FindBackEdges`: a depth-first search from the entry (block 0).  It
   * visits exactly the blocks reachable from the entry, and each recorded
   * back edge c -> s is an edge whose target s reaches c, so it closes a
   * cycle.
   */
  method FindBackEdgesOf(succs: seq<seq<nat>>) returns (visited: seq<bool>, back: seq<seq<nat>>)
    requires SuccsOk(succs) && |succs| > 0
    ensures |visited| == |succs| && |back| == |succs|
    ensures forall b :: 0 <= b < |succs| ==> (visited[b] <==> Reaches(succs, 0, b))
    ensures forall s, k :: 0 <= s < |succs| && 0 <= k < |back[s]| ==>
      back[s][k] < |succs| && s in succs[back[s][k]] && Reaches(succs, s, back[s][k])
  {
    var d := DfsStart(|succs|);
    DfsStartKeeps(succs);
    while |d.worklist| > 0
      invariant DfsShaped(succs, d) && DfsInv(succs, d)
      decreases CountFalse(d.visited), Left(succs, d.done), |d.worklist|
    {
      DfsStepShaped(succs, d);
      DfsStepKeeps(succs, d);
      d := DfsStep(succs, d);
    }
    forall b | 0 <= b < |succs|
      ensures d.visited[b] <==> Reaches(succs, 0, b)
    {
      if Reaches(succs, 0, b) {
        var p :| IsPath(succs, p) && |p| > 0 && p[0] == 0 && p[|p| - 1] == b;
        VisitedReachable(succs, d, p);
      }
    }
    visited, back := d.visited, d.back;
  }

  // ---------------------------------------------------------------- the pass on a function

  /**
   * What the pass expects of a function: EndFunction has linked it (block
   * h at index h of the block vector, predecessors and successors read off
   * the edges), fewer than 65536 blocks, and at least one block (the ASSERT
   * "No block?").
   */
  ghost predicate Linked(f: HIRFunction)
    reads f
  {
    && f.Valid() && 0 < |f.blocks| < OrderLimit
    && |f.vector| == |f.blocks| && (forall h :: 0 <= h < |f.blocks| ==> f.vector[h] == h)
    && forall h :: 0 <= h < |f.blocks| ==>
         f.blocks[h].preds == Srcs(f.edges, f.blocks[h].incoming) && f.blocks[h].succs == Dests(f.edges, f.blocks[h].outgoing)
  }

  /** The successor lists of the blocks. */
  function SuccsOf(blocks: seq<HBlock>): (r: seq<seq<nat>>)
    ensures |r| == |blocks| && forall h :: 0 <= h < |blocks| ==> r[h] == blocks[h].succs
  {
    seq(|blocks|, h requires 0 <= h < |blocks| => blocks[h].succs)
  }

  /** The dominators of the blocks, -1 for null. */
  function Dominators(blocks: seq<HBlock>): (r: seq<int>)
    ensures |r| == |blocks| && forall h :: 0 <= h < |blocks| ==> r[h] == blocks[h].dominator
  {
    seq(|blocks|, h requires 0 <= h < |blocks| => blocks[h].dominator)
  }

  /**
   * The visit count at which `ComputeDominanceInformation` schedules a
   * block: its predecessors minus its back edges.
   */
  function Thresholds(blocks: seq<HBlock>): (r: seq<int>)
    ensures |r| == |blocks| && forall h :: 0 <= h < |blocks| ==> r[h] == |blocks[h].preds| - |blocks[h].backEdges|
  {
    seq(|blocks|, h requires 0 <= h < |blocks| => |blocks[h].preds| - |blocks[h].backEdges|)
  }

  lemma LinkedSuccsOk(f: HIRFunction)
    requires Linked(f)
    ensures SuccsOk(SuccsOf(f.blocks)) && |SuccsOf(f.blocks)| > 0
  {
    var succs := SuccsOf(f.blocks);
    forall b, k | 0 <= b < |succs| && 0 <= k < |succs[b]|
      ensures succs[b][k] < |succs|
    {
      assert EdgesBelow(f.blocks[b].outgoing, |f.edges|);
    }
  }

  // ---------------------------------------------------------------- FindDominateEdges

  /** Edge j is the only incoming edge of one of the blocks. */
  predicate SoleIncoming(blocks: seq<HBlock>, j: nat)
  {
    exists h :: 0 <= h < |blocks| && blocks[h].incoming == [j]
  }

  /** `flags |= DOMINATES`. */
  function Dominating(e: Edge): (r: Edge)
    ensures SameEnds(r, e) && r.dominates
  {
    e.(dominates := true)
  }

  /** The edges once the sole incoming edge of every block dominates. */
  function MarkDominates(edges: seq<Edge>, blocks: seq<HBlock>): (r: seq<Edge>)
    ensures |r| == |edges|
    ensures forall j :: 0 <= j < |edges| ==> SameEnds(r[j], edges[j])
    ensures forall j :: 0 <= j < |edges| ==> (r[j].dominates <==> edges[j].dominates || SoleIncoming(blocks, j))
  {
    seq(|edges|, j requires 0 <= j < |edges| => if SoleIncoming(blocks, j) then Dominating(edges[j]) else edges[j])
  }

  /** Marking twice is marking once. */
  lemma MarkDominatesIdempotent(edges: seq<Edge>, blocks: seq<HBlock>)
    ensures MarkDominates(MarkDominates(edges, blocks), blocks) == MarkDominates(edges, blocks)
  {
    var r := MarkDominates(edges, blocks);
    var r2 := MarkDominates(r, blocks);
    forall j | 0 <= j < |edges|
      ensures r2[j] == r[j]
    {
      if SoleIncoming(blocks, j) {
        assert r[j] == Dominating(edges[j]);
      }
    }
  }

  /** Sources and destinations read off edges with the same ends are the same. */
  lemma SameEndsLinks(edges: seq<Edge>, edges': seq<Edge>, l: seq<nat>)
    requires |edges'| == |edges| && forall j :: 0 <= j < |edges| ==> SameEnds(edges'[j], edges[j])
    requires forall k :: 0 <= k < |l| ==> l[k] < |edges|
    ensures Srcs(edges', l) == Srcs(edges, l) && Dests(edges', l) == Dests(edges, l)
  {
  }

  lemma SoleIncomingExtend(blocks: seq<HBlock>, h: nat, j: nat)
    requires h < |blocks|
    ensures SoleIncoming(blocks[..h + 1], j) <==> SoleIncoming(blocks[..h], j) || blocks[h].incoming == [j]
  {
    if SoleIncoming(blocks[..h + 1], j) {
      var x :| 0 <= x < h + 1 && blocks[..h + 1][x].incoming == [j];
      if x < h {
        assert blocks[..h][x] == blocks[x];
      }
    }
    if SoleIncoming(blocks[..h], j) {
      var x :| 0 <= x < h && blocks[..h][x].incoming == [j];
      assert blocks[..h + 1][x] == blocks[x];
    }
    if blocks[h].incoming == [j] {
      assert blocks[..h + 1][h] == blocks[h];
    }
  }

  /**
   * `FindDominateEdges`: for every block of the vector with exactly one
   * incoming edge, that edge gets the DOMINATES flag.
   */
  method FindDominateEdges(f: HIRFunction)
    requires Linked(f)
    modifies f
    ensures f.edges == MarkDominates(old(f.edges), f.blocks)
    ensures f.blocks == old(f.blocks) && f.vector == old(f.vector) && f.rpo == old(f.rpo) && f.values == old(f.values)
    ensures Linked(f)
  {
    var es := f.edges;
    var h := 0;
    while h < |f.blocks|
      invariant unchanged(f)
      invariant h <= |f.blocks| && |es| == |f.edges|
      invariant forall j :: 0 <= j < |es| ==> es[j] == if SoleIncoming(f.blocks[..h], j) then Dominating(f.edges[j]) else f.edges[j]
    {
      var inc := f.blocks[h].incoming;
      assert EdgesBelow(inc, |f.edges|);
      forall j | 0 <= j < |es|
        ensures SoleIncoming(f.blocks[..h + 1], j) <==> SoleIncoming(f.blocks[..h], j) || f.blocks[h].incoming == [j]
      {
        SoleIncomingExtend(f.blocks, h, j);
      }
      if |inc| == 1 {
        assert inc == [inc[0]];
        es := es[inc[0] := Dominating(es[inc[0]])];
      }
      h := h + 1;
    }
    assert f.blocks[..h] == f.blocks;
    forall x | 0 <= x < |f.blocks|
      ensures Srcs(es, f.blocks[x].incoming) == Srcs(f.edges, f.blocks[x].incoming)
      ensures Dests(es, f.blocks[x].outgoing) == Dests(f.edges, f.blocks[x].outgoing)
    {
      SameEndsLinks(f.edges, es, f.blocks[x].incoming);
      SameEndsLinks(f.edges, es, f.blocks[x].outgoing);
    }
    f.edges := es;
  }

  // ---------------------------------------------------------------- writing the results back

  /** `AddBackEdge` for each source of `l`, in order. */
  function WithBackEdges(b: HBlock, l: seq<nat>): (r: HBlock)
    ensures r.backEdges == b.backEdges + l
  {
    b.(backEdges := b.backEdges + l)
  }

  function WithDominator(b: HBlock, d: int): (r: HBlock)
    ensures r.dominator == d
  {
    b.(dominator := d)
  }

  /** Everything but back edges and dominator is the same. */
  predicate SameShape(a: HBlock, b: HBlock)
  {
    && a.order == b.order && a.start == b.start && a.endLoc == b.endLoc && a.term == b.term && a.insts == b.insts
    && a.incoming == b.incoming && a.outgoing == b.outgoing && a.preds == b.preds && a.succs == b.succs
  }

  /**
   * Replacing blocks by blocks of the same shape keeps the function
   * linked.
   */
  lemma SameShapeLinked(f: HIRFunction, blocks: seq<HBlock>)
    requires Linked(f) && |blocks| == |f.blocks| && forall h :: 0 <= h < |blocks| ==> SameShape(blocks[h], f.blocks[h])
    ensures forall h :: 0 <= h < |blocks| ==> blocks[h].order == h % OrderLimit
    ensures forall h :: 0 <= h < |blocks| ==>
      && EdgesBelow(blocks[h].incoming, |f.edges|) && EdgesBelow(blocks[h].outgoing, |f.edges|)
      && blocks[h].preds == Srcs(f.edges, blocks[h].incoming) && blocks[h].succs == Dests(f.edges, blocks[h].outgoing)
  {
  }

  /**
   * `FindBackEdges` on the function: the depth-first search from
   * blocks[0], then each back edge c -> s is added to s's back edges
   * (AddBackEdge(c)).  `visited` is the bit vector the caller passes in.
   */
  method FindBackEdges(f: HIRFunction) returns (visited: seq<bool>, back: seq<seq<nat>>)
    requires Linked(f)
    modifies f
    ensures Linked(f) && f.edges == old(f.edges) && f.rpo == old(f.rpo) && f.values == old(f.values)
    ensures |visited| == |f.blocks| == |old(f.blocks)| && |back| == |f.blocks|
    ensures forall h :: 0 <= h < |f.blocks| ==> f.blocks[h] == WithBackEdges(old(f.blocks)[h], back[h])
    ensures forall b :: 0 <= b < |f.blocks| ==> (visited[b] <==> Reaches(SuccsOf(f.blocks), 0, b))
    ensures forall s, k :: 0 <= s < |f.blocks| && 0 <= k < |back[s]| ==>
      back[s][k] < |f.blocks| && s in f.blocks[back[s][k]].succs && Reaches(SuccsOf(f.blocks), s, back[s][k])
  {
    LinkedSuccsOk(f);
    visited, back := FindBackEdgesOf(SuccsOf(f.blocks));
    var blocks := f.blocks;
    var bs := seq(|blocks|, h requires 0 <= h < |blocks| => WithBackEdges(blocks[h], back[h]));
    assert SuccsOf(bs) == SuccsOf(f.blocks);
    SameShapeLinked(f, bs);
    f.blocks := bs;
  }

  /**
   * `ComputeDominanceInformation` as written: the walk from the entry
   * without appending the entry to the RPO list, and with edges into the
   * entry treated like any other.  ok is false where the source would
   * not return (a dominator chain that runs in a cycle).  The blocks
   * appended to the RPO list are distinct and each has a positive
   * threshold, so an entry without forward predecessors is never in it.
   */
  method ComputeDominanceInformationAsWritten(f: HIRFunction) returns (ok: bool)
    requires Linked(f) && DomOk(Dominators(f.blocks))
    modifies f
    ensures Linked(f) && f.edges == old(f.edges) && f.values == old(f.values) && DomOk(Dominators(f.blocks))
    ensures |f.blocks| == |old(f.blocks)| && forall h :: 0 <= h < |f.blocks| ==> SameShape(f.blocks[h], old(f.blocks)[h])
    ensures forall h :: 0 <= h < |f.blocks| ==> f.blocks[h].backEdges == old(f.blocks)[h].backEdges
    ensures |old(f.rpo)| <= |f.rpo| && f.rpo[..|old(f.rpo)|] == old(f.rpo) && Distinct(f.rpo[|old(f.rpo)|..])
    ensures forall k :: |old(f.rpo)| <= k < |f.rpo| ==> f.rpo[k] < |f.blocks| && Thresholds(old(f.blocks))[f.rpo[k]] >= 1
    ensures Thresholds(old(f.blocks))[0] <= 0 ==> 0 !in f.rpo[|old(f.rpo)|..]
  {
    ok := DominanceInto(f, false);
  }

  /**
   * `ComputeDominanceInformation` corrected: the entry is appended first
   * to the RPO list and edges into the entry are passed over.  On a
   * function whose blocks have no dominator yet, the walk returns, the
   * dominators form a tree rooted at the entry, and every block appended
   * to the RPO list hangs in that tree.
   */
  method ComputeDominanceInformation(f: HIRFunction) returns (ok: bool)
    requires Linked(f) && DomOk(Dominators(f.blocks))
    modifies f
    ensures Linked(f) && f.edges == old(f.edges) && f.values == old(f.values) && DomOk(Dominators(f.blocks))
    ensures |f.blocks| == |old(f.blocks)| && forall h :: 0 <= h < |f.blocks| ==> SameShape(f.blocks[h], old(f.blocks)[h])
    ensures forall h :: 0 <= h < |f.blocks| ==> f.blocks[h].backEdges == old(f.blocks)[h].backEdges
    ensures |old(f.rpo)| < |f.rpo| && f.rpo[..|old(f.rpo)|] == old(f.rpo) && f.rpo[|old(f.rpo)|] == 0
    ensures Distinct(f.rpo[|old(f.rpo)|..])
    ensures forall k :: |old(f.rpo)| < k < |f.rpo| ==> f.rpo[k] < |f.blocks| && Thresholds(old(f.blocks))[f.rpo[k]] >= 1
    ensures AllNull(Dominators(old(f.blocks))) ==>
      && ok && DomOk(Dominators(f.blocks)) && Acyclic(Dominators(f.blocks)) && f.blocks[0].dominator == -1
      && forall k :: |old(f.rpo)| <= k < |f.rpo| ==> Reached(Dominators(f.blocks), f.rpo[k])
  {
    ok := DominanceInto(f, true);
  }

  /** The walk on the function's blocks, with the dominators and the RPO list written back. */
  method DominanceInto(f: HIRFunction, skipEntry: bool) returns (ok: bool)
    requires Linked(f) && DomOk(Dominators(f.blocks))
    modifies f
    ensures Linked(f) && f.edges == old(f.edges) && f.values == old(f.values) && DomOk(Dominators(f.blocks))
    ensures |f.blocks| == |old(f.blocks)| && forall h :: 0 <= h < |f.blocks| ==> SameShape(f.blocks[h], old(f.blocks)[h])
    ensures forall h :: 0 <= h < |f.blocks| ==> f.blocks[h].backEdges == old(f.blocks)[h].backEdges
    ensures |old(f.rpo)| <= |f.rpo| && f.rpo[..|old(f.rpo)|] == old(f.rpo) && Distinct(f.rpo[|old(f.rpo)|..])
    ensures skipEntry ==> |old(f.rpo)| < |f.rpo| && f.rpo[|old(f.rpo)|] == 0
    ensures forall k :: |old(f.rpo)| <= k < |f.rpo| && (f.rpo[k] != 0 || !skipEntry) ==>
      f.rpo[k] < |f.blocks| && Thresholds(old(f.blocks))[f.rpo[k]] >= 1
    ensures !skipEntry && Thresholds(old(f.blocks))[0] <= 0 ==> 0 !in f.rpo[|old(f.rpo)|..]
    ensures skipEntry && AllNull(Dominators(old(f.blocks))) ==>
      && ok && DomOk(Dominators(f.blocks)) && Acyclic(Dominators(f.blocks)) && f.blocks[0].dominator == -1
      && forall k :: |old(f.rpo)| <= k < |f.rpo| ==> Reached(Dominators(f.blocks), f.rpo[k])
  {
    LinkedSuccsOk(f);
    var succs := SuccsOf(f.blocks);
    var threshold := Thresholds(f.blocks);
    var rpo0 := f.rpo;
    var w;
    ok, w := DominanceWalk(succs, threshold, skipEntry, Dominators(f.blocks), rpo0);
    var app := w.rpo[|rpo0|..];
    forall k | |rpo0| <= k < |w.rpo| && (w.rpo[k] != 0 || !skipEntry)
      ensures w.rpo[k] < |f.blocks| && threshold[w.rpo[k]] >= 1
    {
      assert app[k - |rpo0|] == w.rpo[k];
    }
    var blocks := f.blocks;
    var bs := seq(|blocks|, h requires 0 <= h < |blocks| => WithDominator(blocks[h], w.dom[h]));
    assert Dominators(bs) == w.dom;
    SameShapeLinked(f, bs);
    f.blocks := bs;
    f.rpo := w.rpo;
  }

  /**
   * `CFGAnalysisPass::Run` on one function: DOMINATES flags, back edges,
   * then dominators and the RPO list (with the corrected walk).  On a
   * freshly linked function the entry heads the RPO list and the
   * dominators form a tree rooted at the entry.
   */
  method Run(f: HIRFunction) returns (ok: bool)
    requires Linked(f) && DomOk(Dominators(f.blocks))
    modifies f
    ensures Linked(f) && f.edges == MarkDominates(old(f.edges), old(f.blocks)) && DomOk(Dominators(f.blocks))
    ensures |f.blocks| == |old(f.blocks)| && forall h :: 0 <= h < |f.blocks| ==> SameShape(f.blocks[h], old(f.blocks)[h])
    ensures forall h :: 0 <= h < |f.blocks| ==> |f.blocks[h].backEdges| >= |old(f.blocks)[h].backEdges|
    ensures |old(f.rpo)| < |f.rpo| && f.rpo[..|old(f.rpo)|] == old(f.rpo) && f.rpo[|old(f.rpo)|] == 0
    ensures Distinct(f.rpo[|old(f.rpo)|..])
    ensures AllNull(Dominators(old(f.blocks))) ==> ok && DomOk(Dominators(f.blocks)) && Acyclic(Dominators(f.blocks)) && f.blocks[0].dominator == -1
  {
    FindDominateEdges(f);
    ghost var blocks1 := f.blocks;
    var visited, back := FindBackEdges(f);
    assert Dominators(f.blocks) == Dominators(blocks1);
    ghost var blocks2 := f.blocks;
    ok := ComputeDominanceInformation(f);
  }

  /**
   * `CFGAnalysisPass::Run` as written: the same steps with the walk as
   * written.  The blocks appended to the RPO list are distinct and have a
   * positive threshold, so an entry with no forward predecessor is left
   * out of the list.
   */
  method RunAsWritten(f: HIRFunction) returns (ok: bool)
    requires Linked(f) && DomOk(Dominators(f.blocks))
    modifies f
    ensures Linked(f) && f.edges == MarkDominates(old(f.edges), old(f.blocks)) && DomOk(Dominators(f.blocks))
    ensures |f.blocks| == |old(f.blocks)| && forall h :: 0 <= h < |f.blocks| ==> SameShape(f.blocks[h], old(f.blocks)[h])
    ensures forall h :: 0 <= h < |f.blocks| ==> |f.blocks[h].backEdges| >= |old(f.blocks)[h].backEdges|
    ensures |old(f.rpo)| <= |f.rpo| && f.rpo[..|old(f.rpo)|] == old(f.rpo) && Distinct(f.rpo[|old(f.rpo)|..])
    ensures forall k :: |old(f.rpo)| <= k < |f.rpo| ==> f.rpo[k] < |f.blocks| && Thresholds(f.blocks)[f.rpo[k]] >= 1
    ensures Thresholds(f.blocks)[0] <= 0 ==> 0 !in f.rpo[|old(f.rpo)|..]
  {
    FindDominateEdges(f);
    ghost var blocks1 := f.blocks;
    var visited, back := FindBackEdges(f);
    assert Dominators(f.blocks) == Dominators(blocks1);
    ok := ComputeDominanceInformationAsWritten(f);
  }

  ghost predicate Ready(f: HIRFunction)
    reads f
  {
    Linked(f) && DomOk(Dominators(f.blocks))
  }

  /** f is as it was: edges e0, blocks b0, RPO list r0. */
  ghost predicate As(f: HIRFunction, e0: seq<Edge>, b0: seq<HBlock>, r0: seq<nat>)
    reads f
  {
    f.edges == e0 && f.blocks == b0 && f.rpo == r0
  }

  /** The pass has run on f, which was as e0, b0, r0. */
  ghost predicate Ran(f: HIRFunction, e0: seq<Edge>, b0: seq<HBlock>, r0: seq<nat>)
    reads f
  {
    f.edges == MarkDominates(e0, b0) && |r0| < |f.rpo| && f.rpo[|r0|] == 0
  }

  /** Before (As) or after (Ran) the pass, and ready for it. */
  ghost predicate Stage(f: HIRFunction, e0: seq<Edge>, b0: seq<HBlock>, r0: seq<nat>, ran: bool)
    reads f
  {
    Ready(f) && if ran then Ran(f, e0, b0, r0) else As(f, e0, b0, r0)
  }

  /** Run, seen from the builder's loop. */
  method RunReady(f: HIRFunction) returns (ok: bool)
    requires Ready(f)
    modifies f
    ensures Ready(f) && Ran(f, old(f.edges), old(f.blocks), old(f.rpo))
  {
    ok := Run(f);
  }

  /**
   * `CFGAnalysisPass::Run(HIRBuilder*)`: the pass on every function of
   * the builder, each a distinct object.
   */
  method RunAll(b: HIRBuilder) returns (ok: bool)
    requires forall i :: 0 <= i < |b.functions| ==> Ready(b.functions[i])
    requires forall i, j :: 0 <= i < j < |b.functions| ==> b.functions[i] != b.functions[j]
    modifies set i | 0 <= i < |b.functions| :: b.functions[i]
    ensures forall i :: 0 <= i < |b.functions| ==> Ready(b.functions[i])
    ensures forall i :: 0 <= i < |b.functions| ==>
      Ran(b.functions[i], old(b.functions[i].edges), old(b.functions[i].blocks), old(b.functions[i].rpo))
  {
    var fs := b.functions;
    ghost var es := seq(|fs|, i requires 0 <= i < |fs| reads fs => fs[i].edges);
    ghost var bs := seq(|fs|, i requires 0 <= i < |fs| reads fs => fs[i].blocks);
    ghost var rs := seq(|fs|, i requires 0 <= i < |fs| reads fs => fs[i].rpo);
    ok := true;
    var i := 0;
    while i < |fs|
      invariant i <= |fs| && fs == b.functions
      invariant forall j :: 0 <= j < |fs| ==> Stage(fs[j], es[j], bs[j], rs[j], j < i)
    {
      var r := RunReady(fs[i]);
      ok := ok && r;
      i := i + 1;
    }
  }
}
